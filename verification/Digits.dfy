/** Decimal numerals of natural numbers, as `bigint` prints and parses them. */
module Digits {

  function Pow10(k: nat): (p: int)
    ensures p >= 1
  {
    if k == 0 then 1 else 10 * Pow10(k - 1)
  }

  lemma {:induction false} Pow10Add(j: nat, k: nat)
    ensures Pow10(j + k) == Pow10(j) * Pow10(k)
  {
    if j > 0 {
      Pow10Add(j - 1, k);
    }
  }

  lemma {:induction false} Pow10Monotone(j: nat, k: nat)
    requires j < k
    ensures Pow10(j) * 10 <= Pow10(k)
  {
    if j + 1 < k {
      Pow10Monotone(j, k - 1);
    }
  }

  predicate IsDigit(c: char) {
    '0' <= c <= '9'
  }

  predicate AllDigits(s: string) {
    forall i :: 0 <= i < |s| ==> IsDigit(s[i])
  }

  function DigitChar(d: int): (c: char)
    requires 0 <= d < 10
    ensures IsDigit(c) && DigitValue(c) == d
  {
    ('0' as int + d) as char
  }

  function DigitValue(c: char): (d: int)
    requires IsDigit(c)
    ensures 0 <= d < 10
  {
    c as int - '0' as int
  }

  function Print(n: nat): (s: string)
    ensures AllDigits(s) && |s| > 0
  {
    if n < 10 then [DigitChar(n)] else Print(n / 10) + [DigitChar(n % 10)]
  }

  function Parse(s: string): (n: int)
    requires AllDigits(s)
    ensures n >= 0
  {
    if s == "" then 0 else Parse(s[..|s| - 1]) * 10 + DigitValue(s[|s| - 1])
  }

  lemma {:induction false} ParsePrint(n: nat)
    ensures Parse(Print(n)) == n
  {
    if n >= 10 {
      ParsePrint(n / 10);
      assert Print(n)[..|Print(n)| - 1] == Print(n / 10);
    }
  }

  lemma PrintInjective(m: nat, n: nat)
    requires Print(m) == Print(n)
    ensures m == n
  {
    ParsePrint(m);
    ParsePrint(n);
  }

  lemma ShiftIn(x: int, p: int, y: int, d: int)
    ensures (x * p + y) * 10 + d == x * (10 * p) + (y * 10 + d)
  {
  }

  lemma {:induction false} ParseConcat(a: string, b: string)
    requires AllDigits(a) && AllDigits(b)
    ensures Parse(a + b) == Parse(a) * Pow10(|b|) + Parse(b)
  {
    if b == "" {
      assert a + b == a;
    } else {
      var init := b[..|b| - 1];
      ParseConcat(a, init);
      ShiftIn(Parse(a), Pow10(|init|), Parse(init), DigitValue(b[|b| - 1]));
      assert (a + b)[..|a + b| - 1] == a + init;
    }
  }

  // The numeral has k digits exactly when the number lies between 10^(k-1) and 10^k; zero has one.
  lemma {:induction false} PrintLength(n: nat)
    ensures n < Pow10(|Print(n)|)
    ensures n > 0 ==> Pow10(|Print(n)| - 1) <= n
  {
    if n >= 10 {
      PrintLength(n / 10);
    } else {
      assert Pow10(1) == 10;
    }
  }

  lemma {:induction false} NoLeadingZero(n: nat)
    requires n > 0
    ensures Print(n)[0] != '0'
  {
    if n >= 10 {
      NoLeadingZero(n / 10);
    }
  }

  function Zeros(k: nat): (s: string)
    ensures |s| == k && AllDigits(s) && forall i :: 0 <= i < k ==> s[i] == '0'
  {
    seq(k, _ => '0')
  }

  lemma {:induction false} ParseZeros(k: nat)
    ensures Parse(Zeros(k)) == 0
  {
    if k > 0 {
      ParseZeros(k - 1);
      assert Zeros(k)[..k - 1] == Zeros(k - 1);
    }
  }

  // Leading zeros count for nothing, trailing ones multiply by ten.
  lemma ParsePadded(j: nat, s: string, k: nat)
    requires AllDigits(s)
    ensures AllDigits(Zeros(j) + s + Zeros(k)) && Parse(Zeros(j) + s + Zeros(k)) == Parse(s) * Pow10(k)
  {
    ParseZeros(j);
    ParseZeros(k);
    ParseConcat(Zeros(j), s);
    ParseConcat(Zeros(j) + s, Zeros(k));
  }

  lemma {:induction false} ParseBounds(s: string)
    requires AllDigits(s)
    ensures Parse(s) < Pow10(|s|)
    ensures s != "" && s[0] != '0' ==> Pow10(|s| - 1) <= Parse(s)
  {
    if |s| > 0 {
      ParseBounds(s[..|s| - 1]);
      assert Pow10(1) == 10 * Pow10(0);
    }
  }

  lemma {:induction false} ParseInjective(s: string, t: string)
    requires AllDigits(s) && AllDigits(t) && |s| == |t| && Parse(s) == Parse(t)
    ensures s == t
  {
    if |s| > 0 {
      var i := |s| - 1;
      ParseInjective(s[..i], t[..i]);
      assert s == s[..i] + [s[i]] && t == t[..i] + [t[i]];
    }
  }

  // ---------------------------------------------------------------------------
  // Signed numerals

  function PrintInt(n: int): string {
    if n < 0 then "-" + Print(-n) else Print(n)
  }

  // An optional sign and at least one digit.
  predicate IsNumeral(s: string) {
    if s != "" && (s[0] == '+' || s[0] == '-') then |s| > 1 && AllDigits(s[1..])
    else s != "" && AllDigits(s)
  }

  function ParseInt(s: string): int
    requires IsNumeral(s)
  {
    if s[0] == '-' then -Parse(s[1..]) else if s[0] == '+' then Parse(s[1..]) else Parse(s)
  }

  lemma SignedNumeral(digits: string)
    requires AllDigits(digits) && digits != ""
    ensures IsNumeral(digits) && ParseInt(digits) == Parse(digits)
    ensures IsNumeral("-" + digits) && ParseInt("-" + digits) == -Parse(digits)
    ensures IsNumeral("+" + digits) && ParseInt("+" + digits) == Parse(digits)
  {
    assert IsDigit(digits[0]);
    assert ("-" + digits)[1..] == digits && ("+" + digits)[1..] == digits;
  }

  lemma NumeralMeans(s: string)
    ensures IsNumeral(s) <==>
      exists digits: string :: digits != "" && AllDigits(digits) && s in [digits, "+" + digits, "-" + digits]
  {
    if IsNumeral(s) {
      var digits := if s[0] == '+' || s[0] == '-' then s[1..] else s;
      assert s == [s[0]] + s[1..];
      assert digits != "" && AllDigits(digits) && s in [digits, "+" + digits, "-" + digits];
    }
    if digits: string :| digits != "" && AllDigits(digits) && s in [digits, "+" + digits, "-" + digits] {
      SignedNumeral(digits);
    }
  }
}
