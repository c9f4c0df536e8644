/** Long division to a number of significant digits, rounding the last one half away from zero. */
module DecimalDivide {
  import opened Arithmetic
  import opened Digits
  import opened Decimal
  import opened Truncated

  // 1 when the leading digit is at least 5.
  function RoundTerminal(n: int): (r: int)
    ensures 0 <= n < 10 ==> r == if n < 5 then 0 else 1
  {
    if DigitValue(Print(Abs(n))[0]) < 5 then 0 else 1
  }

  lemma {:induction false} LeadingDigit(n: nat)
    ensures var lead, p := DigitValue(Print(n)[0]), Pow10(|Print(n)| - 1);
      lead * p <= n < (lead + 1) * p
  {
    if n >= 10 {
      LeadingDigit(n / 10);
      assert Print(n)[0] == Print(n / 10)[0];
      TenTimes(DigitValue(Print(n)[0]), Pow10(|Print(n / 10)| - 1), n / 10, n % 10);
    } else {
      assert Pow10(0) == 1;
    }
  }

  lemma TenTimes(lead: int, p: int, q: int, digit: int)
    requires lead * p <= q < (lead + 1) * p && 0 <= digit < 10
    ensures lead * (10 * p) <= q * 10 + digit < (lead + 1) * (10 * p)
  {
    assert lead * (10 * p) == 10 * (lead * p) && (lead + 1) * (10 * p) == 10 * ((lead + 1) * p);
  }

  // It rounds up exactly from 5 times the power of ten of its magnitude.
  lemma RoundTerminalMeans(n: int)
    ensures RoundTerminal(n) == 1 <==> Abs(n) >= 5 * Pow10(|Print(Abs(n))| - 1)
    ensures RoundTerminal(n) == 0 || RoundTerminal(n) == 1
  {
    var lead, p := DigitValue(Print(Abs(n))[0]), Pow10(|Print(Abs(n))| - 1);
    LeadingDigit(Abs(n));
    AtLeastFive(lead, p, Abs(n));
  }

  lemma AtLeastFive(lead: int, p: int, m: int)
    requires p > 0 && lead * p <= m < (lead + 1) * p
    ensures lead >= 5 <==> m >= 5 * p
  {
    if lead < 5 {
      MulMonotone(p, lead + 1, 5);
    } else {
      MulMonotone(p, 5, lead);
    }
  }

  // q is the quotient n / d rounded to the nearest integer, halves upward.
  predicate Nearest(n: int, d: int, q: int) {
    (2 * q - 1) * d <= 2 * n < (2 * q + 1) * d
  }

  // The dividend widened by k places is ready to be divided: the quotient is exact or long enough.
  predicate Settled(n: nat, d: nat, precision: int)
    requires d > 0
  {
    n >= d && (n % d == 0 || |Print(n / d)| >= precision)
  }

  // The dividend has to be widened by k places, and by no fewer, to settle the quotient.
  predicate FewestPlaces(num: int, den: int, k: int, precision: int)
    requires den != 0
  {
    && k >= 0 && Settled(Abs(num) * Pow10(k), Abs(den), precision)
    && (k > 0 ==> !Settled(Abs(num) * Pow10(k - 1), Abs(den), precision))
  }

  // r is num / den at the given scale, widened by as few places as it takes to settle it.
  ghost predicate IsRounded(num: int, den: int, scale: int, precision: int, r: Dec)
    requires den != 0
  {
    var k := r.scale - scale;
    && FewestPlaces(num, den, k, precision)
    && Nearest(Abs(num) * Pow10(k), Abs(den), Abs(r.value))
    && r.value != 0 && (r.value < 0 <==> (num < 0) != (den < 0))
  }

  lemma NextDigit(quotient: int, digit: int)
    requires quotient >= 1 && 0 <= digit < 10
    ensures |Print(quotient * 10 + digit)| == |Print(quotient)| + 1
  {
    DivUnique(quotient * 10 + digit, 10, quotient, digit);
  }

  lemma Widen(n: int, k: nat)
    ensures n * Pow10(k + 1) == n * Pow10(k) * 10
  {
    assert Pow10(k + 1) == 10 * Pow10(k);
    assert n * (10 * Pow10(k)) == n * Pow10(k) * 10;
  }

  lemma FirstQuotient(num: int, den: int)
    requires 0 < den <= num
    ensures num / den >= 1 && num == (num / den) * den + num % den
  {
    var q := num / den;
    assert num == den * q + num % den;
    if q <= 0 {
      MulMonotone(den, q, 0);
    }
  }

  // ---------------------------------------------------------------------------
  // What the loops maintain

  // n is the dividend n0 widened by k places, and no fewer places settle it.
  ghost predicate Widened(n: int, n0: nat, k: int, den: int, precision: int) {
    && den > 0 && k >= 0 && n == n0 * Pow10(k)
    && (k > 0 ==> !Settled(n0 * Pow10(k - 1), den, precision))
  }

  ghost predicate Divided(n: int, den: int, quotient: int, rest: int) {
    den > 0 && quotient >= 1 && n == quotient * den + rest && 0 <= rest < den
  }

  lemma StartWiden(n0: nat, den: int, precision: int)
    requires den > 0
    ensures Widened(n0, n0, 0, den, precision)
  {
  }

  lemma WidenOnce(n: nat, n0: nat, k: int, den: int, precision: int)
    requires Widened(n, n0, k, den, precision) && !Settled(n, den, precision)
    ensures Widened(n * 10, n0, k + 1, den, precision)
  {
    Widen(n0, k);
  }

  lemma TooSmall(n: nat, den: nat, precision: int)
    requires n < den
    ensures den > 0 && !Settled(n, den, precision)
  {
  }

  lemma StartDivide(num: int, den: int)
    requires 0 < den <= num
    ensures Divided(num, den, num / den, num % den)
  {
    FirstQuotient(num, den);
  }

  lemma SettledMeans(n: int, den: int, quotient: int, rest: int, precision: int)
    requires Divided(n, den, quotient, rest)
    ensures n >= den && (Settled(n, den, precision) <==> rest == 0 || |Print(quotient)| >= precision)
  {
    assert quotient * den == den * quotient;
    MulMonotone(den, 1, quotient);
    DivUnique(n, den, quotient, rest);
  }

  lemma DigitRange(rest: int, den: int, q: int, s: int)
    requires 0 <= rest < den && rest * 10 == den * q + s && 0 <= s < den
    ensures 0 <= q < 10 && (q < 5 <==> 2 * rest < den)
  {
    if q >= 10 {
      MulMonotone(den, 10, q);
    } else if q < 0 {
      MulMonotone(den, q, -1);
    } else if q < 5 {
      MulMonotone(den, q, 4);
    } else {
      MulMonotone(den, 5, q);
    }
  }

  lemma BringDownDigit(n: int, den: int, quotient: int, rest: int)
    requires Divided(n, den, quotient, rest)
    ensures 0 <= rest * 10 / den < 10
    ensures Divided(n * 10, den, quotient * 10 + rest * 10 / den, rest * 10 % den)
    ensures rest * 10 / den < 5 <==> 2 * rest < den
  {
    var q, s := rest * 10 / den, rest * 10 % den;
    assert rest * 10 == den * q + s;
    DigitRange(rest, den, q, s);
    Distribute(quotient, q, den);
  }

  lemma Distribute(quotient: int, q: int, den: int)
    ensures (quotient * 10 + q) * den == 10 * (quotient * den) + den * q
  {
  }

  lemma RoundLast(n: int, den: int, quotient: int, rest: int)
    requires Divided(n, den, quotient, rest)
    ensures Nearest(n, den, if 2 * rest < den then quotient else quotient + 1)
  {
    assert (2 * quotient - 1) * den == 2 * (quotient * den) - den;
    assert (2 * quotient + 1) * den == 2 * (quotient * den) + den;
    assert (2 * (quotient + 1) - 1) * den == 2 * (quotient * den) + den;
    assert (2 * (quotient + 1) + 1) * den == 2 * (quotient * den) + 3 * den;
  }

  lemma Finish(num: int, den: int, scale: int, precision: int, n: int, k: int, quotient: int, rest: int, rounded: int)
    requires num != 0 && den != 0
    requires Widened(n, Abs(num), k, Abs(den), precision) && Divided(n, Abs(den), quotient, rest)
    requires rest == 0 || |Print(quotient)| >= precision
    requires rounded == if 2 * rest < Abs(den) then quotient else quotient + 1
    ensures IsRounded(num, den, scale, precision,
                      Dec(if (num < 0) != (den < 0) then -rounded else rounded, scale + k))
  {
    SettledMeans(n, Abs(den), quotient, rest, precision);
    RoundLast(n, Abs(den), quotient, rest);
  }

  method DivideWithPrecision(num0: int, den0: int, scale0: int, precision: int) returns (result: Dec)
    requires num0 != 0 && den0 != 0
    ensures IsRounded(num0, den0, scale0, precision, result)
  {
    hide Pow10, Print, Settled, Nearest, IsRounded, Widened, Divided;
    var numNegative := num0 < 0;
    var denNegative := den0 < 0;
    var negateResult := numNegative != denNegative;
    var num := if numNegative then -num0 else num0;
    var den := if denNegative then -den0 else den0;
    var scale := scale0;
    ghost var n0 := num;
    StartWiden(n0, den, precision);

    // Shift digits until the numerator is at least the denominator.
    while num < den
      invariant num > 0 && scale >= scale0
      invariant Widened(num, n0, scale - scale0, den, precision)
      decreases den - num
    {
      TooSmall(num, den, precision);
      WidenOnce(num, n0, scale - scale0, den, precision);
      num := num * 10;
      scale := scale + 1;
    }

    var quotient := num / den;
    var remainder := num % den;
    StartDivide(num, den);
    if remainder == 0 {
      Finish(num0, den0, scale0, precision, num, scale - scale0, quotient, 0, quotient);
      return Dec(if negateResult then -quotient else quotient, scale);
    }

    var count := |Print(quotient)|;
    ghost var n, rest := num, remainder;
    remainder := remainder * 10;
    while remainder != 0 && count < precision
      invariant scale >= scale0 && Widened(n, n0, scale - scale0, den, precision)
      invariant Divided(n, den, quotient, rest) && quotient >= 1 && 0 <= rest && n > 0
      invariant remainder == rest * 10 && count == |Print(quotient)|
      decreases precision - count
    {
      SettledMeans(n, den, quotient, rest, precision);
      WidenOnce(n, n0, scale - scale0, den, precision);
      BringDownDigit(n, den, quotient, rest);
      var q := remainder / den;
      var r := remainder % den;
      NextDigit(quotient, q);
      quotient := quotient * 10 + q;
      remainder := r * 10;
      n, rest := n * 10, r;
      count := count + 1;
      scale := scale + 1;
    }

    ghost var unrounded := quotient;
    BringDownDigit(n, den, quotient, rest);
    if remainder != 0 {
      quotient := quotient + RoundTerminal(remainder / den);
    }
    Finish(num0, den0, scale0, precision, n, scale - scale0, unrounded, rest, quotient);
    result := Dec(if negateResult then -quotient else quotient, scale);
  }
}
