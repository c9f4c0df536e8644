/** Printing a `BigDecimal` and parsing it back. */
module DecimalText {
  import opened Arithmetic
  import opened Options
  import opened Sequences
  import opened Digits
  import opened Decimal
  import DecimalNormal
  import Truncated

  function Format(n: Dec): string {
    var negative := n.value < 0;
    var absolute := Print(Truncated.Abs(n.value));
    var parts :=
      if n.scale >= |absolute| then ("0", Zeros(n.scale - |absolute|) + absolute)
      else
        var location := |absolute| - n.scale;
        if location > |absolute| then (absolute + Zeros(location - |absolute|), "")
        else (absolute[..location], absolute[location..]);
    Joined(negative, parts.0, parts.1)
  }

  function Joined(negative: bool, before: string, after: string): string {
    var complete := if after == "" then before else before + "." + after;
    if negative then "-" + complete else complete
  }

  // The position of the first dot, or -1.
  function Search(s: string): (dot: int)
    ensures -1 <= dot < |s|
    ensures dot == -1 ==> '.' !in s
    ensures dot >= 0 ==> s[dot] == '.' && '.' !in s[..dot]
  {
    if s == "" then -1
    else if s[0] == '.' then 0
    else
      var rest := Search(s[1..]);
      assert rest >= 0 ==> s[..rest + 1] == [s[0]] + s[1..][..rest];
      if rest == -1 then -1 else rest + 1
  }

  function FromString(s: string): Option<Dec> {
    var dot := Search(s);
    var digits := if dot != -1 then s[..dot] + s[dot + 1..] else s;
    var scale := if dot != -1 then |s| - dot - 1 else 0;
    if digits == "" then Some(ZERO)
    else if !IsNumeral(digits) then None
    else Some(Dec(ParseInt(digits), scale))
  }

  lemma {:induction false} SearchFinds(lead: string, trail: string)
    requires '.' !in lead
    ensures Search(lead + "." + trail) == |lead|
  {
    if lead != "" {
      SearchFinds(lead[1..], trail);
      assert (lead + "." + trail)[1..] == lead[1..] + "." + trail;
    }
  }

  function Signed(negative: bool, digits: string): string {
    if negative then "-" + digits else digits
  }

  lemma SignedDigits(negative: bool, digits: string)
    requires AllDigits(digits) && digits != ""
    ensures '.' !in Signed(negative, digits) && Signed(negative, digits) != "" && IsNumeral(Signed(negative, digits))
    ensures ParseInt(Signed(negative, digits)) == if negative then -Parse(digits) else Parse(digits)
  {
    SignedNumeral(digits);
  }

  lemma ParsesWithDot(lead: string, after: string)
    requires '.' !in lead && lead + after != "" && IsNumeral(lead + after)
    ensures FromString(lead + "." + after) == Some(Dec(ParseInt(lead + after), |after|))
  {
    var s := lead + "." + after;
    SearchFinds(lead, after);
    assert s[..|lead|] == lead && s[|lead| + 1..] == after;
  }

  lemma ParsesWithoutDot(s: string)
    requires '.' !in s && s != "" && IsNumeral(s)
    ensures FromString(s) == Some(Dec(ParseInt(s), 0))
  {
    hide IsNumeral, ParseInt;
  }

  lemma ParsesJoined(negative: bool, before: string, after: string)
    requires AllDigits(before) && AllDigits(after) && before != ""
    ensures AllDigits(before + after)
    ensures FromString(Joined(negative, before, after)) ==
      Some(Dec(if negative then -Parse(before + after) else Parse(before + after), |after|))
  {
    hide *;
    JoinedParts(negative, before, after);
    DigitsConcat(before, after);
    SignedDigits(negative, before);
    SignedDigits(negative, before + after);
    if after == "" {
      ParsesWithoutDot(Signed(negative, before));
    } else {
      ParsesWithDot(Signed(negative, before), after);
    }
  }

  lemma JoinedParts(negative: bool, before: string, after: string)
    ensures Signed(negative, before) + after == Signed(negative, before + after)
    ensures if after == "" then before + after == before && Joined(negative, before, after) == Signed(negative, before)
      else Joined(negative, before, after) == Signed(negative, before) + "." + after
  {
    Associative("-", before, after);
    Associative("-", before, "." + after);
    Associative(before, ".", after);
    Associative("-" + before, ".", after);
    if after == "" {
      assert before + after == before;
    }
  }

  lemma DigitsConcat(before: string, after: string)
    requires AllDigits(before) && AllDigits(after) && before != ""
    ensures AllDigits(before + after) && before + after != ""
  {
  }

  // What the digits around the dot amount to, in each of the three layouts.
  lemma Layout(n: Dec, before: string, after: string)
    requires AllDigits(before) && AllDigits(after) && before != ""
    requires Format(n) == Joined(n.value < 0, before, after)
    requires Parse(before + after) == Truncated.Abs(n.value) * Pow10(if n.scale < 0 then -n.scale else 0)
    requires |after| == Max(n.scale, 0)
    ensures FromString(Format(n)) == Some(if n.scale >= 0 then n else Dec(n.value * Pow10(-n.scale), 0))
  {
    hide *;
    ParsesJoined(n.value < 0, before, after);
    SignedProduct(n.value, Pow10(if n.scale < 0 then -n.scale else 0), Parse(before + after));
    PowZero();
    LayoutScale(n, |after|);
  }

  lemma PowZero()
    ensures Pow10(0) == 1
  {
  }

  lemma LayoutScale(n: Dec, places: int)
    requires places == Max(n.scale, 0)
    ensures places == if n.scale >= 0 then n.scale else 0
  {
  }

  lemma SignedProduct(v: int, p: int, m: int)
    requires m == Truncated.Abs(v) * p
    ensures (if v < 0 then -m else m) == v * p && v * 1 == v
  {
    DecimalNormal.NegatedProduct(v, p);
  }

  lemma SmallFraction(n: Dec, absolute: string)
    requires absolute == Print(Truncated.Abs(n.value)) && n.scale >= |absolute|
    ensures FromString(Format(n)) == Some(n)
  {
    var zeros := n.scale - |absolute|;
    assert Pow10(0) == 1;
    assert Format(n) == Joined(n.value < 0, "0", Zeros(zeros) + absolute);
    hide Format, FromString, Joined, Pow10, Parse, Print;
    assert "0" + (Zeros(zeros) + absolute) == Zeros(zeros + 1) + absolute + Zeros(0);
    ParsePadded(zeros + 1, absolute, 0);
    ParsePrint(Truncated.Abs(n.value));
    Layout(n, "0", Zeros(zeros) + absolute);
  }

  lemma Multiple(n: Dec, absolute: string)
    requires absolute == Print(Truncated.Abs(n.value)) && n.scale < 0
    ensures FromString(Format(n)) == Some(Dec(n.value * Pow10(-n.scale), 0))
  {
    hide FromString, Joined, Pow10, Parse, Print;
    assert absolute + Zeros(-n.scale) + "" == Zeros(0) + absolute + Zeros(-n.scale);
    ParsePadded(0, absolute, -n.scale);
    ParsePrint(Truncated.Abs(n.value));
    Layout(n, absolute + Zeros(-n.scale), "");
  }

  lemma Mixed(n: Dec, absolute: string)
    requires absolute == Print(Truncated.Abs(n.value)) && 0 <= n.scale < |absolute|
    ensures FromString(Format(n)) == Some(n)
  {
    var location := |absolute| - n.scale;
    assert Pow10(0) == 1;
    hide FromString, Joined, Pow10, Parse, Print;
    assert absolute[..location] + absolute[location..] == absolute;
    ParsePrint(Truncated.Abs(n.value));
    Layout(n, absolute[..location], absolute[location..]);
  }

  // Parsing what was printed gives back the very same value and scale when the scale is not
  // negative, and an equivalent integer with scale 0 otherwise.
  lemma RoundTrip(n: Dec)
    ensures FromString(Format(n)) == Some(if n.scale >= 0 then n else Dec(n.value * Pow10(-n.scale), 0))
    ensures Equivalence(n, FromString(Format(n)).value)
  {
    var absolute := Print(Truncated.Abs(n.value));
    hide FromString, Format;
    if n.scale >= |absolute| {
      SmallFraction(n, absolute);
    } else if n.scale < 0 {
      Multiple(n, absolute);
    } else {
      Mixed(n, absolute);
    }
  }

  // ---------------------------------------------------------------------------
  // Of the texts that read back, the canonical one

  // A sign for negative values only, no superfluous leading zero, and a dot with exactly scale
  // digits after it when there are any.
  predicate IsLayout(text: string, n: Dec, before: string, after: string) {
    && AllDigits(before) && AllDigits(after)
    && (before == "0" || (before != "" && before[0] != '0'))
    && |after| == Max(n.scale, 0)
    && text == (if n.value < 0 then "-" else "") + before + (if n.scale > 0 then "." + after else "")
  }

  ghost predicate IsCanonical(text: string, n: Dec) {
    exists before, after :: IsLayout(text, n, before, after)
  }

  lemma JoinedText(n: Dec, before: string, after: string)
    requires |after| == Max(n.scale, 0)
    ensures Joined(n.value < 0, before, after) ==
      (if n.value < 0 then "-" else "") + before + (if n.scale > 0 then "." + after else "")
  {
    Associative("-", before, "." + after);
    Associative(before, ".", after);
    assert "" + before == before && before + "" == before;
  }

  lemma PaddedDigits(digits: string, k: nat)
    requires AllDigits(digits)
    ensures AllDigits(Zeros(k) + digits) && AllDigits(digits + Zeros(k))
  {
  }

  // `format` prints that text but for zero with a negative scale, which it prints as a row of zeros.
  lemma FormatIsCanonical(n: Dec)
    ensures IsCanonical(Format(n), n) <==> n.value != 0 || n.scale >= 0
  {
    var absolute := Print(Truncated.Abs(n.value));
    hide Print, Joined, IsCanonical;
    if n.scale >= |absolute| {
      var after := Zeros(n.scale - |absolute|) + absolute;
      PaddedDigits(absolute, n.scale - |absolute|);
      FormatsAs(n, "0", after);
    } else if n.scale < 0 {
      var before := absolute + Zeros(-n.scale);
      PaddedDigits(absolute, -n.scale);
      if n.value != 0 {
        NoLeadingZero(Truncated.Abs(n.value));
        FormatsAs(n, before, "");
      } else {
        ZerosAreNotCanonical(n);
      }
    } else {
      MixedIsCanonical(n, absolute);
    }
  }

  lemma MixedIsCanonical(n: Dec, absolute: string)
    requires absolute == Print(Truncated.Abs(n.value)) && 0 <= n.scale < |absolute|
    ensures IsCanonical(Format(n), n)
  {
    var location := |absolute| - n.scale;
    NoSuperfluousZero(Truncated.Abs(n.value), location);
    hide Print, Joined, IsCanonical;
    FormatsAs(n, absolute[..location], absolute[location..]);
  }

  lemma NoSuperfluousZero(m: nat, location: nat)
    requires 1 <= location <= |Print(m)|
    ensures var before, after := Print(m)[..location], Print(m)[location..];
      AllDigits(before) && AllDigits(after) && (before == "0" || (before != "" && before[0] != '0'))
  {
    if m > 0 {
      NoLeadingZero(m);
      hide Print;
      assert Print(m)[..location][0] == Print(m)[0];
    } else {
      assert Print(0) == "0";
    }
  }

  lemma FormatsAs(n: Dec, before: string, after: string)
    requires AllDigits(before) && AllDigits(after) && (before == "0" || (before != "" && before[0] != '0'))
    requires |after| == Max(n.scale, 0) && Format(n) == Joined(n.value < 0, before, after)
    ensures IsCanonical(Format(n), n)
  {
    hide Format, Joined;
    JoinedText(n, before, after);
    assert IsLayout(Format(n), n, before, after);
  }

  lemma ZerosAreNotCanonical(n: Dec)
    requires n.value == 0 && n.scale < 0
    ensures Format(n) == Zeros(1 - n.scale) && !IsCanonical(Format(n), n)
  {
    assert "0" + Zeros(-n.scale) == Zeros(1 - n.scale);
    assert Print(0) == "0";
    assert Format(n) == Zeros(1 - n.scale);
    var text := Format(n);
    hide Format, Print;
    forall before, after
      ensures !IsLayout(text, n, before, after)
    {
      assert "" + before + "" == before;
      assert |text| > 1 && text[0] == '0';
    }
  }

  lemma SameNumeral(x: string, y: string, before: string, after: string)
    requires AllDigits(x) && AllDigits(y) && AllDigits(before) && AllDigits(after) && |y| == |after|
    requires x == "0" || (x != "" && x[0] != '0')
    requires before == "0" || (before != "" && before[0] != '0')
    requires Parse(x + y) == Parse(before + after)
    ensures x == before && y == after
  {
    hide Parse, Pow10;
    SplitDigits(x, y);
    SplitDigits(before, after);
    ParseInjective(y, after);
    SameWholePart(x, before);
  }

  lemma SplitDigits(x: string, y: string)
    requires AllDigits(x) && AllDigits(y)
    ensures Parse(x + y) / Pow10(|y|) == Parse(x) && Parse(x + y) % Pow10(|y|) == Parse(y)
  {
    hide Parse, Pow10;
    ParseConcat(x, y);
    ParseBounds(y);
    DivUnique(Parse(x + y), Pow10(|y|), Parse(x), Parse(y));
  }

  lemma SameWholePart(x: string, y: string)
    requires AllDigits(x) && AllDigits(y) && Parse(x) == Parse(y)
    requires (x == "0" || (x != "" && x[0] != '0')) && (y == "0" || (y != "" && y[0] != '0'))
    ensures x == y
  {
    assert Parse("0") == 0;
    hide Parse;
    ParseBounds(x);
    ParseBounds(y);
    if |x| < |y| {
      PowersBetween(|x|, |y| - 1);
    } else if |y| < |x| {
      PowersBetween(|y|, |x| - 1);
    } else {
      ParseInjective(x, y);
    }
  }

  lemma PowersBetween(j: nat, k: nat)
    requires j <= k
    ensures Pow10(j) <= Pow10(k)
  {
    if j < k {
      Pow10Monotone(j, k);
    }
  }

  lemma CanonicalReads(n: Dec, text: string, before: string, after: string)
    requires IsLayout(text, n, before, after)
    ensures AllDigits(before + after)
    ensures FromString(text) ==
      Some(Dec(if n.value < 0 then -Parse(before + after) else Parse(before + after), |after|))
  {
    hide Joined, FromString, Parse;
    JoinedText(n, before, after);
    ParsesJoined(n.value < 0, before, after);
  }

  // No two canonical texts are read alike.
  lemma CanonicalIsUnique(n: Dec, s: string, t: string)
    requires IsCanonical(s, n) && IsCanonical(t, n) && FromString(s) == FromString(t)
    ensures s == t
  {
    hide FromString, Parse;
    var x, y :| IsLayout(s, n, x, y);
    var before, after :| IsLayout(t, n, before, after);
    CanonicalReads(n, s, x, y);
    CanonicalReads(n, t, before, after);
    SameNumeral(x, y, before, after);
  }

  // So `format` prints the one canonical text that reads back.
  lemma FormatIsTheCanonicalText(n: Dec, text: string)
    requires n.value != 0 || n.scale >= 0
    ensures text == Format(n) <==>
      && IsCanonical(text, n)
      && FromString(text) == Some(if n.scale >= 0 then n else Dec(n.value * Pow10(-n.scale), 0))
  {
    hide *;
    FormatIsCanonical(n);
    RoundTrip(n);
    if IsCanonical(text, n) && FromString(text) == FromString(Format(n)) {
      CanonicalIsUnique(n, text, Format(n));
    }
  }

  // ---------------------------------------------------------------------------
  // Everything `fromString` accepts

  // The digits before and after the first dot are read as one signed numeral, so that a sign may
  // also follow the dot; nothing at all reads as zero.
  lemma FromStringReads(lead: string, after: string)
    requires '.' !in lead
    ensures var digits := lead + after;
      FromString(lead + "." + after) ==
        if digits == "" then Some(ZERO)
        else if IsNumeral(digits) then Some(Dec(ParseInt(digits), |after|))
        else None
    ensures FromString(lead) ==
      if lead == "" then Some(ZERO) else if IsNumeral(lead) then Some(Dec(ParseInt(lead), 0)) else None
  {
    hide IsNumeral, ParseInt;
    var s := lead + "." + after;
    SearchFinds(lead, after);
    assert s[..|lead|] == lead && s[|lead| + 1..] == after;
  }

  lemma ReadsNothing()
    ensures FromString(".") == Some(ZERO) && FromString("") == Some(ZERO)
  {
    hide FromString;
    FromStringReads("", "");
    assert "" + "." + "" == "." && "" + "" == "";
  }

  lemma ReadsSignAfterDot()
    ensures FromString(".-5") == Some(Dec(-5, 2))
  {
    hide FromString, IsNumeral, ParseInt;
    FromStringReads("", "-5");
    assert "" + "." + "-5" == ".-5" && "" + "-5" == "-5";
    SignedNumeral("5");
    assert "-5" == "-" + "5";
    assert "5"[..0] == "" && Parse("5") == 5;
  }

  lemma ReadsDecimal()
    ensures FromString("1.2") == Some(Dec(12, 1)) && FromString("1.a") == None
  {
    hide FromString, ParseInt;
    FromStringReads("1", "2");
    assert "1" + "." + "2" == "1.2" && "1" + "2" == "12";
    SignedNumeral("12");
    assert "1"[..0] == "" && "12"[..1] == "1" && Parse("1") == 1 && Parse("12") == 12;
    FromStringReads("1", "a");
    assert "1" + "." + "a" == "1.a" && "1" + "a" == "1a";
    assert !IsDigit("1a"[1]);
  }
}
