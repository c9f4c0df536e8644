/**
 Normal forms: `normalize` strips trailing zeros, caches its result in the object, and
 gives one representative to every rational number.
 */
module DecimalNormal {
  import opened Options
  import opened Arithmetic
  import opened Digits
  import opened Decimal
  import Truncated

  function Normal(d: Dec): Dec
    decreases Truncated.Abs(d.value)
  {
    if d.value == 0 then ZERO
    else if d.value % 10 == 0 then Normal(Dec(d.value / 10, d.scale - 1))
    else d
  }

  predicate Normalized(d: Dec) {
    d == ZERO || d.value % 10 != 0
  }

  lemma {:induction false} NormalDenotes(d: Dec)
    ensures Rational(Normal(d)) == Rational(d)
    ensures Normalized(Normal(d)) && (d.value != 0 ==> Normal(d).scale <= d.scale)
    decreases Truncated.Abs(d.value)
  {
    if d.value == 0 {
      ZeroValue(d);
      ZeroValue(ZERO);
    } else if d.value % 10 == 0 {
      var e := Dec(d.value / 10, d.scale - 1);
      NormalDenotes(e);
      assert Pow10(1) == 10;
      assert At(e, d.scale) == d.value == At(d, d.scale);
      Compare(e, d, d.scale);
    }
  }

  lemma NormalizedIsUnique(a: Dec, b: Dec)
    requires Normalized(a) && Normalized(b) && Rational(a) == Rational(b)
    ensures a == b
  {
    ZeroValue(a);
    ZeroValue(b);
    var s := Max(a.scale, b.scale);
    Compare(a, b, s);
    if a.scale < b.scale {
      ShiftedIsMultiple(a.value, b.scale - a.scale);
    } else if b.scale < a.scale {
      ShiftedIsMultiple(b.value, a.scale - b.scale);
    }
  }

  lemma ShiftedIsMultiple(v: int, k: nat)
    requires k > 0
    ensures (v * Pow10(k)) % 10 == 0
  {
    MultipleMod(10, v * Pow10(k - 1));
    assert v * (10 * Pow10(k - 1)) == 10 * (v * Pow10(k - 1));
  }

  // Equal numbers are exactly those with the same normal form, so they hash alike.
  lemma NormalIsCanonical(a: Dec, b: Dec)
    ensures Equivalence(a, b) <==> Normal(a) == Normal(b)
  {
    EquivalenceIsEquality(a, b);
    NormalDenotes(a);
    NormalDenotes(b);
    if Rational(a) == Rational(b) {
      NormalizedIsUnique(Normal(a), Normal(b));
    }
  }

  predicate IsInteger(d: Dec) {
    Normal(d).scale <= 0
  }

  lemma IsIntegerMeans(d: Dec)
    ensures IsInteger(d) <==> Rational(d) == Rational(d).Floor as real
  {
    NormalDenotes(d);
    var e := Normal(d);
    if e.scale <= 0 {
      assert Rational(e) == (e.value * Pow10(-e.scale)) as real;
    }
    var n := Rational(d).Floor;
    if Rational(d) == n as real {
      var f := Dec(n, 0);
      assert Rational(f) == n as real;
      EquivalenceIsEquality(d, f);
      NormalIsCanonical(d, f);
      NormalDenotes(f);
    }
  }

  // ---------------------------------------------------------------------------
  // The digit loop

  lemma {:induction false} NormalStrips(v: int, k: nat, scale: int)
    requires v % 10 != 0
    ensures Normal(Dec(v * Pow10(k), scale)) == Dec(v, scale - k)
  {
    if k > 0 {
      ShiftedIsMultiple(v, k);
      var w := v * Pow10(k - 1);
      assert v * Pow10(k) == 10 * w;
      assert w != 0 by {
        CancelPow10(v, 0, k - 1);
      }
      MultipleMod(10, w);
      NormalStrips(v, k - 1, scale - 1);
    }
  }

  // The digits of a signed numeral end as those of its magnitude do.
  lemma MagnitudeEnds(value: int, trail: nat)
    requires value != 0
    requires var digits := PrintInt(value);
      trail < |digits| && digits[|digits| - trail..] == Zeros(trail) && digits[|digits| - trail - 1] != '0'
    ensures var digits, magnitude := PrintInt(value), Print(Truncated.Abs(value));
      && trail < |magnitude| && magnitude[|magnitude| - trail..] == Zeros(trail)
      && magnitude[|magnitude| - trail - 1] != '0'
      && var head := magnitude[..|magnitude| - trail];
         AllDigits(head) && head != "" && digits[..|digits| - trail] == if value < 0 then "-" + head else head
  {
    FirstDigit(value, trail);
    hide Print, Zeros;
    var digits, magnitude := PrintInt(value), Print(Truncated.Abs(value));
    if value < 0 {
      assert digits == "-" + magnitude;
      assert digits[|digits| - trail..] == magnitude[|magnitude| - trail..];
    }
  }

  // A numeral ending in k zeros after a non-zero digit stands for a multiple of 10^k only.
  lemma TrailingZeros(value: int, trail: nat) returns (stripped: int)
    requires var digits := PrintInt(value);
      trail < |digits| && digits[|digits| - trail..] == Zeros(trail) && digits[|digits| - trail - 1] != '0'
    requires value != 0
    ensures var prefix := PrintInt(value)[..|PrintInt(value)| - trail];
      IsNumeral(prefix) && stripped == ParseInt(prefix)
    ensures stripped % 10 != 0 && value == stripped * Pow10(trail)
  {
    hide *;
    var magnitude := Print(Truncated.Abs(value));
    MagnitudeEnds(value, trail);
    var head := magnitude[..|magnitude| - trail];
    StripMagnitude(Truncated.Abs(value), trail);
    SignedNumeral(head);
    NegatedProduct(Parse(head), Pow10(trail));
    Truncated.AbsMeans(value);
    stripped := if value < 0 then -Parse(head) else Parse(head);
  }

  lemma NegatedProduct(x: int, y: int)
    ensures (-x) * y == -(x * y)
  {
  }

  lemma StripMagnitude(m: nat, trail: nat)
    requires trail < |Print(m)| && Print(m)[|Print(m)| - trail..] == Zeros(trail)
    requires Print(m)[|Print(m)| - trail - 1] != '0'
    ensures var head := Print(m)[..|Print(m)| - trail];
      && Parse(head) * Pow10(trail) == m && Parse(head) % 10 != 0 && (-Parse(head)) % 10 != 0
  {
    hide Pow10, Print, Parse;
    var head := Print(m)[..|Print(m)| - trail];
    assert Print(m) == head + Zeros(trail);
    ParseConcat(head, Zeros(trail));
    ParseZeros(trail);
    ParsePrint(m);
    LastDigit(head);
  }

  // The zeros counted never reach the first digit.
  lemma FirstDigit(value: int, trail: nat)
    requires value != 0
    requires var digits := PrintInt(value); trail <= |digits| && digits[|digits| - trail..] == Zeros(trail)
    ensures trail < |Print(Truncated.Abs(value))|
  {
    var digits, magnitude := PrintInt(value), Print(Truncated.Abs(value));
    NoLeadingZero(Truncated.Abs(value));
    assert digits[|digits| - |magnitude|] == magnitude[0];
    var zeros := |digits| - trail;
    assert forall j :: zeros <= j < |digits| ==> digits[j] == digits[zeros..][j - zeros];
  }

  lemma LastDigit(s: string)
    requires AllDigits(s) && s != "" && s[|s| - 1] != '0'
    ensures Parse(s) % 10 != 0 && (-Parse(s)) % 10 != 0
  {
    var q, r := Parse(s[..|s| - 1]), DigitValue(s[|s| - 1]);
    DivUnique(Parse(s), 10, q, r);
    DivUnique(-Parse(s), 10, -q - 1, 10 - r);
  }

  class BigDecimal {
    const value: int
    const scale: int
    var normalized: BigDecimal?

    function Number(): Dec {
      Dec(value, scale)
    }

    // The cache holds nothing but the normal form.
    ghost predicate Valid()
      reads this
    {
      normalized != null ==> normalized.Number() == Normal(Number())
    }

    constructor (value: int, scale: int)
      ensures Number() == Dec(value, scale) && normalized == null
    {
      this.value, this.scale, normalized := value, scale, null;
    }

    // None is the RangeError "Value must be normalized".
    static method UnsafeMakeNormalized(value: int, scale: int) returns (r: Option<BigDecimal>)
      ensures r.None? <==> value != 0 && value % 10 == 0
      ensures r.Some? ==> fresh(r.value) && r.value.Number() == Dec(value, scale) && r.value.normalized == r.value
      ensures r.Some? ==> (r.value.Valid() <==> value != 0 || scale == 0)
    {
      Truncated.DivMod(value, 10);
      TruncatedMultiple(value);
      if value != 0 && Truncated.Mod(value, 10) == 0 {
        return None;
      }
      var o := new BigDecimal(value, scale);
      o.normalized := o;
      return Some(o);
    }

    // Never throws, and the cached result stays the same object from then on.
    method Normalize(zero: BigDecimal) returns (r: Option<BigDecimal>)
      requires Valid() && zero.Number() == ZERO
      modifies this
      ensures Valid() && r.Some? && normalized == r.value && r.value.Number() == Normal(Number())
      ensures old(normalized) != null ==> normalized == old(normalized)
    {
      if normalized == null {
        if value == 0 {
          normalized := zero;
        } else {
          var digits := PrintInt(value);
          var trail := CountTrailingZeros(digits);
          ghost var stripped := StripsTo(value, scale, trail);
          if trail == 0 {
            normalized := this;
          }
          var made := UnsafeMakeNormalized(ParseInt(digits[..|digits| - trail]), scale - trail);
          if made.None? {
            return None;
          }
          normalized := made.value;
        }
      }
      return Some(normalized);
    }
  }

  method CountTrailingZeros(digits: string) returns (trail: nat)
    ensures trail <= |digits| && digits[|digits| - trail..] == Zeros(trail)
    ensures trail < |digits| ==> digits[|digits| - trail - 1] != '0'
  {
    trail := 0;
    var i := |digits| - 1;
    while i >= 0
      invariant i == |digits| - 1 - trail && trail <= |digits|
      invariant digits[|digits| - trail..] == Zeros(trail)
    {
      if digits[i] == '0' {
        trail := trail + 1;
      } else {
        break;
      }
      i := i - 1;
    }
  }

  lemma TruncatedMultiple(value: int)
    ensures Truncated.Mod(value, 10) == 0 <==> value % 10 == 0
  {
    Truncated.DivMod(value, 10);
    if Truncated.Mod(value, 10) == 0 {
      MultipleMod(10, Truncated.Div(value, 10));
    }
  }

  lemma StripsTo(value: int, scale: int, trail: nat) returns (stripped: int)
    requires value != 0
    requires var digits := PrintInt(value);
      trail <= |digits| && digits[|digits| - trail..] == Zeros(trail)
      && (trail < |digits| ==> digits[|digits| - trail - 1] != '0')
    ensures trail < |PrintInt(value)|
    ensures var prefix := PrintInt(value)[..|PrintInt(value)| - trail];
      && IsNumeral(prefix) && stripped == ParseInt(prefix) && stripped % 10 != 0
      && Normal(Dec(value, scale)) == Dec(stripped, scale - trail)
  {
    FirstDigit(value, trail);
    stripped := TrailingZeros(value, trail);
    NormalStrips(stripped, trail, scale);
  }
}
