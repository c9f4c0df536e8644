/**
 `BigDecimal` values: a `bigint` value and a scale, denoting value / 10^scale. Scales may
 be negative.
 */
module Decimal {
  import opened Digits
  import Truncated
  import opened Arithmetic

  datatype Dec = Dec(value: int, scale: int)

  // The rational number denoted.
  ghost function Rational(d: Dec): real {
    if d.scale >= 0 then d.value as real / Pow10(d.scale) as real
    else (d.value * Pow10(-d.scale)) as real
  }

  // The value the number has when written with s decimal places.
  function At(d: Dec, s: int): int
    requires s >= d.scale
  {
    d.value * Pow10(s - d.scale)
  }

  lemma {:induction false} RealProduct(x: int, y: nat)
    ensures (x * y) as real == x as real * y as real
  {
    if y > 0 {
      RealProduct(x, y - 1);
      assert x * y == x * (y - 1) + x;
    }
  }

  lemma RealProducts(x: int, y: int)
    ensures (x * y) as real == x as real * y as real
  {
    if y >= 0 {
      RealProduct(x, y);
    } else {
      RealProduct(x, -y);
      assert x * y == -(x * -y);
    }
  }

  lemma QuotientTimes(v: real, p: real, q: real)
    requires p > 0.0
    ensures v / p * (p * q) == v * q
  {
    var x := v / p;
    assert x * p == v;
    MulAssociativeReal(x, p, q);
  }

  lemma MulAssociativeReal(x: real, p: real, q: real)
    ensures x * (p * q) == x * p * q
  {
  }

  lemma MulAssociative(x: int, p: int, q: int)
    ensures x * (p * q) == x * p * q
  {
  }

  lemma FractionTimes(v: int, p: int, q: int)
    requires p > 0
    ensures v as real / p as real * (p * q) as real == (v * q) as real
  {
    var x, y, z := v as real, p as real, q as real;
    RealProducts(p, q);
    RealProducts(v, q);
    QuotientTimes(x, y, z);
    assert (p * q) as real == y * z;
  }

  // All comparisons go through a common number of decimal places.
  lemma RationalAt(d: Dec, s: nat)
    requires s >= d.scale
    ensures Rational(d) * Pow10(s) as real == At(d, s) as real
  {
    hide Pow10;
    if d.scale >= 0 {
      Pow10Add(d.scale, s - d.scale);
      FractionTimes(d.value, Pow10(d.scale), Pow10(s - d.scale));
    } else {
      var p := Pow10(-d.scale);
      Pow10Add(-d.scale, s);
      RealProducts(d.value * p, Pow10(s));
      MulAssociative(d.value, p, Pow10(s));
    }
  }

  lemma CancelPositive(x: real, y: real, p: real)
    requires p > 0.0
    ensures x * p == y * p <==> x == y
    ensures x * p < y * p <==> x < y
  {
    if x < y {
      assert (y - x) * p > 0.0;
    } else if y < x {
      assert (x - y) * p > 0.0;
    }
  }

  lemma CompareAt(a: Dec, b: Dec, s: nat)
    requires s >= a.scale && s >= b.scale
    ensures Rational(a) == Rational(b) <==> At(a, s) == At(b, s)
    ensures Rational(a) < Rational(b) <==> At(a, s) < At(b, s)
  {
    hide Rational, At, Pow10;
    RationalAt(a, s);
    RationalAt(b, s);
    CancelPositive(Rational(a), Rational(b), Pow10(s) as real);
  }

  // Widening by k places multiplies by 10^k.
  lemma AtShift(d: Dec, s: int, k: nat)
    requires s >= d.scale
    ensures At(d, s + k) == At(d, s) * Pow10(k)
  {
    hide Pow10;
    Pow10Add(s - d.scale, k);
    assert s - d.scale + k == s + k - d.scale;
    MulAssociative(d.value, Pow10(s - d.scale), Pow10(k));
  }

  lemma CancelPow10(x: int, y: int, k: nat)
    ensures x * Pow10(k) == y * Pow10(k) <==> x == y
    ensures x * Pow10(k) < y * Pow10(k) <==> x < y
  {
    var p := Pow10(k);
    if x < y {
      assert (y - x) * p > 0;
    } else if y < x {
      assert (x - y) * p > 0;
    }
  }

  // So any common number of places will do, negative ones included.
  lemma Compare(a: Dec, b: Dec, s: int)
    requires s >= a.scale && s >= b.scale
    ensures Rational(a) == Rational(b) <==> At(a, s) == At(b, s)
    ensures Rational(a) < Rational(b) <==> At(a, s) < At(b, s)
  {
    var k := if s >= 0 then 0 else -s;
    AtShift(a, s, k);
    AtShift(b, s, k);
    CompareAt(a, b, s + k);
    CancelPow10(At(a, s), At(b, s), k);
  }

  // ---------------------------------------------------------------------------
  // Rescaling

  function Scale(d: Dec, scale: int): (r: Dec)
    ensures r.scale == scale
  {
    if scale > d.scale then Dec(d.value * Pow10(scale - d.scale), scale)
    else if scale < d.scale then Dec(Truncated.Div(d.value, Pow10(d.scale - scale)), scale)
    else d
  }

  lemma ScaleUpIsExact(d: Dec, scale: int)
    requires scale >= d.scale
    ensures Rational(Scale(d, scale)) == Rational(d)
  {
    assert At(Scale(d, scale), scale) == At(d, scale);
    Compare(Scale(d, scale), d, scale);
  }

  // Fewer places drop digits toward zero, which is rounding down exactly for numbers that are
  // not negative or that lose nothing.
  lemma ScaleDownTruncates(d: Dec, scale: int)
    requires scale < d.scale
    ensures var r := Scale(d, scale);
      && (d.value >= 0 ==> At(r, d.scale) <= d.value < At(Dec(r.value + 1, scale), d.scale))
      && (d.value <= 0 ==> At(Dec(r.value - 1, scale), d.scale) < d.value <= At(r, d.scale))
    ensures Scale(d, scale).value == d.value / Pow10(d.scale - scale)
      <==> d.value >= 0 || d.value % Pow10(d.scale - scale) == 0
  {
    var p := Pow10(d.scale - scale);
    var r := Scale(d, scale).value;
    TruncatedAgainstFloor(d.value, p, r);
  }

  lemma TruncatedAgainstFloor(v: int, p: int, r: int)
    requires p > 0 && r == Truncated.Div(v, p)
    ensures v >= 0 ==> r * p <= v < (r + 1) * p
    ensures v <= 0 ==> (r - 1) * p < v <= r * p
    ensures r == v / p <==> v >= 0 || v % p == 0
  {
    var m := Truncated.Mod(v, p);
    Truncated.DivMod(v, p);
    Distributed(p, r);
    if v >= 0 {
      DivUnique(v, p, r, m);
    } else if m == 0 {
      DivUnique(v, p, r, 0);
    } else {
      DivUnique(v, p, r - 1, m + p);
    }
  }

  lemma Distributed(p: int, r: int)
    ensures p * r == r * p && (r + 1) * p == r * p + p && (r - 1) * p == r * p - p && p * (r - 1) == r * p - p
  {
  }

  // -1.5 becomes -1, not the -2 below it.
  lemma ScaleRoundsUpNegatives()
    ensures Scale(Dec(-15, 1), 0) == Dec(-1, 0) && -15 / 10 == -2
    ensures Rational(Dec(-1, 0)) > Rational(Dec(-15, 1)) > Rational(Dec(-2, 0))
  {
    assert Pow10(0) == 1 && Pow10(1) == 10;
  }

  // ---------------------------------------------------------------------------
  // Arithmetic

  function Sum(self: Dec, that: Dec): Dec {
    if that.value == 0 then self
    else if self.value == 0 then that
    else if self.scale > that.scale then Dec(Scale(that, self.scale).value + self.value, self.scale)
    else if self.scale < that.scale then Dec(Scale(self, that.scale).value + that.value, that.scale)
    else Dec(self.value + that.value, self.scale)
  }

  function Subtract(self: Dec, that: Dec): Dec {
    if that.value == 0 then self
    else if self.value == 0 then Dec(-that.value, that.scale)
    else if self.scale > that.scale then Dec(self.value - Scale(that, self.scale).value, self.scale)
    else if self.scale < that.scale then Dec(Scale(self, that.scale).value - that.value, that.scale)
    else Dec(self.value - that.value, self.scale)
  }

  const ZERO := Dec(0, 0)

  function Multiply(self: Dec, that: Dec): Dec {
    if that.value == 0 || self.value == 0 then ZERO
    else Dec(self.value * that.value, self.scale + that.scale)
  }

  lemma ZeroValue(d: Dec)
    ensures Rational(d) == 0.0 <==> d.value == 0
    ensures Rational(d) < 0.0 <==> d.value < 0
  {
    assert Rational(ZERO) == 0.0;
    hide Rational, Pow10;
    var s := Max(0, d.scale);
    Compare(d, ZERO, s);
    CancelPow10(d.value, 0, s - d.scale);
  }

  lemma AddAt(a: Dec, b: Dec, r: Dec, s: nat, sign: int)
    requires s >= a.scale && s >= b.scale && s >= r.scale && (sign == 1 || sign == -1)
    requires At(r, s) == At(a, s) + sign * At(b, s)
    ensures Rational(r) == Rational(a) + sign as real * Rational(b)
  {
    hide Rational, At, Pow10;
    RationalAt(a, s);
    RationalAt(b, s);
    RationalAt(r, s);
    CombineScaled(Rational(a), Rational(b), Rational(r), Pow10(s) as real, sign as real);
  }

  lemma CombineScaled(x: real, y: real, z: real, p: real, sign: real)
    requires p > 0.0 && z * p == x * p + sign * (y * p)
    ensures z == x + sign * y
  {
    assert sign * (y * p) == (sign * y) * p;
    assert (x + sign * y) * p == x * p + (sign * y) * p;
    CancelPositive(z, x + sign * y, p);
  }

  lemma SameScaleAt(x: int, y: int, scale: int, sign: int, s: int)
    requires s >= scale
    ensures At(Dec(x + sign * y, scale), s) == At(Dec(x, scale), s) + sign * At(Dec(y, scale), s)
  {
    var p := Pow10(s - scale);
    assert (x + sign * y) * p == x * p + sign * (y * p);
  }

  lemma ScaledAt(d: Dec, scale: int, s: int)
    requires s >= scale >= d.scale
    ensures At(Scale(d, scale), s) == At(d, s)
  {
    AtShift(d, scale, s - scale);
  }

  // Sums and differences are exact whatever the two scales.
  lemma SumIsExact(a: Dec, b: Dec)
    ensures Rational(Sum(a, b)) == Rational(a) + Rational(b)
    ensures Rational(Subtract(a, b)) == Rational(a) - Rational(b)
  {
    hide Rational, At, Pow10;
    ZeroValue(a);
    ZeroValue(b);
    var m := Max(a.scale, b.scale);
    var s := Max(0, m);
    ScaledAt(a, m, s);
    ScaledAt(b, m, s);
    var x, y := Scale(a, m).value, Scale(b, m).value;
    SameScaleAt(x, y, m, 1, s);
    SameScaleAt(x, y, m, -1, s);
    AddAt(a, b, Dec(x + 1 * y, m), s, 1);
    AddAt(a, b, Dec(x + -1 * y, m), s, -1);
    SameScaleAt(0, b.value, b.scale, -1, s);
    AddAt(Dec(0, b.scale), b, Dec(0 + -1 * b.value, b.scale), s, -1);
    ZeroValue(Dec(0, b.scale));
  }

  lemma MultiplyIsExact(a: Dec, b: Dec)
    ensures Rational(Multiply(a, b)) == Rational(a) * Rational(b)
  {
    hide Rational, At, Pow10;
    ZeroValue(a);
    ZeroValue(b);
    ZeroValue(ZERO);
    if a.value != 0 && b.value != 0 {
      var j, k := Max(0, a.scale), Max(0, b.scale);
      var p, q := Pow10(j), Pow10(k);
      var r := Multiply(a, b);
      RationalAt(a, j);
      RationalAt(b, k);
      RationalAt(r, j + k);
      ProductAt(a, b, j, k);
      RealProducts(At(a, j), At(b, k));
      Pow10Add(j, k);
      RealProducts(p, q);
      Regroup(Rational(a), Rational(b), p as real, q as real);
      CancelPositive(Rational(r), Rational(a) * Rational(b), Pow10(j + k) as real);
    }
  }

  // Results keep the larger scale of the operands, or the sum of both for products; a zero operand
  // leaves a sum alone and makes a product plain zero.
  lemma ResultScales(a: Dec, b: Dec)
    ensures a.value != 0 && b.value != 0 ==>
      Sum(a, b).scale == Subtract(a, b).scale == Max(a.scale, b.scale) && Multiply(a, b).scale == a.scale + b.scale
    ensures b.value == 0 ==> Sum(a, b) == a && Subtract(a, b) == a
    ensures a.value == 0 && b.value != 0 ==> Sum(a, b) == b && Subtract(a, b).scale == b.scale
    ensures a.value == 0 || b.value == 0 ==> Multiply(a, b) == Dec(0, 0)
  {
  }

  lemma Regroup(x: real, y: real, p: real, q: real)
    ensures x * y * (p * q) == (x * p) * (y * q)
  {
  }

  lemma ProductAt(a: Dec, b: Dec, j: int, k: int)
    requires j >= a.scale && k >= b.scale
    ensures At(Dec(a.value * b.value, a.scale + b.scale), j + k) == At(a, j) * At(b, k)
  {
    var x, y := Pow10(j - a.scale), Pow10(k - b.scale);
    Pow10Add(j - a.scale, k - b.scale);
    hide Pow10;
    Interchange(a.value, b.value, x, y);
  }

  lemma Interchange(a: int, b: int, x: int, y: int)
    ensures (a * b) * (x * y) == (a * x) * (b * y)
  {
    MulAssociative(a * b, x, y);
    MulAssociative(a, b, x);
    MulAssociative(a, x, b);
    MulAssociative(a * x, b, y);
    assert b * x == x * b;
  }

  // ---------------------------------------------------------------------------
  // Comparison

  function Sign(n: int): int {
    if n == 0 then 0 else if n < 0 then -1 else 1
  }

  function CompareInts(x: int, y: int): int {
    if x == y then 0 else if x < y then -1 else 1
  }

  function Order(self: Dec, that: Dec): int {
    var scmp := CompareInts(Sign(self.value), Sign(that.value));
    if scmp != 0 then scmp
    else if self.scale > that.scale then CompareInts(self.value, Scale(that, self.scale).value)
    else if self.scale < that.scale then CompareInts(Scale(self, that.scale).value, that.value)
    else CompareInts(self.value, that.value)
  }

  predicate Equivalence(self: Dec, that: Dec) {
    if self.scale > that.scale then Scale(that, self.scale).value == self.value
    else if self.scale < that.scale then Scale(self, that.scale).value == that.value
    else self.value == that.value
  }

  lemma EquivalenceIsEquality(a: Dec, b: Dec)
    ensures Equivalence(a, b) <==> Rational(a) == Rational(b)
  {
    Compare(a, b, Max(a.scale, b.scale));
  }

  // The order is that of the rationals, so it is total and transitive, with ties exactly at equivalence.
  lemma OrderIsRationalOrder(a: Dec, b: Dec)
    ensures Order(a, b) == if Rational(a) == Rational(b) then 0 else if Rational(a) < Rational(b) then -1 else 1
    ensures Order(a, b) == 0 <==> Equivalence(a, b)
  {
    Compare(a, b, Max(a.scale, b.scale));
    ZeroValue(a);
    ZeroValue(b);
    EquivalenceIsEquality(a, b);
  }
}
