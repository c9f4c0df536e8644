/** `divide` on the rational numbers denoted, and how it undoes `multiply`. */
module DecimalQuotient {
  import opened Options
  import opened Arithmetic
  import opened Digits
  import opened Decimal
  import opened DecimalDivide
  import opened Truncated
  import DecimalNormal

  const DEFAULT_PRECISION := 100

  // None exactly for a zero divisor; otherwise zero, or the quotient rounded to 100 digits.
  ghost predicate IsQuotient(self: Dec, that: Dec, r: Option<Dec>) {
    if that.value == 0 then r == None
    else
      r.Some? &&
      if self.value == 0 then r.value == ZERO
      else IsRounded(self.value, that.value, self.scale - that.scale, DEFAULT_PRECISION, r.value)
  }

  method Divide(self: Dec, that: Dec) returns (r: Option<Dec>)
    ensures IsQuotient(self, that, r)
  {
    if that.value == 0 {
      return None;
    }
    if self.value == 0 {
      return Some(ZERO);
    }
    var scale := self.scale - that.scale;
    if self.value == that.value {
      RoundedOne(self.value, scale);
      return Some(Dec(1, scale));
    }
    var quotient := DivideWithPrecision(self.value, that.value, scale, DEFAULT_PRECISION);
    return Some(quotient);
  }

  lemma RoundedOne(value: int, scale: int)
    requires value != 0
    ensures IsRounded(value, value, scale, DEFAULT_PRECISION, Dec(1, scale))
  {
    var n := Abs(value);
    DivUnique(n, n, 1, 0);
    assert n * Pow10(0) == n;
  }

  // ---------------------------------------------------------------------------
  // The contract leaves one result only

  lemma {:induction false} PrintMonotone(m: nat, n: nat)
    requires m <= n
    ensures |Print(m)| <= |Print(n)|
  {
    if m >= 10 {
      DivMonotone(m, n);
      PrintMonotone(m / 10, n / 10);
    }
  }

  lemma DivMonotone(m: nat, n: nat)
    requires m <= n
    ensures m / 10 <= n / 10
  {
  }

  lemma {:induction false} StaysSettled(n: nat, d: nat, precision: int, k: nat)
    requires d > 0 && Settled(n, d, precision)
    ensures Settled(n * Pow10(k), d, precision)
  {
    if k == 0 {
      assert n * Pow10(0) == n;
    } else {
      StaysSettled(n, d, precision, k - 1);
      Widen(n, k - 1);
      SettledTenfold(n * Pow10(k - 1), d, precision);
    }
  }

  lemma SettledTenfold(n: nat, d: nat, precision: int)
    requires d > 0 && Settled(n, d, precision)
    ensures Settled(n * 10, d, precision)
  {
    TenfoldQuotient(n, d);
    PrintMonotone(n / d, n * 10 / d);
  }

  lemma TenfoldQuotient(n: nat, d: nat)
    requires d > 0
    ensures n / d <= n * 10 / d && (n % d == 0 ==> (n * 10) % d == 0)
  {
    var q, r, q' := n / d, n % d, n * 10 / d;
    assert n == d * q + r;
    if r == 0 {
      assert n * 10 == d * (q * 10);
      MultipleMod(d, q * 10);
    }
    if q' < q {
      MulMonotone(d, q' + 1, q);
    }
  }

  lemma NearestIsUnique(n: int, d: int, q: int, q': int)
    requires d > 0 && Nearest(n, d, q) && Nearest(n, d, q')
    ensures q == q'
  {
    if q < q' {
      MulMonotone(d, 2 * q + 1, 2 * q' - 1);
    } else if q' < q {
      MulMonotone(d, 2 * q' + 1, 2 * q - 1);
    }
  }

  lemma RoundedIsUnique(num: int, den: int, scale: int, precision: int, r: Dec, r': Dec)
    requires num != 0 && den != 0
    requires IsRounded(num, den, scale, precision, r) && IsRounded(num, den, scale, precision, r')
    ensures r == r'
  {
    PlacesAreUnique(num, den, r.scale - scale, r'.scale - scale, precision);
    NearestIsUnique(Abs(num) * Pow10(r.scale - scale), Abs(den), Abs(r.value), Abs(r'.value));
  }

  // Inputs alone decide how many places are taken.
  lemma PlacesAreUnique(num: int, den: int, k: int, k': int, precision: int)
    requires den != 0 && FewestPlaces(num, den, k, precision) && FewestPlaces(num, den, k', precision)
    ensures k == k'
  {
    if k < k' {
      SettledFrom(Abs(num), Abs(den), k, k' - 1, precision);
    } else if k' < k {
      SettledFrom(Abs(num), Abs(den), k', k - 1, precision);
    }
  }

  lemma SettledFrom(n: nat, d: nat, k: nat, k': nat, precision: int)
    requires d > 0 && k <= k' && Settled(n * Pow10(k), d, precision)
    ensures Settled(n * Pow10(k'), d, precision)
  {
    StaysSettled(n * Pow10(k), d, precision, k' - k);
    Pow10Add(k, k' - k);
    MulAssociative(n, Pow10(k), Pow10(k' - k));
  }

  // ---------------------------------------------------------------------------
  // Error bound

  function AbsReal(x: real): real {
    if x < 0.0 then -x else x
  }

  // One unit in the last place.
  ghost function Ulp(r: Dec): real {
    Rational(Dec(1, r.scale))
  }

  lemma NearestBand(n: int, d: int, q: int)
    requires Nearest(n, d, q)
    ensures -d <= 2 * (q * d - n) <= d
  {
    assert (2 * q - 1) * d == 2 * (q * d) - d && (2 * q + 1) * d == 2 * (q * d) + d;
  }

  lemma SignedNearest(a: int, b: int, p: int, r: int)
    requires p > 0 && a != 0 && b != 0 && r != 0 && (r < 0 <==> (a < 0) != (b < 0))
    requires Nearest(Abs(a) * p, Abs(b), Abs(r))
    ensures Abs(2 * (r * b - a * p)) <= Abs(b)
  {
    NearestBand(Abs(a) * p, Abs(b), Abs(r));
    hide Nearest;
    NegatedProducts(Abs(r), Abs(b));
    NegatedProducts(p, Abs(a));
    SignedProducts(a, b, p, r, Abs(r) * Abs(b), Abs(a) * p);
  }

  lemma SignedProducts(a: int, b: int, p: int, r: int, x: int, y: int)
    requires r != 0 && b != 0 && (r < 0 <==> (a < 0) != (b < 0))
    requires x == Abs(r) * Abs(b) && y == Abs(a) * p
    ensures r * b == (if a < 0 then -x else x) && a * p == (if a < 0 then -y else y)
  {
    NegatedProducts(Abs(r), Abs(b));
    NegatedProducts(Abs(a), p);
    assert p * Abs(a) == Abs(a) * p;
  }

  // The rational number of a difference taken at a common scale.
  lemma DifferenceAt(x: Dec, y: Dec, d: Dec)
    requires x.scale == d.scale && y.scale <= d.scale
    requires d.value == x.value - At(y, d.scale)
    ensures Rational(d) == Rational(x) - Rational(y)
  {
    var s := Max(0, d.scale);
    var z := Dec(At(y, d.scale), d.scale);
    AtShift(y, d.scale, s - d.scale);
    SameScaleAt(x.value, z.value, d.scale, -1, s);
    assert d == Dec(x.value + -1 * z.value, d.scale);
    AddAt(x, y, d, s, -1);
  }

  lemma Double(d: Dec)
    ensures Rational(Dec(2 * d.value, d.scale)) == 2.0 * Rational(d)
  {
    var s := Max(0, d.scale);
    SameScaleAt(d.value, d.value, d.scale, 1, s);
    AddAt(d, d, Dec(d.value + 1 * d.value, d.scale), s, 1);
  }

  lemma AbsRational(d: Dec)
    ensures Rational(Dec(Abs(d.value), d.scale)) == AbsReal(Rational(d))
  {
    hide Rational, Pow10;
    ZeroValue(d);
    if d.value < 0 {
      var s := Max(0, d.scale);
      SameScaleAt(0, d.value, d.scale, -1, s);
      AddAt(ZERO, d, Dec(0 + -1 * d.value, d.scale), s, -1);
      ZeroValue(ZERO);
    }
  }

  lemma SameScaleCompare(a: Dec, b: Dec)
    requires a.scale == b.scale && a.value <= b.value
    ensures Rational(a) <= Rational(b)
  {
    Compare(a, b, a.scale);
    assert Pow10(0) == 1;
  }

  lemma ErrorTimesDivisor(a: Dec, b: Dec, precision: int, r: Dec)
    requires a.value != 0 && b.value != 0
    requires IsRounded(a.value, b.value, a.scale - b.scale, precision, r)
    ensures 2.0 * AbsReal(Rational(r) * Rational(b) - Rational(a)) <= Ulp(r) * AbsReal(Rational(b))
  {
    hide Rational, Pow10, Nearest, Settled;
    var k := r.scale - (a.scale - b.scale);
    var product := Multiply(r, b);
    var error := Dec(r.value * b.value - a.value * Pow10(k), a.scale + k);
    SignedNearest(a.value, b.value, Pow10(k), r.value);
    MultiplyIsExact(r, b);
    ProductNotZero(r.value, b.value);
    DifferenceAt(product, a, error);
    var twice := Dec(2 * error.value, error.scale);
    Double(error);
    AbsRational(twice);
    var unit := Dec(1, r.scale);
    var absolute := Dec(Abs(b.value), b.scale);
    AbsRational(b);
    MultiplyIsExact(unit, absolute);
    SameScaleCompare(Dec(Abs(twice.value), twice.scale), Multiply(unit, absolute));
  }

  lemma ProductNotZero(x: int, y: int)
    requires x != 0 && y != 0
    ensures x * y != 0
  {
  }

  lemma QuotientBound(x: real, y: real, r: real, u: real)
    requires y != 0.0 && 2.0 * AbsReal(r * y - x) <= u * AbsReal(y)
    ensures 2.0 * AbsReal(r - x / y) <= u
  {
    var e := r - x / y;
    assert x / y * y == x;
    assert e * y == r * y - x;
    assert AbsReal(e) * AbsReal(y) == AbsReal(e * y);
    if 2.0 * AbsReal(e) > u {
      assert (2.0 * AbsReal(e) - u) * AbsReal(y) > 0.0;
    }
  }

  // The result differs from the true quotient by at most half a unit in its last place.
  lemma DivideIsAccurate(a: Dec, b: Dec, r: Option<Dec>)
    requires b.value != 0 && IsQuotient(a, b, r)
    ensures 2.0 * AbsReal(Rational(r.value) - Rational(a) / Rational(b)) <= Ulp(r.value)
  {
    hide Rational, IsRounded;
    ZeroValue(a);
    ZeroValue(b);
    if a.value == 0 {
      ZeroValue(ZERO);
      ZeroValue(Dec(1, 0));
      assert Rational(a) / Rational(b) == 0.0;
    } else {
      ErrorTimesDivisor(a, b, DEFAULT_PRECISION, r.value);
      QuotientBound(Rational(a), Rational(b), Rational(r.value), Ulp(r.value));
    }
  }

  // ---------------------------------------------------------------------------
  // Exactness

  lemma NearestOfMultiple(m: int, d: int, q: int)
    requires d > 0 && Nearest(m * d, d, q)
    ensures q == m
  {
    assert (2 * m - 1) * d == 2 * (m * d) - d && (2 * m + 1) * d == 2 * (m * d) + d;
    NearestIsUnique(m * d, d, q, m);
  }

  // When the divisor divides the widened dividend, the result is the exact quotient.
  lemma ExactWhenDivisible(a: Dec, b: Dec, precision: int, r: Dec, m: int)
    requires a.value != 0 && b.value != 0
    requires IsRounded(a.value, b.value, a.scale - b.scale, precision, r)
    requires a.value * Pow10(r.scale - (a.scale - b.scale)) == m * b.value
    ensures r.value == m
  {
    var p := Pow10(r.scale - (a.scale - b.scale));
    ProductNotZero(a.value, p);
    SignsOfProduct(a.value, p, m, b.value);
    NearestOfMultiple(Abs(m), Abs(b.value), Abs(r.value));
  }

  lemma SignsOfProduct(a: int, p: int, m: int, b: int)
    requires a * p == m * b && p > 0 && a != 0 && b != 0
    ensures m != 0 && (m < 0 <==> (a < 0) != (b < 0)) && Abs(a) * p == Abs(m) * Abs(b)
  {
    NegatedProducts(p, Abs(a));
    NegatedProducts(Abs(m), Abs(b));
    assert a > 0 ==> a * p > 0;
    assert a < 0 ==> a * p < 0;
    assert m > 0 && b > 0 ==> m * b > 0;
    assert m < 0 && b < 0 ==> m * b > 0;
    assert m > 0 && b < 0 ==> m * b < 0;
    assert m < 0 && b > 0 ==> m * b < 0;
  }

  // Dividing a product by one factor gives back the other, however many digits it has.
  lemma DivideUndoesMultiply(a: Dec, b: Dec, r: Option<Dec>)
    requires b.value != 0 && IsQuotient(Multiply(a, b), b, r)
    ensures r.Some? && Equivalence(r.value, a)
  {
    if a.value == 0 {
      ZeroValue(a);
      ZeroValue(ZERO);
      EquivalenceIsEquality(r.value, a);
    } else {
      ProductNotZero(a.value, b.value);
      var k := r.value.scale - a.scale;
      var p := Pow10(k);
      MulAssociative(a.value, b.value, p);
      MulAssociative(a.value, p, b.value);
      assert b.value * p == p * b.value;
      ExactWhenDivisible(Multiply(a, b), b, DEFAULT_PRECISION, r.value, a.value * p);
    }
  }

  // A quotient that some decimal of at most 100 digits denotes exactly is found exactly.
  lemma DivideFindsShortQuotients(a: Dec, b: Dec, q: Dec, r: Option<Dec>)
    requires b.value != 0 && IsQuotient(a, b, r)
    requires Rational(q) * Rational(b) == Rational(a) && |Print(Abs(q.value))| <= DEFAULT_PRECISION
    ensures Equivalence(r.value, q)
  {
    hide Rational, Settled, Nearest, Pow10, Print;
    ZeroValue(a);
    ZeroValue(b);
    ZeroValue(q);
    if a.value == 0 {
      ZeroValue(ZERO);
      EquivalenceIsEquality(r.value, q);
    } else {
      CrossMultiplied(a, b, q, r.value.scale);
      ShortQuotient(a, b, q, r.value);
    }
  }

  // At a place both can be written to, the dividend is the quotient times the divisor.
  lemma CrossMultiplied(a: Dec, b: Dec, q: Dec, s: int)
    requires Rational(q) * Rational(b) == Rational(a) && q.value != 0 && b.value != 0
    ensures s >= q.scale && s + b.scale >= a.scale ==> At(a, s + b.scale) == At(q, s) * b.value
    ensures s < q.scale && s + b.scale >= a.scale ==>
      At(a, s + b.scale) * Pow10(q.scale - s) == q.value * b.value
  {
    var product := Multiply(q, b);
    MultiplyIsExact(q, b);
    ProductNotZero(q.value, b.value);
    if s + b.scale >= a.scale {
      if s >= q.scale {
        Compare(product, a, s + b.scale);
        SwapFactors(q.value, b.value, Pow10(s - q.scale));
      } else {
        Compare(product, a, q.scale + b.scale);
        AtShift(a, s + b.scale, q.scale - s);
        assert Pow10(0) == 1;
      }
    }
  }

  lemma SwapFactors(x: int, y: int, z: int)
    ensures x * y * z == x * z * y
  {
  }

  lemma ShortQuotient(a: Dec, b: Dec, q: Dec, r: Dec)
    requires a.value != 0 && b.value != 0 && q.value != 0
    requires IsRounded(a.value, b.value, a.scale - b.scale, DEFAULT_PRECISION, r)
    requires r.scale >= q.scale ==> At(a, r.scale + b.scale) == At(q, r.scale) * b.value
    requires r.scale < q.scale ==> At(a, r.scale + b.scale) * Pow10(q.scale - r.scale) == q.value * b.value
    requires |Print(Abs(q.value))| <= DEFAULT_PRECISION
    ensures Equivalence(r, q)
  {
    assert Pow10(0) == 1;
    hide Pow10, Print, Nearest, Settled;
    var k := r.scale - (a.scale - b.scale);
    var x := a.value * Pow10(k);
    assert x == At(a, r.scale + b.scale);
    if r.scale >= q.scale {
      ExactWhenDivisible(a, b, DEFAULT_PRECISION, r, At(q, r.scale));
    } else {
      var t := q.scale - r.scale;
      ProductNotZero(a.value, Pow10(k));
      SignsOfProduct(x, Pow10(t), q.value, b.value);
      AbsOfWidened(a.value, Pow10(k));
      if Abs(x) % Abs(b.value) == 0 {
        var m := SignedDivisor(x, b.value);
        ExactWhenDivisible(a, b, DEFAULT_PRECISION, r, m);
        SwapFactors(m, b.value, Pow10(t));
        CancelFactor(m * Pow10(t), q.value, b.value);
      } else {
        SettledInexact(Abs(x), Abs(b.value));
        TooManyDigits(Abs(x), Abs(b.value), Abs(q.value), t);
      }
    }
  }

  lemma SettledInexact(n: nat, d: nat)
    requires d > 0 && Settled(n, d, DEFAULT_PRECISION) && n % d != 0
    ensures n >= d && |Print(n / d)| >= DEFAULT_PRECISION
  {
  }

  lemma AbsOfWidened(x: int, p: int)
    requires p > 0
    ensures Abs(x * p) == Abs(x) * p
  {
    NegatedProducts(p, Abs(x));
  }

  // An inexact settled quotient has too many digits already.
  lemma TooManyDigits(n: nat, d: nat, v: nat, t: nat)
    requires d > 0 && t > 0 && n >= d && n * Pow10(t) == v * d
    ensures |Print(v)| > |Print(n / d)|
  {
    QuotientGrows(n, d, v, t);
    TenfoldDigits(n / d, v);
  }

  lemma TenfoldDigits(m: nat, v: nat)
    requires m >= 1 && v >= 10 * m
    ensures |Print(v)| > |Print(m)|
  {
    PrintMonotone(10 * m, v);
    NextDigit(m, 0);
  }

  lemma QuotientGrows(n: nat, d: nat, v: nat, t: nat)
    requires d > 0 && t > 0 && n >= d && n * Pow10(t) == v * d
    ensures n / d >= 1 && v >= 10 * (n / d)
  {
    assert Pow10(0) == 1;
    Pow10Monotone(0, t);
    FirstQuotient(n, d);
    AtLeastTenfold(n, d, v, Pow10(t), n / d);
  }

  lemma AtLeastTenfold(n: nat, d: nat, v: nat, p: int, m: nat)
    requires d > 0 && p >= 10 && n * p == v * d && n >= m * d
    ensures v >= 10 * m
  {
    MulMonotone(n, 10, p);
    if v < 10 * m {
      MulMonotone(d, v + 1, 10 * m);
      Tenfold(d, m);
    }
  }

  lemma Tenfold(d: int, m: int)
    ensures d * (10 * m) == 10 * (d * m)
  {
  }

  lemma SignedDivisor(x: int, b: int) returns (m: int)
    requires b != 0 && Abs(x) % Abs(b) == 0
    ensures x == m * b
  {
    m := Div(x, b);
    DivMod(x, b);
    assert m * b == b * m;
  }

  lemma CancelFactor(x: int, y: int, b: int)
    requires b != 0 && x * b == y * b
    ensures x == y
  {
    assert (x - y) * b == 0;
  }

  // ---------------------------------------------------------------------------
  // Significant digits

  lemma NearestAtLeast(n: nat, d: nat, q: nat)
    requires d > 0 && Nearest(n, d, q)
    ensures n / d <= q
  {
    var m := n / d;
    assert n == d * m + n % d;
    assert d * (2 * m) == 2 * (d * m) && d * (2 * q + 2) == (2 * q + 1) * d + d;
    if q < m {
      MulMonotone(d, 2 * q + 2, 2 * m);
    }
  }

  lemma LongNumeral(n: nat, digits: nat)
    requires |Print(n)| >= digits > 1
    ensures n >= Pow10(digits - 1)
  {
    PrintLength(n);
    if digits < |Print(n)| {
      Pow10Monotone(digits - 1, |Print(n)| - 1);
    }
    assert n == 0 ==> |Print(n)| == 1;
  }

  lemma LongWhenInexact(a: Dec, b: Dec, r: Dec)
    requires a.value != 0 && b.value != 0
    requires IsRounded(a.value, b.value, a.scale - b.scale, DEFAULT_PRECISION, r)
    requires (Abs(a.value) * Pow10(r.scale - (a.scale - b.scale))) % Abs(b.value) != 0
    ensures Abs(r.value) >= Pow10(DEFAULT_PRECISION - 1)
  {
    hide Pow10, Print, Nearest, Settled;
    var n, d := Abs(a.value) * Pow10(r.scale - (a.scale - b.scale)), Abs(b.value);
    SettledInexact(n, d);
    NearestAtLeast(n, d, Abs(r.value));
    PrintMonotone(n / d, Abs(r.value));
    LongNumeral(Abs(r.value), DEFAULT_PRECISION);
  }

  lemma ExactWhenDivided(a: Dec, b: Dec, r: Dec)
    requires a.value != 0 && b.value != 0
    requires IsRounded(a.value, b.value, a.scale - b.scale, DEFAULT_PRECISION, r)
    requires (Abs(a.value) * Pow10(r.scale - (a.scale - b.scale))) % Abs(b.value) == 0
    ensures Rational(r) * Rational(b) == Rational(a)
  {
    assert Pow10(0) == 1;
    hide Rational, Pow10, Nearest, Settled;
    var p := Pow10(r.scale - (a.scale - b.scale));
    AbsOfWidened(a.value, p);
    var m := SignedDivisor(a.value * p, b.value);
    ExactWhenDivisible(a, b, DEFAULT_PRECISION, r, m);
    MultiplyIsExact(r, b);
    Compare(Multiply(r, b), a, r.scale + b.scale);
  }

  // Either the result is the exact quotient, or it has at least 100 significant digits.
  lemma DivideIsExactOrLong(a: Dec, b: Dec, r: Option<Dec>)
    requires b.value != 0 && IsQuotient(a, b, r)
    ensures Rational(r.value) * Rational(b) == Rational(a) || Abs(r.value.value) >= Pow10(DEFAULT_PRECISION - 1)
  {
    hide Rational, Pow10, Settled, Nearest;
    if a.value == 0 {
      ZeroValue(a);
      ZeroValue(ZERO);
    } else if (Abs(a.value) * Pow10(r.value.scale - (a.scale - b.scale))) % Abs(b.value) == 0 {
      ExactWhenDivided(a, b, r.value);
    } else {
      LongWhenInexact(a, b, r.value);
    }
  }

  lemma UlpOfLong(r: Dec, p: int)
    requires Abs(r.value) >= p > 0
    ensures p as real * Ulp(r) <= AbsReal(Rational(r))
  {
    hide Rational, Pow10;
    var whole, unit := Dec(p, 0), Dec(1, r.scale);
    WholeNumber(p);
    MultiplyIsExact(whole, unit);
    SameScaleCompare(Multiply(whole, unit), Dec(Abs(r.value), r.scale));
    AbsRational(r);
  }

  lemma WholeNumber(n: int)
    ensures Rational(Dec(n, 0)) == n as real
  {
    assert Pow10(0) == 1;
  }

  lemma PowerOfTenLength(k: nat, n: nat)
    requires Pow10(k) <= n < Pow10(k + 1)
    ensures |Print(n)| == k + 1
  {
    PrintLength(n);
    var length := |Print(n)|;
    hide Print;
    if length <= k {
      PowersGrow(length, k);
    } else if length > k + 1 {
      PowersGrow(k + 1, length - 1);
    }
  }

  lemma PowersGrow(j: nat, k: nat)
    requires j <= k
    ensures Pow10(j) <= Pow10(k)
  {
    if j < k {
      Pow10Monotone(j, k);
    }
  }

  lemma {:induction false} Repunit(k: nat)
    ensures Pow10(k) % 3 == 1 && 3 * (Pow10(k) / 3) + 1 == Pow10(k)
  {
    if k > 0 {
      Repunit(k - 1);
      DivUnique(Pow10(k), 3, 10 * (Pow10(k - 1) / 3) + 3, 1);
    } else {
      DivUnique(1, 3, 0, 1);
    }
  }

  lemma ThirdOfPower(k: nat)
    ensures Pow10(k) <= Pow10(k + 1) / 3 < Pow10(k + 1) && |Print(Pow10(k + 1) / 3)| == k + 1
  {
    Repunit(k + 1);
    PowerOfTenLength(k, Pow10(k + 1) / 3);
  }

  lemma RoundedThird(k: nat)
    ensures IsRounded(1, 3, 0, k + 1, Dec(Pow10(k + 1) / 3, k + 1))
  {
    Repunit(k + 1);
    Repunit(k);
    ThirdOfPower(k);
    if k > 0 {
      ThirdOfPower(k - 1);
    }
    assert Pow10(0) == 1;
    hide Pow10, Print;
    var q := Pow10(k + 1) / 3;
    assert Abs(1) * Pow10(k + 1) == Pow10(k + 1) && Abs(1) * Pow10(k) == Pow10(k);
    assert Nearest(Pow10(k + 1), 3, q);
    assert Settled(Pow10(k + 1), 3, k + 1) && !Settled(Pow10(k), 3, k + 1);
  }

  // A third is written with one hundred places, all threes.
  lemma OneThird()
    ensures var threes := Pow10(100) / 3;
      && 3 * threes + 1 == Pow10(100) && |Print(threes)| == 100
      && IsQuotient(Dec(1, 0), Dec(3, 0), Some(Dec(threes, 100)))
  {
    hide Pow10, Print, IsRounded;
    Repunit(100);
    ThirdOfPower(99);
    RoundedThird(99);
  }

  // So the error is less than one part in 10^99 of the result, whatever its magnitude.
  lemma DivideRelativeError(a: Dec, b: Dec, r: Option<Dec>)
    requires b.value != 0 && IsQuotient(a, b, r)
    ensures 2.0 * AbsReal(Rational(r.value) - Rational(a) / Rational(b)) * Pow10(DEFAULT_PRECISION - 1) as real
      <= AbsReal(Rational(r.value))
  {
    hide Rational, Pow10, IsRounded;
    var x, y, z := Rational(a), Rational(b), Rational(r.value);
    var p := Pow10(DEFAULT_PRECISION - 1);
    ZeroValue(b);
    DivideIsExactOrLong(a, b, r);
    if z * y == x {
      ExactQuotient(x, y, z);
      assert AbsReal(z - x / y) == 0.0;
    } else {
      DivideIsAccurate(a, b, r);
      UlpOfLong(r.value, p);
      ScaledBound(2.0 * AbsReal(z - x / y), Ulp(r.value), p as real);
    }
  }

  lemma ExactQuotient(x: real, y: real, z: real)
    requires y != 0.0 && z * y == x
    ensures x / y == z
  {
    assert x / y * y == x;
    assert (x / y - z) * y == 0.0;
  }

  lemma ScaledBound(x: real, y: real, p: real)
    requires x <= y && p >= 0.0
    ensures x * p <= p * y
  {
    assert (y - x) * p >= 0.0;
  }

  // ---------------------------------------------------------------------------
  // Rounding down

  // The number of decimal places the quotient is rounded to, settled by the operands alone.
  predicate IsPlace(a: Dec, b: Dec, s: int)
    requires b.value != 0
  {
    FewestPlaces(a.value, b.value, s - (a.scale - b.scale), DEFAULT_PRECISION)
  }

  // The integer can be written with s decimal places; negative ones ask for trailing zeros.
  predicate Fits(n: int, s: int) {
    s >= 0 || n % Pow10(-s) == 0
  }

  ghost function Unit(s: int): real {
    Rational(Dec(1, s))
  }

  lemma InUnits(v: int, s: int)
    ensures Rational(Dec(v, s)) == v as real * Unit(s) && Unit(s) > 0.0
  {
    hide Rational;
    ZeroValue(Dec(1, s));
    ZeroValue(Dec(v, s));
    WholeNumber(v);
    MultiplyIsExact(Dec(v, 0), Dec(1, s));
  }

  lemma FitsMeans(n: int, s: int, v: int) returns (m: int)
    ensures Fits(n, s) <==> m as real * Unit(s) == n as real
    ensures v as real * Unit(s) == n as real ==> v == m
  {
    hide Rational;
    m := if s >= 0 then n * Pow10(s) else n / Pow10(-s);
    WholeNumber(n);
    InUnits(m, s);
    assert Pow10(0) == 1;
    hide Pow10;
    if s >= 0 {
      Compare(Dec(n, 0), Dec(m, s), s);
    } else {
      Compare(Dec(m, s), Dec(n, 0), 0);
      DivisibleBy(n, Pow10(-s));
    }
    InUnits(v, s);
    if s >= 0 {
      Compare(Dec(n, 0), Dec(v, s), s);
    } else {
      Compare(Dec(v, s), Dec(n, 0), 0);
      MultipleMod(Pow10(-s), v);
      assert Pow10(-s) * v == v * Pow10(-s);
    }
  }

  lemma DivisibleBy(n: int, p: int)
    requires p > 0
    ensures n % p == 0 <==> n / p * p == n
  {
    assert n == p * (n / p) + n % p;
  }

  // Counted in units of the last place, the true quotient is the fraction that gets rounded.
  lemma QuotientInUnits(a: Dec, b: Dec, s: int) returns (t: real)
    requires b.value != 0 && s - (a.scale - b.scale) >= 0
    ensures Rational(b) != 0.0 && Rational(a) / Rational(b) == t * Unit(s)
    ensures t * b.value as real == (a.value * Pow10(s - (a.scale - b.scale))) as real
  {
    hide Rational;
    var p := a.value * Pow10(s - (a.scale - b.scale));
    t := p as real / b.value as real;
    ZeroValue(b);
    InUnits(b.value, b.scale);
    InUnits(p, s + b.scale);
    assert Pow10(0) == 1;
    Compare(Dec(p, s + b.scale), a, s + b.scale);
    MultiplyIsExact(Dec(1, s), Dec(1, b.scale));
    RealQuotient(p as real, b.value as real, Unit(s), Unit(b.scale));
  }

  lemma RealQuotient(p: real, v: real, x: real, y: real)
    requires v != 0.0 && y > 0.0
    ensures v * y != 0.0 && p * (x * y) / (v * y) == p / v * x && p / v * v == p
  {
    var q := p / v;
    assert q * v == p;
    assert q * x * (v * y) == q * v * (x * y);
    ExactQuotient(p * (x * y), v * y, q * x);
  }

  // Rounding goes to the nearest integer, halves away from zero.
  lemma RoundsHalfAway(n: int, d: int, v: int, t: real)
    requires n != 0 && d != 0 && t * d as real == n as real
    requires Nearest(Abs(n), Abs(d), Abs(v)) && v != 0 && (v < 0 <==> (n < 0) != (d < 0))
    ensures IsRoundedTo(t, v)
  {
    QuotientSign(n, d, t);
    NearestReal(Abs(n), Abs(d), Abs(v));
    BetweenOdds(Abs(v) as real, AbsReal(t), Abs(d) as real, Abs(n) as real);
  }

  lemma NearestReal(n: int, d: int, q: int)
    requires Nearest(n, d, q)
    ensures (2.0 * q as real - 1.0) * d as real <= 2.0 * n as real < (2.0 * q as real + 1.0) * d as real
  {
    RealProducts(2 * q - 1, d);
    RealProducts(2 * q + 1, d);
    assert (2 * q - 1) as real == 2.0 * q as real - 1.0 && (2 * q + 1) as real == 2.0 * q as real + 1.0;
    assert (2 * n) as real == 2.0 * n as real;
  }

  lemma QuotientSign(n: int, d: int, t: real)
    requires n != 0 && d != 0 && t * d as real == n as real
    ensures AbsReal(t) * Abs(d) as real == Abs(n) as real
    ensures t < 0.0 <==> (n < 0) != (d < 0)
  {
    if t < 0.0 {
      assert d > 0 ==> t * d as real < 0.0;
      assert d < 0 ==> t * d as real > 0.0;
    } else {
      assert d > 0 ==> t * d as real >= 0.0;
      assert d < 0 ==> t * d as real <= 0.0;
    }
  }

  lemma BetweenOdds(q: real, w: real, d: real, n: real)
    requires d > 0.0 && w * d == n && (2.0 * q - 1.0) * d <= 2.0 * n < (2.0 * q + 1.0) * d
    ensures 2.0 * q - 1.0 <= 2.0 * w < 2.0 * q + 1.0
  {
    assert 2.0 * n == 2.0 * w * d;
    CancelPositive(2.0 * w, 2.0 * q - 1.0, d);
    CancelPositive(2.0 * w, 2.0 * q + 1.0, d);
  }

  // v is t rounded to the nearest integer, halves away from zero.
  predicate IsRoundedTo(t: real, v: int) {
    && v != 0 && (t < 0.0 <==> v < 0) && -1.0 <= 2.0 * (v as real - t) <= 1.0
    && if v > 0 then -1.0 < 2.0 * (v as real - t) else 2.0 * (v as real - t) < 1.0
  }

  // It is g below t exactly when g is whole and t lies less than half a unit above it, or just
  // half a unit and below zero.
  lemma FloorIsRounded(t: real, v: int, g: real, m: int, whole: bool)
    requires g <= t && IsRoundedTo(t, v)
    requires (whole <==> m as real == g) && (v as real == g ==> v == m)
    ensures v as real == g <==> whole && (2.0 * (t - g) < 1.0 || (t < 0.0 && 2.0 * (t - g) == 1.0))
  {
    if whole && (2.0 * (t - g) < 1.0 || (t < 0.0 && 2.0 * (t - g) == 1.0)) {
      CloseIntegers(v, m);
    }
  }

  lemma CloseIntegers(v: int, m: int)
    requires -1.0 < v as real - m as real < 1.0
    ensures v == m
  {
    assert (v - m) as real == v as real - m as real;
  }

  lemma BelowOne(w: real, u: real, y: real)
    requires u > 0.0 && y == w * u
    ensures (y < u <==> w < 1.0) && (y == u <==> w == 1.0)
  {
    CancelPositive(w, 1.0, u);
  }

  lemma InScale(t: real, g: real, u: real, x: real, f: real)
    requires u > 0.0 && x == t * u && f == g * u
    ensures 2.0 * (x - f) < u <==> 2.0 * (t - g) < 1.0
    ensures 2.0 * (x - f) == u <==> 2.0 * (t - g) == 1.0
    ensures (x < 0.0 <==> t < 0.0) && (f <= x <==> g <= t)
  {
    assert 2.0 * (x - f) == 2.0 * (t - g) * u;
    BelowOne(2.0 * (t - g), u, 2.0 * (x - f));
    CancelPositive(t, 0.0, u);
    CancelPositive(t, g, u);
  }

  lemma ScaledFloor(t: real, v: int, u: real, x: real, f: real, m: int, whole: bool)
    requires u > 0.0 && x == t * u && f <= x && IsRoundedTo(t, v)
    requires (whole <==> m as real * u == f) && (v as real * u == f ==> v == m)
    ensures v as real * u == f <==> whole && (2.0 * (x - f) < u || (x < 0.0 && 2.0 * (x - f) == u))
  {
    hide IsRoundedTo;
    var g := InUnitsOf(f, u);
    InScale(t, g, u, x, f);
    CancelPositive(m as real, g, u);
    CancelPositive(v as real, g, u);
    FloorIsRounded(t, v, g, m, whole);
  }

  lemma InUnitsOf(f: real, u: real) returns (g: real)
    requires u > 0.0
    ensures f == g * u
  {
    g := f / u;
  }

  lemma RoundedQuotient(a: Dec, b: Dec, r: Dec)
    requires a.value != 0 && b.value != 0
    requires IsRounded(a.value, b.value, a.scale - b.scale, DEFAULT_PRECISION, r)
    ensures Rational(b) != 0.0
    ensures var x, u := Rational(a) / Rational(b), Unit(r.scale);
      var fraction := x - x.Floor as real;
      Rational(r) == x.Floor as real <==>
        Fits(x.Floor, r.scale) && (2.0 * fraction < u || (x < 0.0 && 2.0 * fraction == u))
  {
    hide *;
    var t := RoundedInUnits(a, b, r);
    InUnits(r.value, r.scale);
    var x := Rational(a) / Rational(b);
    var m := FitsMeans(x.Floor, r.scale, r.value);
    ScaledFloor(t, r.value, Unit(r.scale), x, x.Floor as real, m, Fits(x.Floor, r.scale));
  }

  lemma RoundedInUnits(a: Dec, b: Dec, r: Dec) returns (t: real)
    requires a.value != 0 && b.value != 0
    requires IsRounded(a.value, b.value, a.scale - b.scale, DEFAULT_PRECISION, r)
    ensures Rational(b) != 0.0 && Rational(a) / Rational(b) == t * Unit(r.scale)
    ensures IsRoundedTo(t, r.value)
  {
    hide Rational, Unit, Pow10, Settled, Nearest, IsRoundedTo;
    var p := Pow10(r.scale - (a.scale - b.scale));
    t := QuotientInUnits(a, b, r.scale);
    AbsOfWidened(a.value, p);
    SignOfWidened(a.value, p);
    RoundsHalfAway(a.value * p, b.value, r.value, t);
  }

  lemma SignOfWidened(x: int, p: int)
    requires p > 0
    ensures (x * p < 0 <==> x < 0) && (x * p == 0 <==> x == 0)
  {
    if x > 0 {
      assert x * p > 0;
    }
  }

  lemma PlaceOfQuotient(a: Dec, b: Dec, r: Option<Dec>, s: int)
    requires a.value != 0 && b.value != 0 && IsQuotient(a, b, r)
    ensures IsPlace(a, b, s) <==> s == r.value.scale
  {
    hide FewestPlaces, Nearest;
    if IsPlace(a, b, s) {
      var scale := a.scale - b.scale;
      PlacesAreUnique(a.value, b.value, s - scale, r.value.scale - scale, DEFAULT_PRECISION);
    }
  }

  // Rounded to s places, the result is the floor of the quotient exactly when that floor can be
  // written with s places and the fraction is less than half a unit of the last one, or half of it
  // below zero. The operands decide all of this.
  lemma DivideRoundsDownExactly(a: Dec, b: Dec, r: Option<Dec>, s: int)
    requires b.value != 0 && IsQuotient(a, b, r) && (a.value == 0 || IsPlace(a, b, s))
    ensures var x := Rational(a) / Rational(b);
      var fraction := x - x.Floor as real;
      Rational(r.value) == x.Floor as real <==>
        || a.value == 0
        || (Fits(x.Floor, s) && (2.0 * fraction < Unit(s) || (x < 0.0 && 2.0 * fraction == Unit(s))))
  {
    hide Rational, Pow10, Settled, Nearest, Fits;
    ZeroValue(b);
    if a.value == 0 {
      ZeroValue(a);
      ZeroValue(ZERO);
      ExactQuotient(0.0, Rational(b), 0.0);
    } else {
      PlaceOfQuotient(a, b, r, s);
      RoundedQuotient(a, b, r.value);
    }
  }

  // In particular a quotient of at most 100 digits comes back rounded down to an integer only if
  // it is one.
  lemma DivideRoundsDown(a: Dec, b: Dec, q: Dec, r: Option<Dec>)
    requires b.value != 0 && IsQuotient(a, b, r)
    requires Rational(q) * Rational(b) == Rational(a) && |Print(Abs(q.value))| <= DEFAULT_PRECISION
    ensures Rational(r.value) == Rational(q).Floor as real <==> DecimalNormal.IsInteger(q)
  {
    hide Rational, IsRounded, Equivalence;
    DivideFindsShortQuotients(a, b, q, r);
    EquivalenceIsEquality(r.value, q);
    DecimalNormal.IsIntegerMeans(q);
  }

  // 6 / 4 is 1.5, not the 1 below it.
  lemma DivideKeepsFraction()
    ensures IsQuotient(Dec(6, 0), Dec(4, 0), Some(Dec(15, 1)))
    ensures Rational(Dec(15, 1)) != Rational(Dec(1, 0)) == (Rational(Dec(6, 0)) / Rational(Dec(4, 0))).Floor as real
  {
    SixQuarters();
    assert Pow10(0) == 1 && Pow10(1) == 10;
    hide IsQuotient;
  }

  lemma SixQuarters()
    ensures IsQuotient(Dec(6, 0), Dec(4, 0), Some(Dec(15, 1)))
  {
    assert Pow10(0) == 1 && Pow10(1) == 10;
    assert |Print(1)| == 1;
    hide Pow10, Print;
  }
}
