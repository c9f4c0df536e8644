/** Integer square root by Newton's method, Euclid's algorithm and least common multiples. */
module BigIntegers {
  import opened Options
  import opened Arithmetic
  import opened Truncated

  // ---------------------------------------------------------------------------
  // Square root

  predicate IsFloorRoot(n: int, x: int) {
    x >= 0 && x * x <= n < (x + 1) * (x + 1)
  }

  lemma QuotientBelow(n: int, x: int)
    requires x >= 1 && 1 <= n < x * x
    ensures 0 <= n / x < x && n < (n / x + 1) * x && (n / x == 0 ==> x >= 2)
  {
    var q, r := n / x, n % x;
    assert n == x * q + r;
    if q >= x {
      MulMonotone(x, x, q);
    }
    if q < 0 {
      MulMonotone(x, q, -1);
    }
    assert (q + 1) * x == x * q + x;
  }

  // From above the root, a step goes strictly down and stays at or above the floor root.
  lemma NewtonStep(n: int, x: int)
    requires x >= 1 && 1 <= n < x * x
    ensures var y := (n / x + x) / 2;
      1 <= y < x && n < (y + 1) * (y + 1)
  {
    var q := n / x;
    QuotientBelow(n, x);
    MeanBound(q + 1, x, (q + x) / 2 + 1);
  }

  lemma SquareOfSum(a: int, b: int)
    ensures (a + b) * (a + b) >= 4 * (a * b)
  {
    var d := a - b;
    assert (a + b) * (a + b) == d * d + 4 * (a * b);
    assert d * d >= 0;
  }

  // A number at least the mean of two others has a square of at least their product.
  lemma MeanBound(a: int, b: int, z: int)
    requires a >= 0 && b >= 0 && 2 * z >= a + b
    ensures z * z >= a * b
  {
    var s, d := a + b, a - b;
    SquareOfSum(a, b);
    Square(s, 2 * z);
    assert (2 * z) * (2 * z) == 4 * (z * z);
  }

  lemma Square(a: int, b: int)
    requires 0 <= a <= b
    ensures a * a <= b * b
  {
    MulMonotone(a, a, b);
    MulMonotone(b, a, b);
  }

  // None is the RangeError for negative numbers.
  method UnsafeSqrt(n: int) returns (r: Option<int>)
    ensures r == None <==> n < 0
    ensures n >= 0 ==> IsFloorRoot(n, r.value)
  {
    if n < 0 {
      return None;
    }
    if n < 2 {
      return Some(n);
    }
    var x := n / 2;
    StartsAbove(n);
    while x * x > n
      invariant x >= 1 && n < (x + 1) * (x + 1)
      decreases x
    {
      NewtonStep(n, x);
      x := (n / x + x) / 2;
    }
    return Some(x);
  }

  lemma StartsAbove(n: int)
    requires n >= 2
    ensures n / 2 >= 1 && n < (n / 2 + 1) * (n / 2 + 1)
  {
    var h := n / 2;
    assert (h + 1) * (h + 1) == h * h + 2 * h + 1;
    if h == 1 {
    } else {
      MulMonotone(h, 1, h);
    }
  }

  lemma FloorRootIsUnique(n: int, x: int, y: int)
    requires IsFloorRoot(n, x) && IsFloorRoot(n, y)
    ensures x == y
  {
    if x < y {
      Square(x + 1, y);
    } else if y < x {
      Square(y + 1, x);
    }
  }

  // ---------------------------------------------------------------------------
  // Greatest common divisor

  ghost predicate Divides(d: int, n: int) {
    exists k :: IsTimes(d, k, n)
  }

  predicate IsTimes(d: int, k: int, n: int) {
    n == d * k
  }

  function Gcd(a: int, b: int): int
    decreases Abs(b)
  {
    if b == 0 then a
    else
      DivMod(a, b);
      Gcd(b, Mod(a, b))
  }

  method ComputeGcd(a: int, b: int) returns (g: int)
    ensures g == Gcd(a, b)
  {
    g := a;
    var that := b;
    while that != 0
      invariant Gcd(g, that) == Gcd(a, b)
      decreases Abs(that)
    {
      DivMod(g, that);
      var t := that;
      that := Mod(g, that);
      g := t;
    }
  }

  // Coefficients u, v with gcd == a*u + b*v.
  lemma {:induction false} Bezout(a: int, b: int) returns (u: int, v: int)
    ensures Gcd(a, b) == a * u + b * v
    decreases Abs(b)
  {
    if b == 0 {
      u, v := 1, 0;
    } else {
      DivMod(a, b);
      var q := Div(a, b);
      var u', v' := Bezout(b, Mod(a, b));
      u, v := v', u' - q * v';
      Substitute(a, b, q, u', v');
    }
  }

  lemma Substitute(a: int, b: int, q: int, u: int, v: int)
    ensures b * u + (a - b * q) * v == a * v + b * (u - q * v)
  {
    assert (b * q) * v == b * (q * v);
  }

  lemma Combination(d: int, j: int, x: int, k: int, y: int)
    ensures IsTimes(d, j * x + k * y, (d * j) * x + (d * k) * y)
  {
    assert (d * j) * x == d * (j * x) && (d * k) * y == d * (k * y);
  }

  lemma {:induction false} GcdDividesBoth(a: int, b: int)
    ensures Divides(Gcd(a, b), a) && Divides(Gcd(a, b), b)
    decreases Abs(b)
  {
    if b == 0 {
      assert IsTimes(a, 1, a) && IsTimes(a, 0, 0);
    } else {
      var g, q, r := Gcd(a, b), Div(a, b), Mod(a, b);
      DivMod(a, b);
      GcdDividesBoth(b, r);
      var j :| IsTimes(g, j, b);
      var k :| IsTimes(g, k, r);
      Combination(g, j, q, k, 1);
      Recombine(g, j, q, k, a, b, r);
    }
  }

  lemma Recombine(g: int, j: int, q: int, k: int, a: int, b: int, r: int)
    requires IsTimes(g, j, b) && IsTimes(g, k, r) && a == b * q + r
    requires IsTimes(g, j * q + k * 1, (g * j) * q + (g * k) * 1)
    ensures Divides(g, a)
  {
    assert IsTimes(g, j * q + k * 1, a);
  }

  lemma GcdZero(a: int, b: int, g: int, u: int, v: int)
    requires Divides(g, a) && Divides(g, b) && g == a * u + b * v
    ensures g == 0 <==> a == 0 && b == 0
  {
    var j :| IsTimes(g, j, a);
    var k :| IsTimes(g, k, b);
  }

  // The result divides both numbers and every common divisor divides it; negative inputs
  // only affect its sign.
  lemma GcdIsGreatest(a: int, b: int)
    ensures Divides(Gcd(a, b), a) && Divides(Gcd(a, b), b)
    ensures forall d :: Divides(d, a) && Divides(d, b) ==> Divides(d, Gcd(a, b))
    ensures Gcd(a, b) == 0 <==> a == 0 && b == 0
  {
    hide Gcd;
    GcdDividesBoth(a, b);
    var u, v := Bezout(a, b);
    GcdZero(a, b, Gcd(a, b), u, v);
    forall d | Divides(d, a) && Divides(d, b)
      ensures Divides(d, Gcd(a, b))
    {
      var j :| IsTimes(d, j, a);
      var k :| IsTimes(d, k, b);
      Combination(d, j, u, k, v);
      assert IsTimes(d, j * u + k * v, Gcd(a, b));
    }
  }

  // The number of divisions the loop makes.
  function Divisions(a: int, b: int): nat
    decreases Abs(b)
  {
    if b == 0 then 0
    else
      DivMod(a, b);
      1 + Divisions(b, Mod(a, b))
  }

  // Remainders take the sign of their dividend, so the sign of the result is that of the first
  // number after an even count of divisions and of the second after an odd one.
  lemma {:induction false} GcdSign(a: int, b: int)
    ensures Gcd(a, b) < 0 <==> (if Divisions(a, b) % 2 == 0 then a else b) < 0
    ensures Abs(Gcd(a, b)) == Gcd(Abs(a), Abs(b)) && Divisions(a, b) == Divisions(Abs(a), Abs(b))
    decreases Abs(b)
  {
    hide Gcd, Divisions, Mod, Div;
    NoDivision(a);
    NoDivision(b);
    NoDivision(Abs(a));
    if b != 0 {
      OneDivision(a, b);
      OneDivision(Abs(a), Abs(b));
      Remainders(a, b);
      GcdSign(b, Mod(a, b));
    }
  }

  lemma NoDivision(a: int)
    ensures Gcd(a, 0) == a && Divisions(a, 0) == 0
  {
  }

  lemma OneDivision(a: int, b: int)
    requires b != 0
    ensures Gcd(a, b) == Gcd(b, Mod(a, b)) && Divisions(a, b) == 1 + Divisions(b, Mod(a, b))
  {
  }

  lemma Remainders(a: int, b: int)
    requires b != 0
    ensures Mod(Abs(a), Abs(b)) == Abs(Mod(a, b)) < Abs(b)
    ensures Mod(a, b) != 0 ==> (Mod(a, b) < 0 <==> a < 0)
  {
    DivMod(a, b);
  }

  // It is the greatest of the common divisors exactly when that sign is not negative.
  lemma GcdIsLargest(a: int, b: int)
    requires a != 0 || b != 0
    ensures (forall d :: Divides(d, a) && Divides(d, b) ==> d <= Gcd(a, b)) <==>
      (if Divisions(a, b) % 2 == 0 then a else b) >= 0
  {
    GcdSign(a, b);
    GcdIsGreatest(a, b);
    hide Gcd, Divisions;
    var g := Gcd(a, b);
    if g < 0 {
      NegatedDivides(g, a);
      NegatedDivides(g, b);
      assert Divides(-g, a) && Divides(-g, b) && -g > g;
    } else {
      forall d | Divides(d, a) && Divides(d, b)
        ensures d <= g
      {
        DivisorIsSmaller(d, g);
      }
    }
  }

  lemma NegatedDivides(d: int, n: int)
    requires Divides(d, n)
    ensures Divides(-d, n)
  {
    var k :| IsTimes(d, k, n);
    NegatedProducts(d, k);
    assert IsTimes(-d, -k, n);
  }

  lemma DivisorIsSmaller(d: int, n: int)
    requires Divides(d, n) && n > 0
    ensures d <= n
  {
    var k :| IsTimes(d, k, n);
    if d > 0 {
      if k <= 0 {
        MulMonotone(d, k, 0);
      }
      MulMonotone(d, 1, k);
    }
  }

  // gcd(4, -2) is -2 although 2 divides both.
  lemma GcdCanBeNegative()
    ensures Gcd(4, -2) == -2 && Divides(2, 4) && Divides(2, -2)
  {
    assert Mod(4, -2) == 0 && Gcd(-2, 0) == -2;
    assert IsTimes(2, 2, 4) && IsTimes(2, -1, -2);
  }

  // ---------------------------------------------------------------------------
  // Least common multiple

  // None is the RangeError for dividing by zero.
  function Lcm(a: int, b: int): Option<int> {
    var g := Gcd(a, b);
    if g == 0 then None else Some(Div(a * b, g))
  }

  lemma DivExact(g: int, x: int)
    requires g != 0
    ensures Div(g * x, g) == x
  {
    NegatedProducts(Abs(g), Abs(x));
    ProductSign(Abs(g), Abs(x));
    MultipleMod(Abs(g), Abs(x));
    if x >= 0 {
      assert Abs(g * x) == Abs(g) * Abs(x);
    } else {
      assert Abs(g * x) == Abs(g) * Abs(x);
    }
  }

  lemma ProductSign(p: int, q: int)
    requires p > 0 && q >= 0
    ensures p * q >= 0 && (p * q == 0 <==> q == 0)
  {
  }

  lemma LcmSplits(a: int, b: int, g: int) returns (j: int, k: int)
    requires g == Gcd(a, b) && g != 0
    ensures IsTimes(g, j, a) && IsTimes(g, k, b) && Lcm(a, b) == Some(a * k) && a * k == b * j && g * (a * k) == a * b
  {
    hide Gcd;
    GcdDividesBoth(a, b);
    j :| IsTimes(g, j, a);
    k :| IsTimes(g, k, b);
    Factor(a, b, g, j, k);
    DivExact(g, a * k);
  }

  lemma Factor(a: int, b: int, g: int, j: int, k: int)
    requires a == g * j && b == g * k
    ensures g * (a * k) == a * b && a * k == b * j
  {
    assert g * (a * k) == a * (g * k);
    assert (g * j) * k == (g * k) * j;
  }

  // A common multiple that divides every common multiple, with gcd * lcm the product.
  lemma LcmIsLeast(a: int, b: int)
    requires a != 0 || b != 0
    ensures var l := Lcm(a, b);
      && l.Some? && Gcd(a, b) * l.value == a * b
      && Divides(a, l.value) && Divides(b, l.value)
      && forall m :: Divides(a, m) && Divides(b, m) ==> Divides(l.value, m)
  {
    GcdIsGreatest(a, b);
    var g := Gcd(a, b);
    var j, k := LcmSplits(a, b, g);
    var l := a * k;
    assert IsTimes(a, k, l) && IsTimes(b, j, l);
    var u, v := Bezout(a, b);
    hide Gcd, Lcm;
    forall m | Divides(a, m) && Divides(b, m)
      ensures Divides(l, m)
    {
      var x :| IsTimes(a, x, m);
      var y :| IsTimes(b, y, m);
      CommonMultiple(a, b, g, l, m, u, v, x, y);
    }
  }

  // Only lcm(0, 0) divides by zero.
  lemma LcmThrows(a: int, b: int)
    ensures Lcm(a, b) == None <==> a == 0 && b == 0
  {
    GcdIsGreatest(a, b);
  }

  lemma CommonMultiple(a: int, b: int, g: int, l: int, m: int, u: int, v: int, x: int, y: int)
    requires g != 0 && g * l == a * b && g == a * u + b * v && IsTimes(a, x, m) && IsTimes(b, y, m)
    ensures Divides(l, m)
  {
    var z := u * y + v * x;
    assert (a * u) * m == (a * b) * (u * y) by {
      assert (a * u) * (b * y) == (a * b) * (u * y);
    }
    assert (b * v) * m == (a * b) * (v * x) by {
      assert (b * v) * (a * x) == (a * b) * (v * x);
    }
    assert g * m == (a * b) * z;
    assert g * m == g * (l * z) by {
      assert (g * l) * z == g * (l * z);
    }
    assert g * (m - l * z) == 0;
    assert IsTimes(l, z, m);
  }

  lemma {:induction false} GcdPositive(a: int, b: int)
    requires a >= 0 && b >= 0 && a + b > 0
    ensures Gcd(a, b) > 0
    decreases b
  {
    if b != 0 {
      DivMod(a, b);
      GcdPositive(b, Mod(a, b));
    }
  }

  // For positive numbers it is the smallest positive common multiple.
  lemma LcmIsSmallest(a: int, b: int, m: int)
    requires a > 0 && b > 0
    ensures Lcm(a, b).Some? && Lcm(a, b).value > 0
    ensures m > 0 && Divides(a, m) && Divides(b, m) ==> Lcm(a, b).value <= m
  {
    LcmIsLeast(a, b);
    GcdPositive(a, b);
    var l := Lcm(a, b).value;
    PositiveFactor(Gcd(a, b), l, a, b);
    if m > 0 && Divides(a, m) && Divides(b, m) {
      var k :| IsTimes(l, k, m);
      if k <= 0 {
        MulMonotone(l, k, 0);
      }
      MulMonotone(l, 1, k);
    }
  }

  lemma PositiveFactor(g: int, l: int, a: int, b: int)
    requires g > 0 && a > 0 && b > 0 && g * l == a * b
    ensures l > 0
  {
    if l <= 0 {
      MulMonotone(g, l, 0);
    }
    MulMonotone(a, 1, b);
  }
}
