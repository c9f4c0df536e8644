/** Multiplication and Euclidean division facts the solver does not find by itself. */
module Arithmetic {

  function Max(x: int, y: int): (m: int)
    ensures x <= m && y <= m && (m == x || m == y)
  {
    if x < y then y else x
  }

  lemma MulMonotone(k: int, a: int, b: int)
    requires k >= 0 && a <= b
    ensures k * a <= k * b
  {
  }

  lemma MulStep(k: int, a: int)
    ensures k * (a + 1) == k * a + k
  {
  }

  // Quotient and remainder are unique.
  lemma DivUnique(n: int, d: int, q: int, r: int)
    requires d > 0 && 0 <= r < d && n == d * q + r
    ensures n / d == q && n % d == r
  {
    var q', r' := n / d, n % d;
    assert n == d * q' + r';
    if q' > q {
      MulMonotone(d, q + 1, q');
    } else if q' < q {
      MulMonotone(d, q' + 1, q);
    }
  }

  lemma MultipleMod(d: int, q: int)
    requires d > 0
    ensures (d * q) / d == q && (d * q) % d == 0
  {
    DivUnique(d * q, d, q, 0);
  }

  lemma DivStep(n: int, d: int)
    requires d > 0
    ensures (n + 1) / d == n / d + if (n + 1) % d == 0 then 1 else 0
  {
    var q, r := n / d, n % d;
    if r + 1 == d {
      DivUnique(n + 1, d, q + 1, 0);
    } else {
      DivUnique(n + 1, d, q, r + 1);
    }
  }

  lemma ShiftMod(n: int, d: int, k: int)
    requires d > 0
    ensures (n - d * k) % d == n % d
  {
    DivUnique(n - d * k, d, n / d - k, n % d);
  }
}
