/** `bigint` division, which truncates toward zero (section 6.1.6.2 of ECMA-262). */
module Truncated {

  function Abs(n: int): nat {
    if n < 0 then -n else n
  }

  lemma AbsMeans(n: int)
    ensures Abs(n) == if n < 0 then -n else n
  {
  }

  function Div(a: int, b: int): int
    requires b != 0
  {
    if (a < 0) == (b < 0) then Abs(a) / Abs(b) else -(Abs(a) / Abs(b))
  }

  // The remainder takes the sign of the dividend.
  function Mod(a: int, b: int): int
    requires b != 0
  {
    if a < 0 then -(Abs(a) % Abs(b)) else Abs(a) % Abs(b)
  }

  lemma DivMod(a: int, b: int)
    requires b != 0
    ensures a == b * Div(a, b) + Mod(a, b)
    ensures Abs(Mod(a, b)) < Abs(b) && (Mod(a, b) != 0 ==> (Mod(a, b) < 0 <==> a < 0))
    ensures Abs(Mod(a, b)) == Abs(a) % Abs(b)
  {
    var q, r := Abs(a) / Abs(b), Abs(a) % Abs(b);
    assert Abs(a) == Abs(b) * q + r;
    NegatedProducts(Abs(b), q);
  }

  lemma NegatedProducts(b: int, q: int)
    ensures (-b) * q == -(b * q) && b * (-q) == -(b * q) && (-b) * (-q) == b * q
  {
  }
}
