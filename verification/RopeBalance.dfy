/**
 Balance of ropes that were only ever built by appending: child depths differ by at
 most one, so a rope of depth d holds at least Fib(d + 2) elements.
 */
module RopeBalance {
  import opened Arithmetic
  import opened Rope

  ghost predicate Balanced<A>(r: Rope<A>) {
    match r
    case Array(items) => |items| > 0
    case Singleton(_) => true
    case Concat(left, right, level) =>
      && Balanced(left) && Balanced(right)
      && -1 <= Depth(left) - Depth(right) <= 1
      && level == 1 + Max(Depth(left), Depth(right))
    case _ => false
  }

  lemma {:induction false} BalancedIsSliceFree<A>(r: Rope<A>)
    requires Balanced(r)
    ensures SliceFree(r) && WellFormed(r)
  {
    if r.Concat? {
      BalancedIsSliceFree(r.left);
      BalancedIsSliceFree(r.right);
    }
  }

  ghost predicate GrowsAtMostOne<A>(self: Rope<A>, that: Rope<A>, r: Rope<A>) {
    Balanced(r) && 0 <= Depth(r) - Max(Depth(self), Depth(that)) <= 1
  }

  // Appending keeps the balance, at the depth of the deeper operand or one more.
  lemma {:induction false} AppendAllBalanced<A>(self: Rope<A>, that: Rope<A>)
    requires Balanced(self) && Balanced(that)
    ensures GrowsAtMostOne(self, that, AppendAll(self, that))
    decreases Size(self) + Size(that)
  {
    if Depth(that) < Depth(self) - 1 {
      LeftDeeperBalanced(self, that);
    } else if Depth(self) < Depth(that) - 1 {
      RightDeeperBalanced(self, that);
    }
  }

  lemma GrowsMeans<A>(self: Rope<A>, that: Rope<A>, r: Rope<A>)
    ensures GrowsAtMostOne(self, that, r) <==>
      && Balanced(r) && Depth(self) <= Depth(r) && Depth(that) <= Depth(r)
      && (Depth(r) <= Depth(self) + 1 || Depth(r) <= Depth(that) + 1)
  {
  }

  lemma BalancedParts<A>(r: Rope<A>)
    requires Balanced(r)
    ensures !r.Empty? && (r.Concat? <==> Depth(r) > 0)
    ensures r.Concat? ==>
      && Balanced(r.left) && Balanced(r.right) && Size(r.left) < Size(r) && Size(r.right) < Size(r)
      && -1 <= Depth(r.left) - Depth(r.right) <= 1 && Depth(r) == 1 + Max(Depth(r.left), Depth(r.right))
      && Left(r) == r.left && Right(r) == r.right
  {
  }

  lemma NodeBalanced<A>(left: Rope<A>, right: Rope<A>)
    requires Balanced(left) && Balanced(right) && -1 <= Depth(left) - Depth(right) <= 1
    ensures Balanced(Node(left, right))
    ensures Depth(Node(left, right)) == 1 + Max(Depth(left), Depth(right))
  {
  }

  lemma RotationsBalanced<A>(x: Rope<A>, y: Rope<A>, z: Rope<A>, depth: nat)
    requires Balanced(x) && Balanced(y) && Balanced(z) && depth - 3 <= Depth(y) <= depth - 2
    ensures
      && Depth(x) == depth - 2 && depth - 3 <= Depth(z) < depth && (Depth(z) == depth - 3 ==> Depth(y) == depth - 2)
      ==> Balanced(RotateLeft(x, y, z, depth)) && Depth(RotateLeft(x, y, z, depth)) == depth
    ensures
      && Depth(z) == depth - 2 && depth - 3 <= Depth(x) < depth && (Depth(x) == depth - 3 ==> Depth(y) == depth - 2)
      ==> Balanced(RotateRight(x, y, z, depth)) && Depth(RotateRight(x, y, z, depth)) == depth
  {
    hide Balanced, Depth, Node;
    if -1 <= Depth(x) - Depth(y) <= 1 {
      NodeBalanced(x, y);
      if -1 <= Depth(Node(x, y)) - Depth(z) <= 1 {
        NodeBalanced(Node(x, y), z);
      }
    }
    if -1 <= Depth(y) - Depth(z) <= 1 {
      NodeBalanced(y, z);
      if -1 <= Depth(x) - Depth(Node(y, z)) <= 1 {
        NodeBalanced(x, Node(y, z));
      }
    }
  }

  lemma {:induction false} LeftDeeperBalanced<A>(self: Rope<A>, that: Rope<A>)
    requires Balanced(self) && Balanced(that) && Depth(that) < Depth(self) - 1
    ensures GrowsAtMostOne(self, that, AppendAll(self, that))
    decreases Size(self) + Size(that), 0
  {
    hide *;
    BalancedParts(self);
    BalancedParts(that);
    AppendAllCases(self, that);
    var l, r := self.left, self.right;
    BalancedParts(r);
    if Depth(l) >= Depth(r) {
      var nr := AppendAll(r, that);
      AppendAllBalanced(r, that);
      GrowsMeans(r, that, nr);
      NodeBalanced(l, nr);
      GrowsMeans(self, that, Node(l, nr));
    } else {
      var nrr := AppendAll(r.right, that);
      AppendAllBalanced(r.right, that);
      GrowsMeans(r.right, that, nrr);
      RotationsBalanced(l, r.left, nrr, Depth(self));
      GrowsMeans(self, that, RotateLeft(l, r.left, nrr, Depth(self)));
    }
  }

  lemma {:induction false} RightDeeperBalanced<A>(self: Rope<A>, that: Rope<A>)
    requires Balanced(self) && Balanced(that) && Depth(self) < Depth(that) - 1
    ensures GrowsAtMostOne(self, that, AppendAll(self, that))
    decreases Size(self) + Size(that), 0
  {
    hide *;
    BalancedParts(self);
    BalancedParts(that);
    AppendAllCases(self, that);
    var l, r := that.left, that.right;
    BalancedParts(l);
    if Depth(r) >= Depth(l) {
      var nl := AppendAll(self, l);
      AppendAllBalanced(self, l);
      GrowsMeans(self, l, nl);
      NodeBalanced(nl, r);
      GrowsMeans(self, that, Node(nl, r));
    } else {
      var nll := AppendAll(self, l.left);
      AppendAllBalanced(self, l.left);
      GrowsMeans(self, l.left, nll);
      RotationsBalanced(nll, l.right, r, Depth(that));
      GrowsMeans(self, that, RotateRight(nll, l.right, r, Depth(that)));
    }
  }

  // ---------------------------------------------------------------------------
  // Whole histories: any expression over non-empty leaves and appends

  datatype Build<A> =
    | Of(item: A)
    | Make(first: A, rest: seq<A>)
    | Append(self: Build<A>, that: Build<A>)

  function Run<A>(b: Build<A>): Rope<A> {
    match b
    case Of(item) => Singleton(item)
    case Make(first, rest) => if rest == [] then Singleton(first) else Array([first] + rest)
    case Append(self, that) => AppendAll(Run(self), Run(that))
  }

  function Elements<A>(b: Build<A>): seq<A> {
    match b
    case Of(item) => [item]
    case Make(first, rest) => [first] + rest
    case Append(self, that) => Elements(self) + Elements(that)
  }

  // Every history ends in a balanced rope holding exactly the elements given, in order.
  lemma {:induction false} BuiltRopes<A>(b: Build<A>)
    ensures Balanced(Run(b)) && WellFormed(Run(b))
    ensures Contents(Run(b)) == Elements(b)
  {
    if b.Append? {
      BuiltRopes(b.self);
      BuiltRopes(b.that);
      AppendAllBalanced(Run(b.self), Run(b.that));
      BalancedIsSliceFree(Run(b.self));
      BalancedIsSliceFree(Run(b.that));
      SliceFreeNeverHits(Run(b.self), Run(b.that));
      AppendAllContents(Run(b.self), Run(b.that));
    }
    BalancedIsSliceFree(Run(b));
  }

  // ---------------------------------------------------------------------------
  // Size against depth

  function Fib(n: nat): nat {
    if n < 2 then n else Fib(n - 1) + Fib(n - 2)
  }

  lemma {:induction false} FibMonotone(m: nat, n: nat)
    requires m <= n
    ensures Fib(m) <= Fib(n)
    decreases n
  {
    if m < n {
      FibMonotone(m, n - 1);
    }
  }

  lemma LengthParts<A>(r: Rope<A>)
    requires Balanced(r)
    ensures if r.Concat? then Length(r) == Length(r.left) + Length(r.right) else Length(r) >= Fib(Depth(r) + 2)
  {
  }

  lemma FibStep(n: nat)
    ensures Fib(n + 2) == Fib(n + 1) + Fib(n)
  {
  }

  lemma {:induction false} FibonacciBound<A>(r: Rope<A>)
    requires Balanced(r)
    ensures Length(r) >= Fib(Depth(r) + 2)
  {
    hide *;
    BalancedParts(r);
    LengthParts(r);
    if r.Concat? {
      FibStep(Depth(r));
      FibonacciBound(r.left);
      FibonacciBound(r.right);
      FibMonotone(Depth(r), Depth(r.left) + 2);
      FibMonotone(Depth(r), Depth(r.right) + 2);
    }
  }

  function Pow2(n: nat): nat {
    if n == 0 then 1 else 2 * Pow2(n - 1)
  }

  lemma {:induction false} FibGrows(n: nat)
    ensures Fib(n + 2) >= Pow2(n / 2)
  {
    if n >= 2 {
      FibGrows(n - 2);
      FibMonotone(n, n + 1);
      FibStep(n);
      assert n / 2 == (n - 2) / 2 + 1;
    }
  }
}
