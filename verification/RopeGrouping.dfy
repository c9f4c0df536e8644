/** Loops that build or regroup chunks: `flatMap`, `chunksOf` and `split`. */
module RopeGrouping {
  import opened Sequences
  import opened Arithmetic
  import opened Rope
  import opened RopeBalance

  ghost predicate AllWellFormed<A>(ropes: seq<Rope<A>>) {
    forall r :: r in ropes ==> WellFormed(r)
  }

  ghost function Flat<A>(ropes: seq<Rope<A>>): seq<A>
    requires AllWellFormed(ropes)
  {
    if ropes == [] then [] else Flat(ropes[..|ropes| - 1]) + Contents(ropes[|ropes| - 1])
  }

  // Appending one rope after the other, starting from the empty chunk.
  function AppendEach<A>(ropes: seq<Rope<A>>): Rope<A> {
    if ropes == [] then Empty else AppendAll(AppendEach(ropes[..|ropes| - 1]), ropes[|ropes| - 1])
  }

  predicate SomeAppendHitsSlice<A>(ropes: seq<Rope<A>>) {
    exists k :: 0 <= k < |ropes| && HitsSlice(AppendEach(ropes[..k]), ropes[k])
  }

  // Folding appends concatenates everything exactly when no single append rotates a slice.
  lemma {:induction false} AppendEachContents<A>(ropes: seq<Rope<A>>)
    requires AllWellFormed(ropes)
    ensures WellFormed(AppendEach(ropes))
    ensures Contents(AppendEach(ropes)) == Flat(ropes) <==> !SomeAppendHitsSlice(ropes)
    ensures Length(AppendEach(ropes)) <= |Flat(ropes)|
  {
    if ropes != [] {
      var init, last := ropes[..|ropes| - 1], ropes[|ropes| - 1];
      var before := AppendEach(init);
      AppendEachParts(ropes);
      hide AppendEach, Flat, HitsSlice, AppendAll, Contents, WellFormed, SomeAppendHitsSlice;
      AppendEachContents(init);
      AppendAllContents(before, last);
      HitsSplit(ropes);
      Cancel([], Contents(before), Flat(init), Contents(last));
      NothingBefore(Contents(before), Contents(last));
      NothingBefore(Flat(init), Contents(last));
    }
  }

  lemma NothingBefore<T>(a: seq<T>, b: seq<T>)
    ensures [] + a + b == a + b
  {
  }

  lemma AppendEachParts<A>(ropes: seq<Rope<A>>)
    requires ropes != [] && AllWellFormed(ropes)
    ensures var init, last := ropes[..|ropes| - 1], ropes[|ropes| - 1];
      && AllWellFormed(init) && WellFormed(last)
      && AppendEach(ropes) == AppendAll(AppendEach(init), last) && Flat(ropes) == Flat(init) + Contents(last)
  {
  }

  lemma HitsSplit<A>(ropes: seq<Rope<A>>)
    requires ropes != []
    ensures var init := ropes[..|ropes| - 1];
      SomeAppendHitsSlice(ropes) <==> SomeAppendHitsSlice(init) || HitsSlice(AppendEach(init), ropes[|ropes| - 1])
  {
    var init := ropes[..|ropes| - 1];
    assert forall k :: 0 <= k < |init| ==> init[..k] == ropes[..k];
    if SomeAppendHitsSlice(ropes) {
      var k :| 0 <= k < |ropes| && HitsSlice(AppendEach(ropes[..k]), ropes[k]);
      if k < |init| {
        assert HitsSlice(AppendEach(init[..k]), init[k]);
      }
    }
    if SomeAppendHitsSlice(init) {
      var k :| 0 <= k < |init| && HitsSlice(AppendEach(init[..k]), init[k]);
      assert HitsSlice(AppendEach(ropes[..k]), ropes[k]);
    }
  }

  lemma {:induction false} SliceFreeEach<A>(ropes: seq<Rope<A>>)
    requires forall r :: r in ropes ==> WellFormed(r) && SliceFree(r)
    ensures SliceFree(AppendEach(ropes)) && WellFormed(AppendEach(ropes))
    ensures Contents(AppendEach(ropes)) == Flat(ropes)
  {
    if ropes != [] {
      var init, last := ropes[..|ropes| - 1], ropes[|ropes| - 1];
      SliceFreeEach(init);
      SliceFreeNeverHits(AppendEach(init), last);
      AppendAllContents(AppendEach(init), last);
    }
  }

  // Appending balanced ropes one after the other ends in a balanced rope.
  lemma {:induction false} AppendEachBalanced<A>(ropes: seq<Rope<A>>)
    requires ropes != [] && forall r :: r in ropes ==> Balanced(r)
    ensures Balanced(AppendEach(ropes))
  {
    var init, last := ropes[..|ropes| - 1], ropes[|ropes| - 1];
    if init != [] {
      AppendEachBalanced(init);
      AppendAllBalanced(AppendEach(init), last);
    }
  }

  // f applied to every element with its position.
  function Images<A, B>(items: seq<A>, f: (A, nat) -> Rope<B>): (ropes: seq<Rope<B>>)
    ensures |ropes| == |items| && forall i :: 0 <= i < |items| ==> ropes[i] == f(items[i], i)
  {
    seq(|items|, i requires 0 <= i < |items| => f(items[i], i))
  }

  method FlatMap<A, B>(self: Rope<A>, items: seq<A>, f: (A, nat) -> Rope<B>) returns (out: Rope<B>)
    requires WellFormed(self) && items == Contents(self)
    ensures out == AppendEach(Images(items, f))
  {
    ghost var images := Images(items, f);
    assert images[..|images|] == images;
    if self.Singleton? {
      assert images == [f(self.item, 0)] && images[..0] == [];
      return f(self.item, 0);
    }
    out := Empty;
    var i := 0;
    while i < |items|
      invariant 0 <= i <= |items|
      invariant out == AppendEach(images[..i])
    {
      assert images[..i + 1][..i] == images[..i];
      out := AppendAll(out, f(items[i], i));
      i := i + 1;
    }
  }

  // The images are concatenated exactly when no append along the way rotates a slice, and
  // always when every image is slice-free.
  lemma FlatMapContents<A, B>(items: seq<A>, f: (A, nat) -> Rope<B>)
    requires AllWellFormed(Images(items, f))
    ensures var images := Images(items, f);
      && WellFormed(AppendEach(images))
      && (Contents(AppendEach(images)) == Flat(images) <==> !SomeAppendHitsSlice(images))
      && ((forall r :: r in images ==> SliceFree(r)) ==> Contents(AppendEach(images)) == Flat(images))
  {
    var images := Images(items, f);
    AppendEachContents(images);
    if forall r :: r in images ==> SliceFree(r) {
      SliceFreeEach(images);
    }
  }

  // ---------------------------------------------------------------------------
  // chunksOf and split

  function Groups<A>(items: seq<A>, n: int): seq<seq<A>>
    decreases |items|
  {
    var k := Max(n, 1);
    if items == [] then []
    else if |items| <= k then [items]
    else [items[..k]] + Groups(items[k..], n)
  }

  function Joined<A>(groups: seq<seq<A>>): seq<A> {
    if groups == [] then [] else groups[0] + Joined(groups[1..])
  }

  // All groups have k elements but a last one with what remains.
  ghost predicate Sized<A>(groups: seq<seq<A>>, total: int, k: int) {
    && (groups == [] <==> total == 0)
    && (forall i :: 0 <= i < |groups| - 1 ==> |groups[i]| == k)
    && (groups != [] ==>
          var last := |groups[|groups| - 1]|;
          last == total - k * (|groups| - 1) && 0 < last <= k)
  }

  lemma SizedCons<A>(group: seq<A>, rest: seq<seq<A>>, total: int, k: int)
    requires total > 0 && |group| == k && Sized(rest, total, k)
    ensures Sized([group] + rest, total + k, k)
  {
    var groups := [group] + rest;
    MulStep(k, |rest| - 1);
    assert groups[|groups| - 1] == rest[|rest| - 1];
  }

  // Regrouping keeps every element in order, in groups of the size asked for.
  lemma {:induction false} GroupsPartition<A>(items: seq<A>, n: int)
    ensures Joined(Groups(items, n)) == items && Sized(Groups(items, n), |items|, Max(n, 1))
    decreases |items|
  {
    var k := Max(n, 1);
    if |items| > k {
      var rest := Groups(items[k..], n);
      GroupsPartition(items[k..], n);
      SizedCons(items[..k], rest, |items| - k, k);
      assert ([items[..k]] + rest)[1..] == rest;
    } else if items != [] {
      assert [items][1..] == [];
    }
  }

  lemma {:induction false} GroupsSnoc<A>(items: seq<A>, count: nat, group: seq<A>, n: int)
    requires |items| == Max(n, 1) * count && 0 < |group| <= Max(n, 1)
    ensures Groups(items + group, n) == Groups(items, n) + [group]
    decreases count
  {
    var k := Max(n, 1);
    if count == 0 {
      assert items + group == group;
    } else {
      assert k * count == k * (count - 1) + k;
      MulMonotone(k, 0, count - 1);
      if count == 1 {
        assert (items + group)[..k] == items && (items + group)[k..] == group;
      } else {
        MulMonotone(k, 1, count - 1);
        GroupsSnoc(items[k..], count - 1, group, n);
        assert (items + group)[..k] == items[..k] && (items + group)[k..] == items[k..] + group;
      }
    }
  }

  method ChunksOf<A>(items: seq<A>, n: int) returns (out: Rope<Rope<A>>)
    ensures out.Array? && |out.items| == |Groups(items, n)|
    ensures forall i :: 0 <= i < |out.items| ==> out.items[i] == Array(Groups(items, n)[i])
  {
    var gr: seq<Rope<A>> := [];
    var current: seq<A> := [];
    ghost var grouped: seq<A>, done: seq<seq<A>> := [], [];
    ghost var k := Max(n, 1);
    var i := 0;
    while i < |items|
      invariant 0 <= i <= |items| && items[..i] == grouped + current
      invariant |current| < k && |grouped| == k * |done| && done == Groups(grouped, n)
      invariant |gr| == |done| && forall j :: 0 <= j < |gr| ==> gr[j] == Array(done[j])
    {
      current := current + [items[i]];
      i := i + 1;
      assert items[..i] == grouped + current;
      if |current| >= n {
        GroupsSnoc(grouped, |done|, current, n);
        assert k * (|done| + 1) == k * |done| + k;
        gr := gr + [Array(current)];
        grouped, done := grouped + current, done + [current];
        current := [];
      }
    }
    assert items[..i] == items;
    if |current| > 0 {
      GroupsSnoc(grouped, |done|, current, n);
      gr := gr + [Array(current)];
      done := done + [current];
    }
    out := Array(gr);
  }

  // Math.ceil(length / n); dividing by zero gives infinity, and so a single group.
  function SplitSize(length: nat, n: int): int {
    if n == 0 then length
    else if n < 0 then -(length / -n)
    else -((0 - length) / n)
  }

  ghost predicate EquallySized<A>(groups: seq<seq<A>>) {
    forall i, j :: 0 <= i < j < |groups| ==> |groups[i]| == |groups[j]|
  }

  lemma SizesAgree<A>(groups: seq<seq<A>>, total: int, k: int)
    requires Sized(groups, total, k) && groups != []
    ensures EquallySized(groups) <==> |groups| == 1 || |groups[|groups| - 1]| == k
  {
    if EquallySized(groups) && |groups| > 1 {
      assert |groups[0]| == |groups[|groups| - 1]|;
    }
  }

  // The groups `split` makes: as large as needed for n of them, and no larger.
  lemma SplitSizes<A>(items: seq<A>, n: int)
    requires items != []
    ensures var k := SplitSize(|items|, n);
      && (n >= 1 ==>
            k >= 1 && (k - 1) * n < |items| <= k * n && Sized(Groups(items, k), |items|, k))
      && (n == 0 ==> Groups(items, k) == [items])
      && (n < 0 ==> Sized(Groups(items, k), |items|, 1))
  {
    hide Groups, Sized, SplitSize;
    var k := SplitSize(|items|, n);
    GroupsPartition(items, k);
    if n >= 1 {
      SplitSizeMeans(|items|, n);
      OneLess(k, n);
    } else {
      SplitSizeOtherwise(|items|, n);
      if n == 0 {
        OneGroup(items, k);
      }
    }
  }

  lemma OneLess(k: int, n: int)
    ensures (k - 1) * n == k * n - n
  {
  }

  lemma OneGroup<A>(items: seq<A>, n: int)
    requires 0 < |items| <= n
    ensures Groups(items, n) == [items]
  {
  }

  lemma SplitSizeOtherwise(len: nat, n: int)
    requires n <= 0
    ensures if n == 0 then SplitSize(len, n) == len else SplitSize(len, n) <= 0
  {
  }

  // `split` promises n equally sized chunks; it keeps that promise exactly when n divides a
  // non-zero length or nothing is split into nothing. For positive n it never makes more than n.
  lemma SplitEvenly<A>(items: seq<A>, n: int)
    ensures var gs := Groups(items, SplitSize(|items|, n));
      && (n >= 1 ==> |gs| <= n)
      && (|gs| == n && EquallySized(gs) <==>
            (n == 0 && items == []) || (n >= 1 && |items| > 0 && |items| % n == 0))
  {
    assert EquallySized<A>([]);
    hide Groups, EquallySized;
    var len := |items|;
    var k := SplitSize(len, n);
    var gs := Groups(items, k);
    GroupsPartition(items, k);
    if len > 0 && n >= 1 {
      SplitSizeMeans(len, n);
      SizesAgree(gs, len, k);
      GroupCount(len, n, k, |gs|, |gs[|gs| - 1]|);
    }
  }

  // Three elements split in two make a pair and a single.
  lemma SplitCanBeUneven()
    ensures Groups([1, 2, 3], SplitSize(3, 2)) == [[1, 2], [3]]
    ensures !EquallySized(Groups([1, 2, 3], SplitSize(3, 2)))
  {
    assert [1, 2, 3][..2] == [1, 2] && [1, 2, 3][2..] == [3];
    assert Groups([3], 2) == [[3]];
    var gs := Groups([1, 2, 3], SplitSize(3, 2));
    assert |gs[0]| != |gs[1]|;
  }

  lemma SplitSizeMeans(len: nat, n: int)
    requires n >= 1 && len > 0
    ensures var k := SplitSize(len, n);
      k >= 1 && 0 <= k * n - len < n && (len % n == 0 <==> k * n == len)
  {
    var k := SplitSize(len, n);
    var r := (0 - len) % n;
    assert 0 - len == n * (-k) + r;
    assert n * (-k) == -(k * n);
    if k <= 0 {
      MulMonotone(n, k, 0);
    }
    if r == 0 {
      MultipleMod(n, k);
    } else {
      MulStep(n, k - 1);
      DivUnique(len, n, k - 1, n - r);
    }
  }

  lemma GroupCount(len: nat, n: int, k: int, groups: int, last: int)
    requires n >= 1 && k >= 1 && len > 0 && 0 <= k * n - len < n
    requires groups >= 1 && last == len - k * (groups - 1) && 0 < last <= k
    ensures groups <= n
    ensures groups == n && (groups == 1 || last == k) <==> k * n == len
  {
    MulStep(k, n - 1);
    if groups > n {
      MulMonotone(k, n, groups - 1);
    } else if groups < n && k * n == len {
      MulMonotone(k, groups - 1, n - 2);
      MulStep(k, n - 2);
    }
  }
}
