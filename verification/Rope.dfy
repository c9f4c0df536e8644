/**
 The immutable shape of a `Chunk`: a rope of arrays, singletons, slices and
 concatenations. A concatenation carries the depth that was stored when it was
 made. Nothing forces that depth to agree with the children, because flattening a
 shared child later lowers the child's depth and leaves its parents alone; every
 result below that does not ask for `Balanced` therefore holds for stale depths.
 */
module Rope {
  import opened Sequences
  import opened Arithmetic

  datatype Rope<A> =
    | Empty
    | Array(items: seq<A>)
    | Singleton(item: A)
    | Slice(chunk: Rope<A>, offset: nat, count: nat)
    | Concat(left: Rope<A>, right: Rope<A>, level: nat)

  function Depth<A>(r: Rope<A>): nat {
    match r
    case Slice(chunk, _, _) => Depth(chunk) + 1
    case Concat(_, _, level) => level
    case _ => 0
  }

  // The fields `left` and `right`: only a concatenation has proper children, every
  // other node points at the one empty chunk.
  function Left<A>(r: Rope<A>): (left: Rope<A>)
    ensures Depth(r) > 0 ==> Size(left) < Size(r)
  {
    if r.Concat? then r.left else Empty
  }

  function Right<A>(r: Rope<A>): (right: Rope<A>)
    ensures Depth(r) > 0 ==> Size(right) < Size(r)
  {
    if r.Concat? then r.right else Empty
  }

  // A freshly made concatenation, with its depth computed from the children.
  function Node<A>(left: Rope<A>, right: Rope<A>): Rope<A> {
    Concat(left, right, 1 + Max(Depth(left), Depth(right)))
  }

  // Slices are never empty, lie within bounds, and sit directly on an array.
  ghost predicate WellFormed<A>(r: Rope<A>) {
    match r
    case Slice(chunk, offset, count) => chunk.Array? && 0 < count && offset + count <= |chunk.items|
    case Concat(left, right, _) => WellFormed(left) && WellFormed(right)
    case _ => true
  }

  ghost predicate SliceFree<A>(r: Rope<A>) {
    match r
    case Slice(_, _, _) => false
    case Concat(left, right, _) => SliceFree(left) && SliceFree(right)
    case _ => true
  }

  ghost function Contents<A>(r: Rope<A>): seq<A>
    requires WellFormed(r)
  {
    match r
    case Empty => []
    case Array(items) => items
    case Singleton(item) => [item]
    case Slice(chunk, offset, count) => chunk.items[offset..offset + count]
    case Concat(left, right, _) => Contents(left) + Contents(right)
  }

  function Length<A>(r: Rope<A>): (n: nat)
    ensures WellFormed(r) ==> n == |Contents(r)|
  {
    match r
    case Empty => 0
    case Array(items) => |items|
    case Singleton(_) => 1
    case Slice(_, _, count) => count
    case Concat(left, right, _) => Length(left) + Length(right)
  }

  function Size<A>(r: Rope<A>): (n: nat)
    ensures n > 0
  {
    match r
    case Slice(chunk, _, _) => 1 + Size(chunk)
    case Concat(left, right, _) => 1 + Size(left) + Size(right)
    case _ => 1
  }

  // ---------------------------------------------------------------------------
  // Concatenation

  // The two shapes a rotation can produce.
  function RotateLeft<A>(l: Rope<A>, rl: Rope<A>, nrr: Rope<A>, depth: nat): Rope<A> {
    if Depth(nrr) == depth - 3 then Node(l, Node(rl, nrr)) else Node(Node(l, rl), nrr)
  }

  function RotateRight<A>(nll: Rope<A>, lr: Rope<A>, r: Rope<A>, depth: nat): Rope<A> {
    if Depth(nll) == depth - 3 then Node(Node(nll, lr), r) else Node(nll, Node(lr, r))
  }

  function AppendAll<A>(self: Rope<A>, that: Rope<A>): Rope<A>
    decreases Size(self) + Size(that)
  {
    if self.Empty? then that
    else if that.Empty? then self
    else
      var diff := Depth(that) - Depth(self);
      if -1 <= diff <= 1 then
        Node(self, that)
      else if diff < -1 then
        if Depth(Left(self)) >= Depth(Right(self)) then
          Node(Left(self), AppendAll(Right(self), that))
        else
          var nrr := AppendAll(Right(Right(self)), that);
          RotateLeft(Left(self), Left(Right(self)), nrr, Depth(self))
      else
        if Depth(Right(that)) >= Depth(Left(that)) then
          Node(AppendAll(self, Left(that)), Right(that))
        else
          var nll := AppendAll(self, Left(Left(that)));
          RotateRight(nll, Right(Left(that)), Right(that), Depth(that))
  }

  // The descent of `AppendAll` is about to rotate a slice as if it had children.
  predicate HitsSlice<A>(self: Rope<A>, that: Rope<A>)
    decreases Size(self) + Size(that)
  {
    if self.Empty? || that.Empty? then false
    else if Depth(that) < Depth(self) - 1 then
      if Depth(Left(self)) >= Depth(Right(self)) then HitsSlice(Right(self), that)
      else Right(self).Slice? || HitsSlice(Right(Right(self)), that)
    else if Depth(self) < Depth(that) - 1 then
      if Depth(Right(that)) >= Depth(Left(that)) then HitsSlice(self, Left(that))
      else Left(that).Slice? || HitsSlice(self, Left(Left(that)))
    else
      false
  }

  lemma NodeContents<A>(left: Rope<A>, right: Rope<A>)
    requires WellFormed(left) && WellFormed(right)
    ensures WellFormed(Node(left, right)) && Contents(Node(left, right)) == Contents(left) + Contents(right)
  {
  }

  lemma RotatedLeft<A>(l: Rope<A>, rl: Rope<A>, nrr: Rope<A>, depth: nat)
    requires WellFormed(l) && WellFormed(rl) && WellFormed(nrr)
    ensures WellFormed(RotateLeft(l, rl, nrr, depth))
    ensures Contents(RotateLeft(l, rl, nrr, depth)) == Contents(l) + Contents(rl) + Contents(nrr)
  {
    hide Node, Depth, Contents, WellFormed;
    NodeContents(rl, nrr);
    NodeContents(l, Node(rl, nrr));
    NodeContents(l, rl);
    NodeContents(Node(l, rl), nrr);
    Associative(Contents(l), Contents(rl), Contents(nrr));
  }

  lemma RotatedRight<A>(nll: Rope<A>, lr: Rope<A>, r: Rope<A>, depth: nat)
    requires WellFormed(nll) && WellFormed(lr) && WellFormed(r)
    ensures WellFormed(RotateRight(nll, lr, r, depth))
    ensures Contents(RotateRight(nll, lr, r, depth)) == Contents(nll) + (Contents(lr) + Contents(r))
  {
    hide Node, Depth, Contents, WellFormed;
    NodeContents(nll, lr);
    NodeContents(Node(nll, lr), r);
    NodeContents(lr, r);
    NodeContents(nll, Node(lr, r));
    Associative(Contents(nll), Contents(lr), Contents(r));
  }

  lemma AppendAllCases<A>(self: Rope<A>, that: Rope<A>)
    requires !self.Empty? && !that.Empty?
    ensures Depth(that) < Depth(self) - 1 ==>
      AppendAll(self, that) ==
        if Depth(Left(self)) >= Depth(Right(self)) then
          Node(Left(self), AppendAll(Right(self), that))
        else
          RotateLeft(Left(self), Left(Right(self)), AppendAll(Right(Right(self)), that), Depth(self))
    ensures Depth(self) < Depth(that) - 1 ==>
      AppendAll(self, that) ==
        if Depth(Right(that)) >= Depth(Left(that)) then
          Node(AppendAll(self, Left(that)), Right(that))
        else
          RotateRight(AppendAll(self, Left(Left(that))), Right(Left(that)), Right(that), Depth(that))
  {
  }

  lemma HitsSliceCases<A>(self: Rope<A>, that: Rope<A>)
    requires !self.Empty? && !that.Empty?
    ensures Depth(that) < Depth(self) - 1 ==>
      (HitsSlice(self, that) <==>
        if Depth(Left(self)) >= Depth(Right(self)) then HitsSlice(Right(self), that)
        else Right(self).Slice? || HitsSlice(Right(Right(self)), that))
    ensures Depth(self) < Depth(that) - 1 ==>
      (HitsSlice(self, that) <==>
        if Depth(Right(that)) >= Depth(Left(that)) then HitsSlice(self, Left(that))
        else Left(that).Slice? || HitsSlice(self, Left(Left(that))))
  {
  }

  lemma ConcatParts<A>(r: Rope<A>)
    requires r.Concat? && WellFormed(r)
    ensures WellFormed(r.left) && WellFormed(r.right) && Contents(r) == Contents(r.left) + Contents(r.right)
  {
  }

  lemma SliceNotEmpty<A>(r: Rope<A>)
    requires r.Slice? && WellFormed(r)
    ensures Contents(r) != []
  {
  }

  lemma AppendEmpty<A>(r: Rope<A>)
    ensures AppendAll(Empty, r) == r && AppendAll(r, Empty) == r
    ensures WellFormed(Rope<A>.Empty) && Contents(Rope<A>.Empty) == []
  {
  }

  // Appending concatenates exactly when no slice is rotated; otherwise elements go missing.
  lemma {:induction false} AppendAllContents<A>(self: Rope<A>, that: Rope<A>)
    requires WellFormed(self) && WellFormed(that)
    ensures WellFormed(AppendAll(self, that))
    ensures Contents(AppendAll(self, that)) == Contents(self) + Contents(that) <==> !HitsSlice(self, that)
    ensures HitsSlice(self, that) ==>
      Length(AppendAll(self, that)) < Length(self) + Length(that)
    decreases Size(self) + Size(that)
  {
    var diff := Depth(that) - Depth(self);
    if self.Empty? || that.Empty? || -1 <= diff <= 1 {
    } else if diff < -1 {
      AppendLeftDeeper(self, that);
    } else {
      AppendRightDeeper(self, that);
    }
  }

  lemma {:induction false} AppendLeftDeeper<A>(self: Rope<A>, that: Rope<A>)
    requires WellFormed(self) && WellFormed(that)
    requires !self.Empty? && !that.Empty? && Depth(that) < Depth(self) - 1
    ensures WellFormed(AppendAll(self, that))
    ensures Contents(AppendAll(self, that)) == Contents(self) + Contents(that) <==> !HitsSlice(self, that)
    ensures HitsSlice(self, that) ==>
      Length(AppendAll(self, that)) < Length(self) + Length(that)
    decreases Size(self) + Size(that), 0
  {
    var l, r := self.left, self.right;
    AppendAllCases(self, that);
    HitsSliceCases(self, that);
    ConcatParts(self);
    hide AppendAll, HitsSlice, Contents, WellFormed, Node, RotateLeft;
    if Depth(l) >= Depth(r) {
      var rec := AppendAll(r, that);
      AppendAllContents(r, that);
      NodeContents(l, rec);
      Associative(Contents(l), Contents(r), Contents(that));
      Cancel(Contents(l), Contents(rec), Contents(r) + Contents(that), []);
    } else if r.Slice? {
      AppendEmpty(that);
      RotatedLeft(l, Empty, that, Depth(self));
      SliceNotEmpty(r);
    } else {
      var rec := AppendAll(r.right, that);
      ConcatParts(r);
      AppendAllContents(r.right, that);
      RotatedLeft(l, r.left, rec, Depth(self));
      var inner := Contents(l) + Contents(r.left);
      Cancel(inner, Contents(rec), Contents(r.right) + Contents(that), []);
      Associative(Contents(l), Contents(r.left), Contents(r.right));
      Associative(inner, Contents(r.right), Contents(that));
    }
  }

  lemma {:induction false} AppendRightDeeper<A>(self: Rope<A>, that: Rope<A>)
    requires WellFormed(self) && WellFormed(that)
    requires !self.Empty? && !that.Empty? && Depth(self) < Depth(that) - 1
    ensures WellFormed(AppendAll(self, that))
    ensures Contents(AppendAll(self, that)) == Contents(self) + Contents(that) <==> !HitsSlice(self, that)
    ensures HitsSlice(self, that) ==>
      Length(AppendAll(self, that)) < Length(self) + Length(that)
    decreases Size(self) + Size(that), 0
  {
    var l, r := that.left, that.right;
    AppendAllCases(self, that);
    HitsSliceCases(self, that);
    ConcatParts(that);
    hide AppendAll, HitsSlice, Contents, WellFormed, Node, RotateRight;
    if Depth(r) >= Depth(l) {
      var rec := AppendAll(self, l);
      AppendAllContents(self, l);
      NodeContents(rec, r);
      Associative(Contents(self), Contents(l), Contents(r));
      Cancel([], Contents(rec), Contents(self) + Contents(l), Contents(r));
    } else if l.Slice? {
      AppendEmpty(self);
      RotatedRight(self, Empty, r, Depth(that));
      SliceNotEmpty(l);
    } else {
      var rec := AppendAll(self, l.left);
      ConcatParts(l);
      AppendAllContents(self, l.left);
      RotatedRight(rec, l.right, r, Depth(that));
      var inner := Contents(l.right) + Contents(r);
      Cancel([], Contents(rec), Contents(self) + Contents(l.left), inner);
      Associative(Contents(l.left), Contents(l.right), Contents(r));
      Associative(Contents(self), Contents(l.left), inner);
    }
  }

  lemma {:induction false} SliceFreeNeverHits<A>(self: Rope<A>, that: Rope<A>)
    requires SliceFree(self) && SliceFree(that)
    ensures !HitsSlice(self, that)
    ensures SliceFree(AppendAll(self, that))
    decreases Size(self) + Size(that)
  {
    if !self.Empty? && !that.Empty? {
      if Depth(that) < Depth(self) - 1 {
        if Depth(Left(self)) >= Depth(Right(self)) {
          SliceFreeNeverHits(Right(self), that);
        } else {
          SliceFreeNeverHits(Right(Right(self)), that);
        }
      } else if Depth(self) < Depth(that) - 1 {
        if Depth(Right(that)) >= Depth(Left(that)) {
          SliceFreeNeverHits(self, Left(that));
        } else {
          SliceFreeNeverHits(self, Left(Left(that)));
        }
      }
    }
  }
}
