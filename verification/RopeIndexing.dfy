/**
 Reading and cutting ropes: `unsafeGet`, `get`, `take`, `drop`, `splitAt` and
 `reverse`, slices included.
 */
module RopeIndexing {
  import opened Sequences
  import opened Arithmetic
  import opened Options
  import opened Rope
  import RopeBalance

  // None is the "Index out of bounds" error.
  function UnsafeGet<A>(r: Rope<A>, index: int): Option<A> {
    match r
    case Empty => None
    case Singleton(item) => if index != 0 then None else Some(item)
    case Array(items) => if index >= |items| || index < 0 then None else Some(items[index])
    case Concat(left, right, _) =>
      if index < Length(left) then UnsafeGet(left, index) else UnsafeGet(right, index - Length(left))
    case Slice(chunk, offset, _) => UnsafeGet(chunk, index + offset)
  }

  function Get<A>(r: Rope<A>, index: int): Option<A> {
    if index < 0 || index >= Length(r) then None else UnsafeGet(r, index)
  }

  lemma {:induction false} UnsafeGetInBounds<A>(r: Rope<A>, index: int)
    requires WellFormed(r)
    requires 0 <= index < Length(r)
    ensures UnsafeGet(r, index) == Some(Contents(r)[index])
  {
    if r.Concat? {
      if index < Length(r.left) {
        UnsafeGetInBounds(r.left, index);
      } else {
        UnsafeGetInBounds(r.right, index - Length(r.left));
      }
    }
  }

  lemma GetIsIndexing<A>(r: Rope<A>, index: int)
    requires WellFormed(r)
    ensures Get(r, index) == if 0 <= index < Length(r) then Some(Contents(r)[index]) else None
  {
    if 0 <= index < Length(r) {
      UnsafeGetInBounds(r, index);
    }
  }

  // What of its array sticks out on either side of the slice at the edge of the rope.
  ghost function HiddenBefore<A>(r: Rope<A>): seq<A>
    requires WellFormed(r)
  {
    match r
    case Slice(chunk, offset, _) => chunk.items[..offset]
    case Concat(left, _, _) => HiddenBefore(left)
    case _ => []
  }

  ghost function HiddenAfter<A>(r: Rope<A>): seq<A>
    requires WellFormed(r)
  {
    match r
    case Slice(chunk, offset, count) => chunk.items[offset + count..]
    case Concat(_, right, _) => HiddenAfter(right)
    case _ => []
  }

  // `unsafeGet` throws on exactly the indices outside the window that edge slices leave open, and
  // reads their arrays inside it.
  lemma {:induction false} UnsafeGetBounds<A>(r: Rope<A>, index: int)
    requires WellFormed(r)
    ensures var window := HiddenBefore(r) + Contents(r) + HiddenAfter(r);
      var position := |HiddenBefore(r)| + index;
      UnsafeGet(r, index) == if 0 <= position < |window| then Some(window[position]) else None
  {
    if r.Concat? {
      UnsafeGetBounds(r.left, index);
      UnsafeGetBounds(r.right, index - Length(r.left));
      hide UnsafeGet;
    } else if r.Slice? {
      var items := r.chunk.items;
      assert items == items[..r.offset] + items[r.offset..r.offset + r.count] + items[r.offset + r.count..];
    }
  }

  // ---------------------------------------------------------------------------
  // The cost of reading

  // `unsafeGet` together with the number of nodes it looks at.
  function CountedGet<A>(r: Rope<A>, index: int): (Option<A>, nat) {
    match r
    case Concat(left, right, _) =>
      var (item, visited) :=
        if index < Length(left) then CountedGet(left, index) else CountedGet(right, index - Length(left));
      (item, visited + 1)
    case Slice(chunk, offset, _) =>
      var (item, visited) := CountedGet(chunk, index + offset);
      (item, visited + 1)
    case _ => (UnsafeGet(r, index), 1)
  }

  lemma {:induction false} CountedGetIsUnsafeGet<A>(r: Rope<A>, index: int)
    ensures CountedGet(r, index).0 == UnsafeGet(r, index)
    decreases r
  {
    match r {
      case Concat(left, right, _) =>
        if index < Length(left) {
          CountedGetIsUnsafeGet(left, index);
        } else {
          CountedGetIsUnsafeGet(right, index - Length(left));
        }
      case Slice(chunk, offset, _) => CountedGetIsUnsafeGet(chunk, index + offset);
      case _ =>
    }
  }

  lemma {:induction false} VisitsWithinDepth<A>(r: Rope<A>, index: int)
    requires RopeBalance.Balanced(r)
    ensures 1 <= CountedGet(r, index).1 <= Depth(r) + 1
    decreases r
  {
    if r.Concat? {
      if index < Length(r.left) {
        VisitsWithinDepth(r.left, index);
      } else {
        VisitsWithinDepth(r.right, index - Length(r.left));
      }
    }
  }

  lemma {:induction false} NothingHidden<A>(r: Rope<A>)
    requires SliceFree(r)
    ensures WellFormed(r) && HiddenBefore(r) == HiddenAfter(r) == []
  {
    if r.Concat? {
      NothingHidden(r.left);
      NothingHidden(r.right);
    }
  }

  // On a rope built by appends `unsafeGet` is indexing, throwing exactly out of bounds, and it
  // visits p nodes only when there are at least 2^((p - 1) / 2) elements.
  lemma IndexingIsLogarithmic<A>(b: RopeBalance.Build<A>, index: int)
    ensures var (item, visited) := CountedGet(RopeBalance.Run(b), index);
      var elements := RopeBalance.Elements(b);
      && item == UnsafeGet(RopeBalance.Run(b), index)
      && item == (if 0 <= index < |elements| then Some(elements[index]) else None)
      && visited >= 1 && RopeBalance.Pow2((visited - 1) / 2) <= |elements|
  {
    hide *;
    var r := RopeBalance.Run(b);
    RopeBalance.BuiltRopes(b);
    CountedGetIsUnsafeGet(r, index);
    RopeBalance.BalancedIsSliceFree(r);
    NothingHidden(r);
    UnsafeGetBounds(r, index);
    if 0 <= index < Length(r) {
      UnsafeGetInBounds(r, index);
    }
    RopeBalance.FibonacciBound(r);
    VisitsWithinDepth(r, index);
    var n := CountedGet(r, index).1 - 1;
    RopeBalance.FibGrows(n);
    RopeBalance.FibMonotone(n + 2, Depth(r) + 2);
  }

  // ---------------------------------------------------------------------------
  // take and drop

  function Take<A>(r: Rope<A>, n: int): Rope<A> {
    if n <= 0 then Empty
    else if n >= Length(r) then r
    else match r
      case Slice(chunk, offset, _) => Slice(chunk, offset, n)
      case Concat(left, right, _) =>
        if n > Length(left) then Node(left, Take(right, n - Length(left))) else Take(left, n)
      case _ => Slice(r, 0, n)
  }

  function Drop<A>(r: Rope<A>, n: int): Rope<A> {
    if n <= 0 then r
    else if n >= Length(r) then Empty
    else match r
      case Slice(chunk, offset, count) => Slice(chunk, offset + n, count - n)
      case Concat(left, right, _) =>
        if n > Length(left) then Drop(right, n - Length(left)) else Node(Drop(left, n), right)
      case _ => Slice(r, n, Length(r) - n)
  }

  lemma TakeCases<A>(r: Rope<A>, n: int)
    ensures n <= 0 ==> Take(r, n) == Empty
    ensures n >= Length(r) && n > 0 ==> Take(r, n) == r
    ensures 0 < n < Length(r) ==>
      && (r.Slice? ==> Take(r, n) == Slice(r.chunk, r.offset, n))
      && (r.Concat? && n > Length(r.left) ==> Take(r, n) == Node(r.left, Take(r.right, n - Length(r.left))))
      && (r.Concat? && n <= Length(r.left) ==> Take(r, n) == Take(r.left, n))
      && (r.Array? ==> Take(r, n) == Slice(r, 0, n))
  {
  }

  lemma DropCases<A>(r: Rope<A>, n: int)
    ensures n <= 0 ==> Drop(r, n) == r
    ensures n >= Length(r) && n > 0 ==> Drop(r, n) == Empty
    ensures 0 < n < Length(r) ==>
      && (r.Slice? && n <= r.count ==> Drop(r, n) == Slice(r.chunk, r.offset + n, r.count - n))
      && (r.Concat? && n > Length(r.left) ==> Drop(r, n) == Drop(r.right, n - Length(r.left)))
      && (r.Concat? && n <= Length(r.left) ==> Drop(r, n) == Node(Drop(r.left, n), r.right))
      && (r.Array? ==> Drop(r, n) == Slice(r, n, Length(r) - n))
  {
  }

  function Clamp(n: int, size: nat): nat {
    if n < 0 then 0 else if n > size then size else n
  }

  // A prefix, and slices only ever land on arrays.
  lemma {:induction false} TakeIsPrefix<A>(r: Rope<A>, n: int)
    requires WellFormed(r)
    ensures WellFormed(Take(r, n))
    ensures Contents(Take(r, n)) == Contents(r)[..Clamp(n, Length(r))]
  {
    TakeCases(r, n);
    hide Take, Depth;
    if 0 < n < Length(r) {
      if r.Concat? {
        ConcatParts(r);
        hide Contents, WellFormed, Node;
        PrefixOfConcat(Contents(r.left), Contents(r.right), n);
        if n > Length(r.left) {
          TakeIsPrefix(r.right, n - Length(r.left));
          NodeContents(r.left, Take(r.right, n - Length(r.left)));
        } else {
          TakeIsPrefix(r.left, n);
        }
      } else if r.Slice? {
        SliceOfSlice(r.chunk.items, r.offset, r.count, n);
      }
    }
  }

  lemma {:induction false} DropIsSuffix<A>(r: Rope<A>, n: int)
    requires WellFormed(r)
    ensures WellFormed(Drop(r, n))
    ensures Contents(Drop(r, n)) == Contents(r)[Clamp(n, Length(r))..]
  {
    DropCases(r, n);
    hide Drop, Depth;
    if 0 < n < Length(r) {
      if r.Concat? {
        ConcatParts(r);
        hide Contents, WellFormed, Node;
        SuffixOfConcat(Contents(r.left), Contents(r.right), n);
        if n > Length(r.left) {
          DropIsSuffix(r.right, n - Length(r.left));
        } else {
          DropIsSuffix(r.left, n);
          NodeContents(Drop(r.left, n), r.right);
        }
      } else if r.Slice? {
        SliceOfSlice(r.chunk.items, r.offset, r.count, n);
      }
    }
  }

  // An index at the length is out of bounds, yet it reads the array behind a prefix taken from it.
  lemma UnsafeGetReadsPastEnd()
    ensures var r := Take(Array([2, 3, 4]), 2);
      WellFormed(r) && Length(r) == 2 && Contents(r) == [2, 3] && UnsafeGet(r, 2) == Some(4)
  {
    assert Take(Array([2, 3, 4]), 2) == Slice(Array([2, 3, 4]), 0, 2);
    assert [2, 3, 4][..2] == [2, 3];
  }

  function SplitAt<A>(r: Rope<A>, n: int): (Rope<A>, Rope<A>) {
    (Take(r, n), Drop(r, n))
  }

  function TakeRight<A>(r: Rope<A>, n: int): Rope<A> {
    Drop(r, Length(r) - n)
  }

  function DropRight<A>(r: Rope<A>, n: int): Rope<A> {
    Take(r, Max(0, Length(r) - n))
  }

  lemma SplitAtPartitions<A>(r: Rope<A>, n: int)
    requires WellFormed(r)
    ensures var (before, after) := SplitAt(r, n);
      && WellFormed(before) && WellFormed(after)
      && Contents(before) + Contents(after) == Contents(r)
      && Length(before) == Clamp(n, Length(r))
  {
    hide Take, Drop, Contents, WellFormed;
    TakeIsPrefix(r, n);
    DropIsSuffix(r, n);
    var k := Clamp(n, Length(r));
    assert Contents(r)[..k] + Contents(r)[k..] == Contents(r);
  }

  lemma RightHalvesPartition<A>(r: Rope<A>, n: int)
    requires WellFormed(r)
    ensures WellFormed(DropRight(r, n)) && WellFormed(TakeRight(r, n))
    ensures Contents(DropRight(r, n)) + Contents(TakeRight(r, n)) == Contents(r)
    ensures Length(TakeRight(r, n)) == Clamp(n, Length(r))
  {
    hide Take, Drop, Contents, WellFormed;
    SplitAtPartitions(r, Length(r) - n);
    TakeIsPrefix(r, Max(0, Length(r) - n));
  }

  // ---------------------------------------------------------------------------
  // reverse

  ghost function Reverse<A>(r: Rope<A>): Rope<A>
    requires WellFormed(r)
  {
    match r
    case Empty => r
    case Singleton(_) => r
    case Array(items) => Array(Reversed(items))
    case Concat(left, right, _) => Node(Reverse(right), Reverse(left))
    case Slice(_, _, _) => Array(Reversed(Contents(r)))
  }

  lemma ReverseParts<A>(r: Rope<A>)
    requires r.Concat? && WellFormed(r)
    ensures WellFormed(r.left) && WellFormed(r.right) && Reverse(r) == Node(Reverse(r.right), Reverse(r.left))
  {
  }

  // Reversing also rebuilds every stored depth, so a balanced rope stays balanced at the same depth.
  lemma {:induction false} ReverseContents<A>(r: Rope<A>)
    requires WellFormed(r)
    ensures WellFormed(Reverse(r))
    ensures Contents(Reverse(r)) == Reversed(Contents(r))
    ensures SliceFree(Reverse(r))
    ensures RopeBalance.Balanced(r) ==> RopeBalance.Balanced(Reverse(r)) && Depth(Reverse(r)) == Depth(r)
  {
    if r.Concat? {
      ReverseContents(r.left);
      ReverseContents(r.right);
      ReversedConcat(Contents(r.left), Contents(r.right));
    }
  }

  // So reversing twice yields the same elements on a rope that appends safely to anything slice-free.
  lemma ReverseTwice<A>(r: Rope<A>, that: Rope<A>)
    requires WellFormed(r) && WellFormed(that) && SliceFree(that)
    ensures WellFormed(Reverse(r)) && WellFormed(Reverse(Reverse(r)))
    ensures Contents(Reverse(Reverse(r))) == Contents(r)
    ensures WellFormed(AppendAll(Reverse(Reverse(r)), that))
    ensures Contents(AppendAll(Reverse(Reverse(r)), that)) == Contents(r) + Contents(that)
  {
    ReverseContents(r);
    ReverseContents(Reverse(r));
    ReversedTwice(Contents(r));
    SliceFreeNeverHits(Reverse(Reverse(r)), that);
    AppendAllContents(Reverse(Reverse(r)), that);
  }
}
