/**
 What flattening may do to the shape of a rope: any nodes below it turn into arrays of
 their contents while every ancestor keeps the depth it had stored.
 */
module RopeFlattening {
  import opened Rope
  import opened RopeIndexing

  // Reading a whole chunk flattens any node, reversing flattens the slices it meets.
  datatype Extent = AnyNode | SlicesOnly

  predicate MayFlatten<A>(extent: Extent, r: Rope<A>) {
    match extent
    case AnyNode => !r.Empty?
    case SlicesOnly => r.Slice?
  }

  ghost predicate Flattened<A>(extent: Extent, before: Rope<A>, after: Rope<A>)
    requires WellFormed(before)
  {
    || before == after
    || (MayFlatten(extent, before) && after == Array(Contents(before)))
    || (before.Concat? && after.Concat? && after.level == before.level
        && Flattened(extent, before.left, after.left) && Flattened(extent, before.right, after.right))
  }

  // Nothing that reads a rope can tell: same elements, same length, same result at every index.
  lemma {:induction false} FlatteningKeepsContents<A>(extent: Extent, before: Rope<A>, after: Rope<A>)
    requires WellFormed(before) && Flattened(extent, before, after)
    ensures WellFormed(after)
    ensures Contents(after) == Contents(before) && Length(after) == Length(before)
    ensures SliceFree(before) ==> SliceFree(after)
  {
    if before.Concat? && after.Concat? && before != after {
      FlatteningKeepsContents(extent, before.left, after.left);
      FlatteningKeepsContents(extent, before.right, after.right);
    }
  }

  lemma {:induction false} FlattenedTransitive<A>(extent: Extent, r: Rope<A>, r': Rope<A>, r'': Rope<A>)
    requires WellFormed(r) && Flattened(extent, r, r') && WellFormed(r') && Flattened(extent, r', r'')
    ensures Flattened(extent, r, r'')
  {
    FlatteningKeepsContents(extent, r, r');
    if r.Concat? && r'.Concat? && r''.Concat? && r != r' && r' != r'' {
      FlattenedTransitive(extent, r.left, r'.left, r''.left);
      FlattenedTransitive(extent, r.right, r'.right, r''.right);
    }
  }

  // Flattening slices alone is invisible to `reverse`, and does nothing where there are none.
  lemma {:induction false} ReverseAfterFlattening<A>(before: Rope<A>, after: Rope<A>)
    requires WellFormed(before) && Flattened(SlicesOnly, before, after)
    ensures WellFormed(after) && Reverse(after) == Reverse(before)
    ensures SliceFree(before) ==> after == before
  {
    if before.Concat? && before != after {
      ReverseAfterFlattening(before.left, after.left);
      ReverseAfterFlattening(before.right, after.right);
    }
  }

  // Whatever was flattened in either operand beforehand, appending concatenates exactly when its
  // descent on the flattened shapes rotates no slice, and always on slice-free ropes.
  lemma AppendAfterFlattening<A>(self: Rope<A>, that: Rope<A>, self': Rope<A>, that': Rope<A>)
    requires WellFormed(self) && WellFormed(that)
    requires Flattened(AnyNode, self, self') && Flattened(AnyNode, that, that')
    ensures WellFormed(AppendAll(self', that'))
    ensures Contents(AppendAll(self', that')) == Contents(self) + Contents(that) <==> !HitsSlice(self', that')
    ensures SliceFree(self) && SliceFree(that) ==>
      SliceFree(AppendAll(self', that')) && Contents(AppendAll(self', that')) == Contents(self) + Contents(that)
  {
    FlatteningKeepsContents(AnyNode, self, self');
    FlatteningKeepsContents(AnyNode, that, that');
    if SliceFree(self) && SliceFree(that) {
      SliceFreeNeverHits(self', that');
    }
    AppendAllContents(self', that');
  }

  // Without slice-freedom appending loses elements: here 2 and 3 vanish.
  lemma AppendLosesSlice()
    ensures var self := AppendAll(Singleton(1), Take(Array([2, 3, 4]), 2));
      && WellFormed(self) && Contents(self) == [1, 2, 3]
      && HitsSlice(self, Singleton(5))
      && WellFormed(AppendAll(self, Singleton(5)))
      && Contents(AppendAll(self, Singleton(5))) == [1, 5]
  {
    var slice := Slice(Array([2, 3, 4]), 0, 2);
    assert Take(Array([2, 3, 4]), 2) == slice;
    var self := AppendAll(Singleton(1), slice);
    assert self == Concat(Singleton(1), slice, 2);
    LosesSlice(self, Singleton(5));
    hide AppendAll, HitsSlice, Take;
  }

  lemma LosesSlice(self: Rope<int>, last: Rope<int>)
    requires self == Concat(Singleton(1), Slice(Array([2, 3, 4]), 0, 2), 2) && last == Singleton(5)
    ensures HitsSlice(self, last) && WellFormed(AppendAll(self, last)) && Contents(AppendAll(self, last)) == [1, 5]
  {
    assert AppendAll(self, last) == RotateLeft(self.left, Empty, AppendAll(Empty, last), 2);
    RotatedLeft(self.left, Empty, last, 2);
  }

  // And there the cache shows: appending 6 is exact until the left child gets flattened, and
  // loses 3 and 4 afterwards.
  lemma FlatteningShowsNextToSlices()
    ensures var before := AppendAll(AppendAll(Singleton(1), Singleton(2)), Take(Array([3, 4, 5]), 2));
      var after := Concat(Array([1, 2]), Slice(Array([3, 4, 5]), 0, 2), 2);
      && WellFormed(before) && Flattened(AnyNode, before, after)
      && !HitsSlice(before, Singleton(6)) && HitsSlice(after, Singleton(6))
      && WellFormed(AppendAll(before, Singleton(6))) && Contents(AppendAll(before, Singleton(6))) == [1, 2, 3, 4, 6]
      && WellFormed(AppendAll(after, Singleton(6))) && Contents(AppendAll(after, Singleton(6))) == [1, 2, 6]
  {
    hide *;
    BuiltBefore();
    var before := Concat(Concat(Singleton(1), Singleton(2), 1), Slice(Array([3, 4, 5]), 0, 2), 2);
    var after := Concat(Array([1, 2]), Slice(Array([3, 4, 5]), 0, 2), 2);
    BeforeFlattening(before, Singleton(6));
    AfterFlattening(after, Singleton(6));
    PairFlattened(before, after);
  }

  lemma BuiltBefore()
    ensures AppendAll(AppendAll(Singleton(1), Singleton(2)), Take(Array([3, 4, 5]), 2))
      == Concat(Concat(Singleton(1), Singleton(2), 1), Slice(Array([3, 4, 5]), 0, 2), 2)
  {
    assert AppendAll(Singleton(1), Singleton(2)) == Concat(Singleton(1), Singleton(2), 1);
    assert Take(Array([3, 4, 5]), 2) == Slice(Array([3, 4, 5]), 0, 2);
  }

  lemma PairFlattened(before: Rope<int>, after: Rope<int>)
    requires before == Concat(Concat(Singleton(1), Singleton(2), 1), Slice(Array([3, 4, 5]), 0, 2), 2)
    requires after == Concat(Array([1, 2]), Slice(Array([3, 4, 5]), 0, 2), 2)
    ensures WellFormed(before) && Flattened(AnyNode, before, after)
  {
    assert Contents(before.left) == [1, 2];
    assert Flattened(AnyNode, before.left, after.left);
  }

  lemma BeforeFlattening(before: Rope<int>, last: Rope<int>)
    requires before == Concat(Concat(Singleton(1), Singleton(2), 1), Slice(Array([3, 4, 5]), 0, 2), 2)
    requires last == Singleton(6)
    ensures WellFormed(before) && !HitsSlice(before, last)
    ensures WellFormed(AppendAll(before, last)) && Contents(AppendAll(before, last)) == [1, 2, 3, 4, 6]
  {
    assert [3, 4, 5][0..2] == [3, 4];
    assert Contents(before) == [1, 2, 3, 4];
    AppendAllContents(before, last);
  }

  lemma AfterFlattening(after: Rope<int>, last: Rope<int>)
    requires after == Concat(Array([1, 2]), Slice(Array([3, 4, 5]), 0, 2), 2) && last == Singleton(6)
    ensures WellFormed(after) && HitsSlice(after, last)
    ensures WellFormed(AppendAll(after, last)) && Contents(AppendAll(after, last)) == [1, 2, 6]
  {
    assert AppendAll(after, last) == RotateLeft(after.left, Empty, AppendAll(Empty, last), 2);
    RotatedLeft(after.left, Empty, last, 2);
  }
}
