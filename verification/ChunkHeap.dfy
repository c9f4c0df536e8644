/**
 Chunks as the objects they are: nodes that many chunks share, whose backing is
 overwritten in place by `toReadonlyArray`. `View` reads the rope a node currently
 stands for, stored depths included.
 */
module ChunkHeap {
  import opened Sequences
  import opened Arithmetic
  import opened Options
  import opened Rope
  import opened RopeFlattening
  import opened RopeIndexing
  import R = Rope

  datatype Backing<A(0)> =
    | IEmpty
    | IArray(items: seq<A>)
    | ISingleton(a: A)
    | IConcat(left: Chunk<A>, right: Chunk<A>)
    | ISlice(chunk: Chunk<A>, offset: nat, count: nat)

  // The sequence with items written over it from position at.
  function Spliced<T>(s: seq<T>, at: nat, items: seq<T>): (r: seq<T>)
    requires at + |items| <= |s|
    ensures |r| == |s|
    ensures forall i :: 0 <= i < |s| ==> r[i] == if at <= i < at + |items| then items[i - at] else s[i]
  {
    s[..at] + items + s[at + |items|..]
  }

  lemma SplicedTwice<T>(s: seq<T>, at: nat, x: seq<T>, y: seq<T>)
    requires at + |x| + |y| <= |s|
    ensures Spliced(Spliced(s, at, x), at + |x|, y) == Spliced(s, at, x + y)
  {
  }

  lemma SplicedStep<T>(s: seq<T>, at: nat, items: seq<T>, i: nat)
    requires at + |items| <= |s| && i < |items|
    ensures Spliced(s, at, items[..i])[at + i := items[i]] == Spliced(s, at, items[..i + 1])
  {
  }

  function Section<T>(s: seq<T>, from: nat, len: nat): seq<T>
    requires from <= |s|
  {
    s[from..if from + len < |s| then from + len else |s|]
  }

  class Chunk<A(0)> {
    var backing: Backing<A>
    var left: Chunk<A>
    var right: Chunk<A>
    var depth: nat
    const length: nat
    const nil: Chunk<A>  // the module-wide empty chunk
    ghost const Repr: set<Chunk<A>>

    ghost predicate IsNil()
      reads this
    {
      backing.IEmpty? && left == right == nil == this && depth == 0 && length == 0 && Repr == {this}
    }

    ghost predicate Owns(child: Chunk<A>) {
      child in Repr && child.Repr <= Repr && this !in child.Repr && child.nil == nil
    }

    ghost predicate Valid()
      reads this, Repr
      decreases Repr
    {
      && this in Repr && nil in Repr && nil.IsNil()
      && (!backing.IConcat? ==> left == right == nil)
      && match backing
         case IEmpty => this == nil
         case IArray(items) => depth == 0 && length == |items|
         case ISingleton(_) => depth == 0 && length == 1
         case IConcat(l, r) =>
           && left == l && right == r && Owns(l) && Owns(r) && l.Valid() && r.Valid()
           && length == l.length + r.length
         case ISlice(chunk, offset, count) =>
           && Owns(chunk) && chunk.Valid() && chunk.backing.IArray?
           && depth == 1 && 0 < count == length && offset + count <= chunk.length
    }

    ghost function View(): (r: Rope<A>)
      requires Valid()
      reads this, Repr
      ensures WellFormed(r) && Length(r) == length && Depth(r) == depth
      ensures backing.IEmpty? <==> r.Empty?
      ensures backing.IConcat? <==> r.Concat?
      decreases Repr
    {
      match backing
      case IEmpty => Empty
      case IArray(items) => Array(items)
      case ISingleton(a) => Singleton(a)
      case IConcat(l, r) => Concat(l.View(), r.View(), depth)
      case ISlice(chunk, offset, count) => Slice(chunk.View(), offset, count)
    }

    lemma Children()
      requires Valid()
      ensures left.Valid() && right.Valid()
      ensures left.View() == Left(View()) && right.View() == Right(View())
      ensures backing.IConcat? ==> left.View() == View().left && right.View() == View().right
      ensures left.nil == right.nil == nil
      ensures backing.IConcat? ==>
        left.Repr < Repr && right.Repr < Repr && Contents(View()) == Contents(left.View()) + Contents(right.View())
    {
    }

    // What a prefix or suffix is cut from when it is neither empty nor everything.
    lemma CutParts()
      requires Valid()
      ensures backing.ISlice? ==>
        && backing.chunk.Valid() && backing.chunk.backing.IArray? && backing.chunk.nil == nil
        && View() == Slice(backing.chunk.View(), backing.offset, backing.count)
        && backing.count == length && backing.offset + backing.count <= backing.chunk.length
      ensures length > 1 && !backing.ISlice? && !backing.IConcat? ==> backing.IArray? && View().Array?
      ensures nil.Valid() && nil.nil == nil && nil.View() == Empty
    {
    }

    lemma DeepIsNotEmpty()
      requires Valid()
      ensures depth > 0 ==> !backing.IEmpty?
    {
    }

    constructor MakeEmpty()
      ensures Valid() && View() == Empty && nil == this && fresh(Repr)
    {
      backing := IEmpty;
      left, right, nil := this, this, this;
      depth, length := 0, 0;
      Repr := {this};
    }

    constructor MakeArray(items: seq<A>, empty: Chunk<A>)
      requires empty.IsNil()
      ensures Valid() && View() == Array(items) && nil == empty && fresh(this)
    {
      backing := IArray(items);
      length, depth := |items|, 0;
      left, right, nil := empty, empty, empty;
      Repr := {this, empty};
    }

    constructor MakeSingleton(a: A, empty: Chunk<A>)
      requires empty.IsNil()
      ensures Valid() && View() == Singleton(a) && nil == empty && fresh(this)
    {
      backing := ISingleton(a);
      length, depth := 1, 0;
      left, right, nil := empty, empty, empty;
      Repr := {this, empty};
    }

    constructor MakeConcat(l: Chunk<A>, r: Chunk<A>)
      requires l.Valid() && r.Valid() && l.nil == r.nil
      ensures Valid() && View() == Node(l.View(), r.View()) && nil == l.nil && fresh(this)
    {
      backing := IConcat(l, r);
      length := l.length + r.length;
      depth := 1 + Max(l.depth, r.depth);
      left, right, nil := l, r, l.nil;
      Repr := {this} + l.Repr + r.Repr;
    }

    constructor MakeSlice(chunk: Chunk<A>, offset: nat, count: nat)
      requires chunk.Valid() && chunk.backing.IArray? && 0 < count && offset + count <= chunk.length
      ensures Valid() && View() == Slice(chunk.View(), offset, count) && nil == chunk.nil && fresh(this)
    {
      backing := ISlice(chunk, offset, count);
      length := count;
      depth := chunk.depth + 1;
      left, right, nil := chunk.nil, chunk.nil, chunk.nil;
      Repr := {this} + chunk.Repr;
    }

    // -------------------------------------------------------------------------
    // Reading

    function UnsafeGet(index: int): (a: Option<A>)
      requires Valid()
      reads this, Repr
      ensures a == RopeIndexing.UnsafeGet(View(), index)
      decreases Repr
    {
      match backing
      case IEmpty => None
      case ISingleton(a) => if index != 0 then None else Some(a)
      case IArray(items) => if index >= length || index < 0 then None else Some(items[index])
      case IConcat(_, _) =>
        if index < left.length then left.UnsafeGet(index) else right.UnsafeGet(index - left.length)
      case ISlice(chunk, offset, _) => chunk.UnsafeGet(index + offset)
    }

    // -------------------------------------------------------------------------
    // Copying into an array

    // Writes src[srcPos..srcPos + len], cut short at the end of src, and nothing else.
    static method Copy(src: seq<A>, srcPos: nat, dest: array<A>, destPos: nat, len: nat)
      requires srcPos <= |src|
      requires destPos + |Section(src, srcPos, len)| <= dest.Length
      modifies dest
      ensures dest[..] == Spliced(old(dest[..]), destPos, Section(src, srcPos, len))
    {
      ghost var section := Section(src, srcPos, len);
      var i := srcPos;
      while i < (if srcPos + len < |src| then srcPos + len else |src|)
        invariant srcPos <= i <= srcPos + |section|
        invariant dest[..] == Spliced(old(dest[..]), destPos, section[..i - srcPos])
      {
        dest[destPos + i - srcPos] := src[i];
        i := i + 1;
      }
      assert section[..i - srcPos] == section;
    }

    // Exactly positions initial to initial + length change, and they get this chunk's elements.
    method CopyToArray(arr: array<A>, initial: nat)
      requires Valid() && initial + length <= arr.Length
      modifies arr
      ensures Valid() && View() == old(View())
      ensures arr[..] == Spliced(old(arr[..]), initial, Contents(View()))
      decreases Repr, 1
    {
      match backing {
        case IEmpty =>
        case IArray(items) =>
          Copy(items, 0, arr, initial, length);
        case IConcat(_, _) =>
          CopyConcatToArray(arr, initial);
        case ISingleton(a) =>
          arr[initial] := a;
        case ISlice(_, _, _) =>
          CopySliceToArray(arr, initial);
      }
    }

    method CopyConcatToArray(arr: array<A>, initial: nat)
      requires Valid() && backing.IConcat? && initial + length <= arr.Length
      modifies arr
      ensures Valid() && View() == old(View())
      ensures arr[..] == Spliced(old(arr[..]), initial, Contents(View()))
      decreases Repr, 0
    {
      hide *;
      Children();
      ghost var l, r := Contents(left.View()), Contents(right.View());
      ghost var before := arr[..];
      left.CopyToArray(arr, initial);
      right.CopyToArray(arr, initial + left.length);
      SplicedTwice(before, initial, l, r);
    }

    method CopySliceToArray(arr: array<A>, initial: nat)
      requires Valid() && backing.ISlice? && initial + length <= arr.Length
      modifies arr
      ensures Valid() && View() == old(View())
      ensures arr[..] == Spliced(old(arr[..]), initial, Contents(View()))
    {
      ghost var view := View();
      var i, j := 0, initial;
      while i < length
        invariant 0 <= i <= length && j == initial + i
        invariant Valid() && View() == view
        invariant arr[..] == Spliced(old(arr[..]), initial, Contents(view)[..i])
      {
        UnsafeGetInBounds(view, i);
        var item := UnsafeGet(i).value;
        SplicedStep(old(arr[..]), initial, Contents(view), i);
        arr[j] := item;
        i := i + 1;
        j := j + 1;
      }
      assert Contents(view)[..i] == Contents(view);
    }

    // -------------------------------------------------------------------------
    // Flattening

    // Every chunk in existence keeps its validity and, up to flattened nodes, its shape; so by
    // FlatteningKeepsContents it keeps its elements.
    method ToReadonlyArray() returns (result: seq<A>)
      requires Valid()
      modifies this
      ensures Valid() && result == old(Contents(View()))
      ensures !backing.IEmpty? ==> View() == Array(result)
      ensures forall m: Chunk<A> :: old(allocated(m)) ==> m.KeepsShape(old(FlattensTo()))
    {
      match backing {
        case IEmpty => result := [];
        case IArray(items) => result := items;
        case _ => result := Flatten();
      }
    }

    // Only a slice is flattened when the receiver is one.
    function FlattensTo(): Extent
      reads this
    {
      if backing.ISlice? then SlicesOnly else AnyNode
    }

    method Flatten() returns (result: seq<A>)
      requires Valid() && !backing.IEmpty?
      modifies this
      ensures Valid() && result == old(Contents(View())) && View() == Array(result)
      ensures forall m: Chunk<A> :: old(allocated(m)) ==> m.KeepsShape(old(FlattensTo()))
    {
      ghost var extent := FlattensTo();
      var arr := new A[length];
      CopyToArray(arr, 0);
      result := arr[..];
      backing := IArray(result);
      left := nil;
      right := nil;
      depth := 0;
      AllKeepShape(extent, this);
    }

    twostate predicate KeepsShape(extent: Extent)
      reads this, Repr
    {
      old(Valid()) ==> Valid() && Flattened(extent, old(View()), View())
    }

    twostate lemma KeepsShapeMeans(extent: Extent)
      ensures KeepsShape(extent) <==> (old(Valid()) ==> Valid() && Flattened(extent, old(View()), View()))
    {
    }

    twostate predicate Untouched()
      reads this
    {
      unchanged(this)
    }

    // What a flattening writes: this node becomes an array of its own contents.
    twostate predicate BecomesArray(extent: Extent)
      reads this
    {
      && old(Valid()) && MayFlatten(extent, old(View()))
      && backing == IArray(old(Contents(View()))) && left == right == nil && depth == 0
    }

    static twostate lemma AllKeepShape(new extent: Extent, flat: Chunk<A>)
      requires flat.BecomesArray(extent)
      requires forall o: Chunk<A> :: old(allocated(o)) && o != flat ==> o.Untouched()
      ensures forall m: Chunk<A> :: old(allocated(m)) ==> m.KeepsShape(extent)
    {
      forall m: Chunk<A> | old(allocated(m))
        ensures m.KeepsShape(extent)
      {
        EachKeepsShape(extent, flat, m);
      }
    }

    static twostate lemma EachKeepsShape(new extent: Extent, new flat: Chunk<A>, m: Chunk<A>)
      ensures
        && old(allocated(flat)) && flat.BecomesArray(extent)
        && (forall o: Chunk<A> :: old(allocated(o)) && o != flat ==> o.Untouched())
        ==> m.KeepsShape(extent)
    {
      if
        && old(allocated(flat)) && flat.BecomesArray(extent)
        && (forall o: Chunk<A> :: old(allocated(o)) && o != flat ==> o.Untouched())
        && old(m.Valid())
      {
        forall o: Chunk<A> | o in m.Repr && o != flat
          ensures unchanged(o)
        {
          assert o.Untouched();
        }
        OthersKeepShape(extent, flat, m);
      }
    }

    static twostate lemma OthersKeepShape(new extent: Extent, new flat: Chunk<A>, m: Chunk<A>)
      requires old(allocated(flat)) && flat.BecomesArray(extent) && old(m.Valid())
      requires forall o: Chunk<A> :: o in m.Repr && o != flat ==> unchanged(o)
      ensures m.Valid() && Flattened(extent, old(m.View()), m.View())
      decreases m.Repr
    {
      if m != flat {
        match m.backing {
          case IConcat(l, r) =>
            OthersKeepShape(extent, flat, l);
            OthersKeepShape(extent, flat, r);
          case ISlice(chunk, _, _) =>
            OthersKeepShape(extent, flat, chunk);
          case _ =>
        }
      }
    }

    // -------------------------------------------------------------------------
    // Concatenation, prefixes and suffixes: new nodes over shared old ones

    static method AppendAll(self: Chunk<A>, that: Chunk<A>) returns (r: Chunk<A>)
      requires self.Valid() && that.Valid() && self.nil == that.nil
      ensures r.Valid() && r.nil == self.nil
      ensures r.View() == R.AppendAll(self.View(), that.View())
      decreases Size(self.View()) + Size(that.View()), 1
    {
      var diff := that.depth - self.depth;
      if self.backing.IEmpty? {
        r := that;
      } else if that.backing.IEmpty? {
        r := self;
      } else if -1 <= diff <= 1 {
        r := new Chunk<A>.MakeConcat(self, that);
      } else if diff < -1 {
        r := AppendBelow(self, that);
      } else {
        r := PrependBelow(self, that);
      }
    }

    static method AppendBelow(self: Chunk<A>, that: Chunk<A>) returns (r: Chunk<A>)
      requires self.Valid() && that.Valid() && self.nil == that.nil
      requires !that.backing.IEmpty? && that.depth < self.depth - 1
      ensures r.Valid() && r.nil == self.nil
      ensures r.View() == R.AppendAll(self.View(), that.View())
      decreases Size(self.View()) + Size(that.View()), 0
    {
      hide *;
      self.DeepIsNotEmpty();
      that.DeepIsNotEmpty();
      AppendAllCases(self.View(), that.View());
      self.Children();
      var left, right := self.left, self.right;
      if left.depth >= right.depth {
        var nr := AppendAll(right, that);
        r := new Chunk<A>.MakeConcat(left, nr);
      } else {
        right.Children();
        var nrr := AppendAll(right.right, that);
        r := RotateLeft(left, right.left, nrr, self.depth);
      }
    }

    static method PrependBelow(self: Chunk<A>, that: Chunk<A>) returns (r: Chunk<A>)
      requires self.Valid() && that.Valid() && self.nil == that.nil
      requires !self.backing.IEmpty? && self.depth < that.depth - 1
      ensures r.Valid() && r.nil == self.nil
      ensures r.View() == R.AppendAll(self.View(), that.View())
      decreases Size(self.View()) + Size(that.View()), 0
    {
      hide *;
      self.DeepIsNotEmpty();
      that.DeepIsNotEmpty();
      AppendAllCases(self.View(), that.View());
      that.Children();
      var left, right := that.left, that.right;
      if right.depth >= left.depth {
        var nl := AppendAll(self, left);
        r := new Chunk<A>.MakeConcat(nl, right);
      } else {
        left.Children();
        var nll := AppendAll(self, left.left);
        r := RotateRight(nll, left.right, right, that.depth);
      }
    }

    static method RotateLeft(l: Chunk<A>, rl: Chunk<A>, nrr: Chunk<A>, depth: nat) returns (r: Chunk<A>)
      requires l.Valid() && rl.Valid() && nrr.Valid() && l.nil == rl.nil == nrr.nil
      ensures r.Valid() && r.nil == l.nil
      ensures r.View() == R.RotateLeft(l.View(), rl.View(), nrr.View(), depth)
    {
      hide Chunk.Valid, Chunk.View;
      if nrr.depth == depth - 3 {
        var nr := new Chunk<A>.MakeConcat(rl, nrr);
        r := new Chunk<A>.MakeConcat(l, nr);
      } else {
        var nl := new Chunk<A>.MakeConcat(l, rl);
        r := new Chunk<A>.MakeConcat(nl, nrr);
      }
    }

    static method RotateRight(nll: Chunk<A>, lr: Chunk<A>, r0: Chunk<A>, depth: nat) returns (r: Chunk<A>)
      requires nll.Valid() && lr.Valid() && r0.Valid() && nll.nil == lr.nil == r0.nil
      ensures r.Valid() && r.nil == nll.nil
      ensures r.View() == R.RotateRight(nll.View(), lr.View(), r0.View(), depth)
    {
      hide Chunk.Valid, Chunk.View;
      if nll.depth == depth - 3 {
        var nl := new Chunk<A>.MakeConcat(nll, lr);
        r := new Chunk<A>.MakeConcat(nl, r0);
      } else {
        var nr := new Chunk<A>.MakeConcat(lr, r0);
        r := new Chunk<A>.MakeConcat(nll, nr);
      }
    }

    method Take(n: int) returns (r: Chunk<A>)
      requires Valid()
      ensures r.Valid() && r.nil == nil && r.View() == RopeIndexing.Take(View(), n)
      decreases Repr
    {
      hide *;
      Children();
      CutParts();
      TakeCases(View(), n);
      if n <= 0 {
        r := nil;
      } else if n >= length {
        r := this;
      } else if backing.ISlice? {
        r := new Chunk<A>.MakeSlice(backing.chunk, backing.offset, n);
      } else if backing.IConcat? {
        if n > left.length {
          var rest := right.Take(n - left.length);
          r := new Chunk<A>.MakeConcat(left, rest);
        } else {
          r := left.Take(n);
        }
      } else {
        r := new Chunk<A>.MakeSlice(this, 0, n);
      }
    }

    method Drop(n: int) returns (r: Chunk<A>)
      requires Valid()
      ensures r.Valid() && r.nil == nil && r.View() == RopeIndexing.Drop(View(), n)
      decreases Repr
    {
      hide *;
      Children();
      CutParts();
      DropCases(View(), n);
      if n <= 0 {
        r := this;
      } else if n >= length {
        r := nil;
      } else if backing.ISlice? {
        r := new Chunk<A>.MakeSlice(backing.chunk, backing.offset + n, backing.count - n);
      } else if backing.IConcat? {
        if n > left.length {
          r := right.Drop(n - left.length);
        } else {
          var rest := left.Drop(n);
          r := new Chunk<A>.MakeConcat(rest, right);
        }
      } else {
        r := new Chunk<A>.MakeSlice(this, n, length - n);
      }
    }

    // Reversing flattens the slices it meets, which nobody reading the old chunks can tell and which
    // does not show in the result even where both halves share them.
    method Reverse() returns (r: Chunk<A>)
      requires Valid()
      modifies Repr
      ensures Valid() && r.Valid() && r.nil == nil
      ensures r.View() == RopeIndexing.Reverse(old(View()))
      ensures forall m: Chunk<A> :: old(allocated(m)) ==> m.KeepsShape(SlicesOnly)
      decreases Repr, 1
    {
      if backing.IEmpty? || backing.ISingleton? {
        r := this;
      } else if backing.IArray? {
        r := new Chunk<A>.MakeArray(Reversed(backing.items), nil);
      } else if backing.IConcat? {
        r := ReverseConcat();
      } else {
        assert FlattensTo() == SlicesOnly;
        var items := ToReadonlyArray();
        r := new Chunk<A>.MakeArray(Reversed(items), nil);
      }
    }

    method ReverseConcat() returns (r: Chunk<A>)
      requires Valid() && backing.IConcat?
      modifies Repr
      ensures Valid() && r.Valid() && r.nil == nil
      ensures r.View() == RopeIndexing.Reverse(old(View()))
      ensures forall m: Chunk<A> :: old(allocated(m)) ==> m.KeepsShape(SlicesOnly)
      decreases Repr, 0
    {
      hide *;
      ReverseParts(View());
      var front, back := ReverseBoth();
      KeepsShapeMeans(SlicesOnly);
      r := new Chunk<A>.MakeConcat(front, back);
    }

    // The right half first; whatever that flattens, the left half is reversed alike, and the
    // reversed right half holds no slice for reversing the left one to flatten.
    method ReverseBoth() returns (front: Chunk<A>, back: Chunk<A>)
      requires Valid() && backing.IConcat?
      modifies Repr
      ensures front.Valid() && back.Valid() && front.nil == back.nil == nil
      ensures front.View() == RopeIndexing.Reverse(old(View()).right)
      ensures back.View() == RopeIndexing.Reverse(old(View()).left)
      ensures forall m: Chunk<A> :: old(allocated(m)) ==> m.KeepsShape(SlicesOnly)
      decreases Repr, 0, 0
    {
      hide *;
      Children();
      ghost var x, y := left.View(), right.View();
      var oldLeft, oldRight := left, right;
      front := oldRight.Reverse();
      label Halfway:
      assert forall m: Chunk<A> :: old(allocated(m)) && old(m.Valid()) ==>
        m.Valid() && Flattened(SlicesOnly, old(m.View()), m.View())
      by {
        forall m: Chunk<A> | old(allocated(m)) && old(m.Valid())
          ensures m.Valid() && Flattened(SlicesOnly, old(m.View()), m.View())
        {
          m.KeepsShapeMeans(SlicesOnly);
        }
      }
      ReverseAfterFlattening(x, oldLeft.View());
      back := oldLeft.Reverse();
      forall m: Chunk<A> | old(allocated(m))
        ensures m.KeepsShape(SlicesOnly)
      {
        if old(m.Valid()) {
          m.KeepsShapeMeans@Halfway(SlicesOnly);
          FlattenedTransitive(SlicesOnly, old(m.View()), old@Halfway(m.View()), m.View());
        }
        m.KeepsShapeMeans(SlicesOnly);
      }
      front.KeepsShapeMeans@Halfway(SlicesOnly);
      ReverseContents(y);
      ReverseAfterFlattening(RopeIndexing.Reverse(y), front.View());
    }
  }
}
