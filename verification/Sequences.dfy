/** Sequences read backwards, and what concatenation determines. */
module Sequences {

  function Reversed<A>(s: seq<A>): seq<A> {
    seq(|s|, i requires 0 <= i < |s| => s[|s| - 1 - i])
  }

  lemma ReversedConcat<A>(s: seq<A>, t: seq<A>)
    ensures Reversed(s + t) == Reversed(t) + Reversed(s)
  {
  }

  lemma ReversedTwice<A>(s: seq<A>)
    ensures Reversed(Reversed(s)) == s
  {
  }

  lemma Associative<T>(a: seq<T>, b: seq<T>, c: seq<T>)
    ensures a + b + c == a + (b + c)
  {
  }

  lemma PrefixOfConcat<T>(a: seq<T>, b: seq<T>, n: nat)
    requires n <= |a| + |b|
    ensures (a + b)[..n] == if n <= |a| then a[..n] else a + b[..n - |a|]
  {
  }

  lemma SliceOfSlice<T>(s: seq<T>, from: nat, count: nat, n: nat)
    requires from + count <= |s| && n <= count
    ensures s[from..from + count][..n] == s[from..from + n]
    ensures s[from..from + count][n..] == s[from + n..from + count]
  {
  }

  lemma SuffixOfConcat<T>(a: seq<T>, b: seq<T>, n: nat)
    requires n <= |a| + |b|
    ensures (a + b)[n..] == if n <= |a| then a[n..] + b else b[n - |a|..]
  {
  }

  lemma Cancel<T>(a: seq<T>, x: seq<T>, y: seq<T>, b: seq<T>)
    ensures a + x + b == a + y + b <==> x == y
  {
    if a + x + b == a + y + b {
      assert |x| == |y|;
      forall i | 0 <= i < |x| ensures x[i] == y[i] {
        assert (a + x + b)[|a| + i] == (a + y + b)[|a| + i];
      }
    }
  }
}
