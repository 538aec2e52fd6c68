/**
 * Ordering of a numeric column.  The linear-interpolation quartiles of the
 * IQR detector are read off the sorted copy of a column; this module gives
 * that copy twice: as a function (`Sort`, the specification) and as an
 * in-place insertion sort over an array (`SortInPlace`).  The uniqueness of
 * a sorted permutation (`SortedUnique`) ties the two and makes every
 * quartile depend only on the multiset of values.
 */
module Sorting {

  /** Ascending order (ties allowed). */
  predicate Sorted(s: seq<real>) {
    forall i, j :: 0 <= i < j < |s| ==> s[i] <= s[j]
  }

  /** Prepending a value no larger than the head keeps a sequence sorted. */
  lemma SortedCons(x: real, t: seq<real>)
    requires Sorted(t) && (t == [] || x <= t[0])
    ensures Sorted([x] + t)
  {
    var r := [x] + t;
    forall i, j | 0 <= i < j < |r| ensures r[i] <= r[j] {
      if i == 0 {
        assert r[j] == t[j - 1];
        assert t[0] <= t[j - 1];
      } else {
        assert r[i] == t[i - 1] && r[j] == t[j - 1];
      }
    }
  }

  /** Inserts `x` into the sorted sequence `s`, before the first larger value. */
  function Insert(x: real, s: seq<real>): (r: seq<real>)
    requires Sorted(s)
    ensures Sorted(r)
    ensures multiset(r) == multiset(s) + multiset{x}
    ensures |r| == |s| + 1
    ensures r[0] == if s == [] || x <= s[0] then x else s[0]
  {
    if s == [] then [x]
    else if x <= s[0] then
      SortedCons(x, s);
      [x] + s
    else
      assert Sorted(s[1..]);
      var tail := Insert(x, s[1..]);
      SortedCons(s[0], tail);
      assert s == [s[0]] + s[1..];
      assert multiset([s[0]] + tail) == multiset{s[0]} + multiset(tail);
      [s[0]] + tail
  }

  /** The sorted copy of a column (insertion sort). */
  function Sort(s: seq<real>): (r: seq<real>)
    ensures Sorted(r)
    ensures multiset(r) == multiset(s)
    ensures |r| == |s|
  {
    if s == [] then []
    else
      assert s == [s[0]] + s[1..];
      Insert(s[0], Sort(s[1..]))
  }

  /** The least element of a non-empty sorted sequence is its first one. */
  lemma SortedHeadIsMin(s: seq<real>, x: real)
    requires Sorted(s) && x in multiset(s)
    ensures s[0] <= x
  {
    assert x in s;
  }

  /** Two sorted sequences holding the same multiset of values are equal. */
  lemma {:induction false} SortedUnique(a: seq<real>, b: seq<real>)
    requires Sorted(a) && Sorted(b)
    requires multiset(a) == multiset(b)
    ensures a == b
  {
    if a != [] {
      assert |b| == |a| by { assert |multiset(a)| == |multiset(b)|; }
      assert a[0] in multiset(a) && b[0] in multiset(b) by {
        assert a[0] in a && b[0] in b;
      }
      SortedHeadIsMin(a, b[0]);
      SortedHeadIsMin(b, a[0]);
      assert a[0] == b[0];
      assert a == [a[0]] + a[1..];
      assert b == [b[0]] + b[1..];
      assert multiset(a[1..]) == multiset(b[1..]) by {
        assert multiset(a) == multiset{a[0]} + multiset(a[1..]);
        assert multiset(b) == multiset{b[0]} + multiset(b[1..]);
        assert multiset(a[1..]) == multiset(a) - multiset{a[0]};
        assert multiset(b[1..]) == multiset(b) - multiset{b[0]};
      }
      SortedUnique(a[1..], b[1..]);
    } else {
      assert |b| == 0 by { assert |multiset(b)| == 0; }
    }
  }

  /** The sorted copy depends only on the multiset of the values. */
  lemma SortPermutationInvariant(a: seq<real>, b: seq<real>)
    requires multiset(a) == multiset(b)
    ensures Sort(a) == Sort(b)
  {
    SortedUnique(Sort(a), Sort(b));
  }

  /** `Sort` is characterised by its contract: any sorted permutation of a
      column is its sorted copy. */
  lemma SortIsTheSortedPermutation(c: seq<real>, s: seq<real>)
    requires Sorted(s) && multiset(c) == multiset(s)
    ensures Sort(c) == s
  {
    SortedUnique(Sort(c), s);
  }

  /** s[..i+1] is sorted, except that s[j] may be out of place. */
  predicate SortedExcept(s: seq<real>, i: nat, j: nat)
    requires i < |s|
  {
    forall k, l :: 0 <= k < l <= i && l != j ==> s[k] <= s[l]
  }

  /** One step of sifting: swapping the misplaced s[j] with its larger left
      neighbour moves the misplaced position to j-1, keeps the multiset of
      the prefix s[..i+1] and leaves the rest of the sequence alone. */
  lemma SwapStep(s: seq<real>, t: seq<real>, j: nat, i: nat)
    requires 0 < j <= i < |s| && SortedExcept(s, i, j) && s[j] < s[j - 1]
    requires t == s[j - 1 := s[j]][j := s[j - 1]]
    ensures SortedExcept(t, i, j - 1)
    ensures multiset(t[..i + 1]) == multiset(s[..i + 1])
    ensures t[i + 1..] == s[i + 1..]
  {
    var p := s[..i + 1];
    assert t[..i + 1] == p[j - 1 := p[j]][j := p[j - 1]];
  }

  /** A sequence is its prefix followed by its suffix. */
  lemma PrefixSuffixMultiset(s: seq<real>, t: seq<real>, n: nat)
    requires n <= |s| && |t| == |s|
    requires multiset(t[..n]) == multiset(s[..n]) && t[n..] == s[n..]
    ensures multiset(t) == multiset(s)
  {
    assert s == s[..n] + s[n..];
    assert t == t[..n] + t[n..];
  }

  /** Swaps a[i] leftwards past the larger elements before it, so that a
      sorted prefix a[..i] followed by a[i] becomes a sorted prefix a[..i+1].
      Only the prefix a[..i+1] is rearranged. */
  method SiftLeft(a: array<real>, i: nat)
    requires i < a.Length
    requires forall k, l :: 0 <= k < l < i ==> a[k] <= a[l]
    modifies a
    ensures forall k, l :: 0 <= k < l <= i ==> a[k] <= a[l]
    ensures multiset(a[..i + 1]) == multiset(old(a[..i + 1]))
    ensures a[i + 1..] == old(a[i + 1..])
    ensures multiset(a[..]) == multiset(old(a[..]))
  {
    var j := i;
    while 0 < j && a[j] < a[j - 1]
      invariant 0 <= j <= i
      invariant SortedExcept(a[..], i, j)
      invariant multiset(a[..i + 1]) == multiset(old(a[..i + 1]))
      invariant a[i + 1..] == old(a[i + 1..])
    {
      ghost var s := a[..];
      a[j - 1], a[j] := a[j], a[j - 1];
      SwapStep(s, a[..], j, i);
      j := j - 1;
    }
    PrefixSuffixMultiset(old(a[..]), a[..], i + 1);
  }

  /** Sorting in place by insertion.  The result is the sorted copy `Sort`. */
  method SortInPlace(a: array<real>)
    modifies a
    ensures Sorted(a[..])
    ensures multiset(a[..]) == multiset(old(a[..]))
    ensures a[..] == Sort(old(a[..]))
  {
    var i := 0;
    while i < a.Length
      invariant i <= a.Length
      invariant forall k, l :: 0 <= k < l < i ==> a[k] <= a[l]
      invariant multiset(a[..]) == multiset(old(a[..]))
    {
      SiftLeft(a, i);
      i := i + 1;
    }
    SortedUnique(a[..], Sort(old(a[..])));
  }
}
