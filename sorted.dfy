/**
 * What it means for an integer sequence to be sorted, bounds that survive a
 * permutation, and the reference ascending sort the self test compares the
 * four algorithms against.
 */
module Sorted {

  /** Every element is at most every later one. */
  ghost predicate Ascending(s: seq<int>) {
    forall i, j :: 0 <= i < j < |s| ==> s[i] <= s[j]
  }

  /** Every element is strictly below `p`. */
  ghost predicate AllBelow(s: seq<int>, p: int) {
    forall k :: 0 <= k < |s| ==> s[k] < p
  }

  /** Every element is at least `p`. */
  ghost predicate AllAtLeast(s: seq<int>, p: int) {
    forall k :: 0 <= k < |s| ==> p <= s[k]
  }

  /** Every element is at most `p`. */
  ghost predicate AllAtMost(s: seq<int>, p: int) {
    forall k :: 0 <= k < |s| ==> s[k] <= p
  }

  /** A bound on every element of two sequences is a bound on every element of anything holding both. */
  lemma AtLeastOfUnion(p: int, s: seq<int>, t: seq<int>, u: seq<int>)
    requires multiset(u) == multiset(s) + multiset(t)
    requires AllAtLeast(s, p) && AllAtLeast(t, p)
    ensures AllAtLeast(u, p)
  {
    forall k | 0 <= k < |u|
      ensures p <= u[k]
    {
      assert u[k] in multiset(u);
      if u[k] in multiset(s) {
        var x :| 0 <= x < |s| && s[x] == u[k];
      } else {
        var x :| 0 <= x < |t| && t[x] == u[k];
      }
    }
  }

  /** Bounds on all elements depend only on the multiset of elements. */
  lemma BoundsFollowMultiset(s: seq<int>, t: seq<int>, p: int)
    requires multiset(s) == multiset(t)
    ensures AllBelow(s, p) ==> AllBelow(t, p)
    ensures AllAtLeast(s, p) ==> AllAtLeast(t, p)
    ensures AllAtMost(s, p) ==> AllAtMost(t, p)
  {
    forall k | 0 <= k < |t|
      ensures exists x :: 0 <= x < |s| && s[x] == t[k]
    {
      assert t[k] in multiset(s);
    }
  }

  /** The elements of a slice are those of its two halves. */
  lemma SplitMultiset(s: seq<int>, lo: int, mid: int, hi: int)
    requires 0 <= lo <= mid <= hi <= |s|
    ensures multiset(s[lo..hi]) == multiset(s[lo..mid]) + multiset(s[mid..hi])
  {
    assert s[lo..hi] == s[lo..mid] + s[mid..hi];
  }

  /**
   * If a sequence and its update agree outside the slice [lo, hi) and have the
   * same elements overall, the slice itself keeps its elements.
   */
  lemma SliceMultiset(s: seq<int>, t: seq<int>, lo: int, hi: int)
    requires 0 <= lo <= hi <= |s| == |t|
    requires multiset(s) == multiset(t)
    requires s[..lo] == t[..lo] && s[hi..] == t[hi..]
    ensures multiset(s[lo..hi]) == multiset(t[lo..hi])
  {
    assert s == s[..lo] + s[lo..hi] + s[hi..];
    assert t == t[..lo] + t[lo..hi] + t[hi..];
    assert multiset(s) == multiset(s[..lo]) + multiset(s[lo..hi]) + multiset(s[hi..]);
    assert multiset(t) == multiset(s[..lo]) + multiset(t[lo..hi]) + multiset(s[hi..]);
    forall x
      ensures multiset(s[lo..hi])[x] == multiset(t[lo..hi])[x]
    {
      assert multiset(s)[x] == multiset(t)[x];
    }
  }

  /** A value at most every element of a sorted sequence can go in front of it. */
  lemma ConsAscending(h: int, rest: seq<int>)
    requires Ascending(rest) && AllAtLeast(rest, h)
    ensures Ascending([h] + rest)
  {
  }

  /** A sorted run below `p`, then `p`, then a sorted run of values at least `p`, is sorted. */
  lemma AscendingAroundPivot(l: seq<int>, p: int, r: seq<int>)
    requires Ascending(l) && AllBelow(l, p)
    requires Ascending(r) && AllAtLeast(r, p)
    ensures Ascending(l + [p] + r)
  {
  }

  /** A sorted prefix whose elements are at most the head of a sorted suffix makes the whole sequence sorted. */
  lemma AscendingJoin(s: seq<int>, i: int)
    requires 0 <= i <= |s|
    requires Ascending(s[..i]) && Ascending(s[i..])
    requires i < |s| ==> AllAtMost(s[..i], s[i])
    ensures Ascending(s)
  {
    forall x, y | 0 <= x < y < |s|
      ensures s[x] <= s[y]
    {
      if y < i {
        assert s[x] == s[..i][x] && s[y] == s[..i][y];
      } else if i <= x {
        assert s[x] == s[i..][x - i] && s[y] == s[i..][y - i];
      } else {
        assert s[x] == s[..i][x];
        assert s[i] == s[i..][0] && s[y] == s[i..][y - i];
      }
    }
  }

  /** Two sorted sequences with the same elements start with the same (smallest) element. */
  lemma SameHead(s: seq<int>, t: seq<int>)
    requires Ascending(s) && Ascending(t) && s != [] && t != []
    requires multiset(s) == multiset(t)
    ensures s[0] == t[0]
  {
    assert s[0] in multiset(t);
    var x :| 0 <= x < |t| && t[x] == s[0];
    assert t[0] in multiset(s);
    var y :| 0 <= y < |s| && s[y] == t[0];
    assert t[0] <= t[x] && s[0] <= s[y];
  }

  /** Removing the same head from two sequences with the same elements leaves tails with the same elements. */
  lemma SameTail(s: seq<int>, t: seq<int>)
    requires s != [] && t != [] && s[0] == t[0]
    requires multiset(s) == multiset(t)
    ensures multiset(s[1..]) == multiset(t[1..])
  {
    assert multiset(s) == multiset{s[0]} + multiset(s[1..]) by {
      assert s == [s[0]] + s[1..];
    }
    assert multiset(t) == multiset{s[0]} + multiset(t[1..]) by {
      assert t == [t[0]] + t[1..];
    }
    forall z
      ensures multiset(s[1..])[z] == multiset(t[1..])[z]
    {
      assert multiset(s)[z] == multiset(t)[z];
    }
  }

  /** There is only one ascending arrangement of a given multiset of integers. */
  lemma {:induction false} AscendingPermutationUnique(s: seq<int>, t: seq<int>)
    requires Ascending(s) && Ascending(t)
    requires multiset(s) == multiset(t)
    ensures s == t
    decreases |s|
  {
    assert |s| == |multiset(s)| == |multiset(t)| == |t|;
    if s != [] {
      SameHead(s, t);
      SameTail(s, t);
      AscendingPermutationUnique(s[1..], t[1..]);
      assert s == [s[0]] + s[1..] && t == [t[0]] + t[1..];
    }
  }

  /** `s` with `x` inserted before the first element not below it. */
  function Insert(x: int, s: seq<int>): (r: seq<int>)
    ensures multiset(r) == multiset(s) + multiset{x}
    decreases |s|
  {
    if s == [] || x <= s[0] then [x] + s
    else
      assert s == [s[0]] + s[1..];
      [s[0]] + Insert(x, s[1..])
  }

  lemma {:induction false} InsertAscending(x: int, s: seq<int>)
    requires Ascending(s)
    ensures Ascending(Insert(x, s))
    decreases |s|
  {
    if s != [] && x > s[0] {
      InsertAscending(x, s[1..]);
      var rest := Insert(x, s[1..]);
      assert AllAtLeast(s[1..], s[0]);
      assert AllAtLeast([x], s[0]);
      AtLeastOfUnion(s[0], s[1..], [x], rest);
    }
  }

  /** Inserting the head of `s` into a sorted arrangement of its tail gives a sorted arrangement of `s`. */
  lemma InsertHead(s: seq<int>, rest: seq<int>)
    requires s != [] && Ascending(rest) && multiset(rest) == multiset(s[1..])
    ensures Ascending(Insert(s[0], rest)) && multiset(Insert(s[0], rest)) == multiset(s)
  {
    InsertAscending(s[0], rest);
    assert s == [s[0]] + s[1..];
  }

  /**
   * The ascending sort the self test trusts as its reference (the host's
   * array sort with a numeric comparator), written as an insertion sort.
   */
  function ReferenceSort(s: seq<int>): (r: seq<int>)
    ensures Ascending(r) && multiset(r) == multiset(s)
    decreases |s|
  {
    if s == [] then []
    else
      var rest := ReferenceSort(s[1..]);
      InsertHead(s, rest);
      Insert(s[0], rest)
  }
}
