/**
 * Bubble sort: pass after pass, neighbours out of order are exchanged, so
 * that each pass carries the largest element of the unsorted front to the
 * end of it. Every comparison emits two marks of the pair; every exchange
 * emits the writes of the two new heights.
 */
module BubbleSort {
  import opened Sorted
  import opened Traces
  import opened Exchange

  /**
   * From `m` on the sequence is sorted, and no earlier element is larger
   * than the first of those: positions `m` onwards hold their final values.
   */
  ghost predicate Settled(s: seq<int>, m: int)
    requires 0 <= m <= |s|
  {
    Ascending(s[m..]) && (m < |s| ==> AllAtMost(s[..m], s[m]))
  }

  /**
   * A pass over [0, end] that leaves the largest element of that range at
   * `end` and permutes only that range settles one more position.
   */
  lemma PassSettles(before: seq<int>, after: seq<int>, end: int)
    requires 0 <= end < |before| == |after|
    requires Settled(before, end + 1)
    requires after[end + 1..] == before[end + 1..]
    requires multiset(after[..end + 1]) == multiset(before[..end + 1])
    requires AllAtMost(after[..end + 1], after[end])
    ensures Settled(after, end)
  {
    var n := |before|;
    assert AllAtMost(after[..end], after[end]) by {
      forall k | 0 <= k < end
        ensures after[..end][k] <= after[end]
      {
        assert after[..end][k] == after[..end + 1][k];
      }
    }
    if end + 1 < n {
      BoundsFollowMultiset(before[..end + 1], after[..end + 1], before[end + 1]);
      assert after[..end + 1][end] == after[end];
      assert after[end + 1] == before[end + 1];
      var tail := after[end + 1..];
      assert AllAtLeast(tail, after[end]) by {
        forall k | 0 <= k < |tail|
          ensures after[end] <= tail[k]
        {
          assert tail[0] <= tail[k];
        }
      }
      assert after[end..] == [after[end]] + tail;
      ConsAscending(after[end], tail);
    } else {
      assert after[end..] == [after[end]];
    }
  }

  /** A step that, if it is a mark, compares neighbours (j, j + 1). */
  predicate NeighbourStep(s: Step) {
    s.Mark? ==> s.j == s.i + 1
  }

  /** Every mark of `t` compares a pair of neighbours (j, j + 1). */
  ghost predicate NeighbourMarks(t: seq<Step>) {
    forall q :: 0 <= q < |t| ==> NeighbourStep(t[q])
  }

  /** Traces whose marks all compare neighbours stay so when joined. */
  lemma NeighbourMarksConcat(x: seq<Step>, y: seq<Step>)
    requires NeighbourMarks(x) && NeighbourMarks(y)
    ensures NeighbourMarks(x + y)
  {
    forall q | 0 <= q < |x + y|
      ensures NeighbourStep((x + y)[q])
    {
      if q < |x| {
        assert (x + y)[q] == x[q];
      } else {
        assert (x + y)[q] == y[q - |x|];
      }
    }
  }

  /**
   * The steps of one comparison of neighbours j and j + 1 holding `x` and
   * `y`: two marks of the pair, then the writes of an exchange when x > y.
   */
  function CompareSteps(j: int, x: int, y: int): (r: seq<Step>)
    ensures NeighbourMarks(r) && MarkCount(r) == 2
  {
    var m := Mark(j, j + 1);
    assert [m, m][..1] == [m] && [m][..0] == [];
    assert MarkCount([m, m]) == 2;
    if x > y then
      var r := [m, m, Write(j, y), Write(j + 1, x)];
      assert r[..3][..2] == [m, m] && r[..3] == [m, m, Write(j, y)];
      r
    else [m, m]
  }

  /** The marks of the first `i` passes over n bars: pass k compares n - k - 1 pairs. */
  function PassMarks(n: int, i: nat): (r: int) {
    if i == 0 then 0 else PassMarks(n, i - 1) + 2 * (n - i)
  }

  lemma PassMarksStep(n: int, i: nat)
    ensures PassMarks(n, i + 1) == PassMarks(n, i) + 2 * (n - (i + 1))
  {
  }

  /** The first `i` passes mark i(2n - 1 - i) times, n(n - 1) times for all n - 1 of them. */
  lemma {:induction false} PassMarksTotal(n: int, i: nat)
    ensures PassMarks(n, i) == i * (2 * n - 1 - i)
  {
    if i > 0 {
      PassMarksTotal(n, i - 1);
      assert (i - 1) * (2 * n - 1 - (i - 1)) + 2 * (n - i) == i * (2 * n - 1 - i);
    }
  }

  /** The n - 1 passes over n bars mark n(n - 1) times in all. */
  lemma AllPassMarks(n: nat)
    ensures PassMarks(n, if n == 0 then 0 else n - 1) == n * (n - 1)
  {
    if n > 0 {
      PassMarksTotal(n, n - 1);
      assert (n - 1) * (2 * n - 1 - (n - 1)) == n * (n - 1);
    }
  }

  /** Everything from position 1 on settled means the whole sequence is sorted. */
  lemma SettledSorted(s: seq<int>)
    requires |s| <= 1 || Settled(s, 1)
    ensures Ascending(s)
  {
    if |s| > 1 {
      AscendingJoin(s, 1);
    }
  }

  /**
   * The exchange of a comparison: when arr[j] > arr[j + 1], push the writes
   * of the two new heights and exchange the pair; otherwise do nothing.
   */
  method OrderPair(arr: array<int>, j: int, steps: seq<Step>, ghost d: seq<int>) returns (steps': seq<Step>)
    requires 0 <= j && j + 1 < arr.Length
    requires Paired(steps) && Within(steps, 0, arr.Length - 1)
    requires Display(d, steps) == arr[..]
    modifies arr
    ensures old(arr[j]) > old(arr[j + 1]) ==> steps' == steps + [Write(j, old(arr[j + 1])), Write(j + 1, old(arr[j]))]
    ensures old(arr[j]) <= old(arr[j + 1]) ==> steps' == steps && arr[..] == old(arr[..])
    ensures arr[j] <= arr[j + 1] && old(arr[j]) <= arr[j + 1]
    ensures forall k :: 0 <= k < arr.Length && k != j && k != j + 1 ==> arr[k] == old(arr[k])
    ensures multiset(arr[..]) == multiset(old(arr[..]))
    ensures Paired(steps') && Within(steps', 0, arr.Length - 1) && MarkCount(steps') == MarkCount(steps)
    ensures Display(d, steps') == arr[..]
  {
    steps' := steps;
    if arr[j] > arr[j + 1] {
      steps' := SwapBars(arr, j, j + 1, steps, d, 0, arr.Length - 1);
    }
  }

  /**
   * One comparison of the inner loop: marks (j, j + 1) twice and exchanges
   * the pair when the left one is higher, leaving the larger at j + 1.
   */
  method CompareNeighbours(arr: array<int>, j: int, steps: seq<Step>, ghost d: seq<int>) returns (steps': seq<Step>)
    requires 0 <= j && j + 1 < arr.Length
    requires Paired(steps) && Within(steps, 0, arr.Length - 1)
    requires Display(d, steps) == arr[..]
    requires NeighbourMarks(steps)
    modifies arr
    ensures steps' == steps + CompareSteps(j, old(arr[j]), old(arr[j + 1]))
    ensures arr[j] <= arr[j + 1] && old(arr[j]) <= arr[j + 1]
    ensures forall k :: 0 <= k < arr.Length && k != j && k != j + 1 ==> arr[k] == old(arr[k])
    ensures multiset(arr[..]) == multiset(old(arr[..]))
    ensures Paired(steps') && Within(steps', 0, arr.Length - 1) && NeighbourMarks(steps')
    ensures MarkCount(steps') == MarkCount(steps) + 2
    ensures Display(d, steps') == arr[..]
  {
    var mark := Mark(j, j + 1);
    ghost var x, y := arr[j], arr[j + 1];
    ghost var extra := CompareSteps(j, x, y);
    NeighbourMarksConcat(steps, extra);
    AppendMarks(d, steps, mark, 0, arr.Length - 1);
    steps' := OrderPair(arr, j, steps + [mark, mark], d);
    if x > y {
      assert extra == [mark, mark] + [Write(j, y), Write(j + 1, x)];
    } else {
      assert extra == [mark, mark];
    }
    assert steps' == steps + extra;
  }

  /**
   * The inner loop of getBubbleSortAnimations over the pairs (j, j + 1) with
   * j < end, which brings the largest element of [0, end] to `end`.
   */
  method BubblePass(arr: array<int>, end: int, steps: seq<Step>, ghost d: seq<int>) returns (steps': seq<Step>)
    requires 0 <= end < arr.Length
    requires Paired(steps) && Within(steps, 0, arr.Length - 1)
    requires Display(d, steps) == arr[..]
    requires NeighbourMarks(steps)
    modifies arr
    ensures AllAtMost(arr[..end + 1], arr[end])
    ensures multiset(arr[..]) == multiset(old(arr[..]))
    ensures forall k :: end < k < arr.Length ==> arr[k] == old(arr[k])
    ensures Paired(steps') && Within(steps', 0, arr.Length - 1) && NeighbourMarks(steps')
    ensures MarkCount(steps') == MarkCount(steps) + 2 * end
    ensures Display(d, steps') == arr[..]
  {
    steps' := steps;
    for j := 0 to end
      invariant forall k :: 0 <= k <= j ==> arr[k] <= arr[j]
      invariant multiset(arr[..]) == multiset(old(arr[..]))
      invariant forall k :: end < k < arr.Length ==> arr[k] == old(arr[k])
      invariant Paired(steps') && Within(steps', 0, arr.Length - 1) && NeighbourMarks(steps')
      invariant MarkCount(steps') == MarkCount(steps) + 2 * j
      invariant Display(d, steps') == arr[..]
    {
      steps' := CompareNeighbours(arr, j, steps', d);
    }
  }

  /**
   * One round of the outer loop of getBubbleSortAnimations: the pass over the
   * unsorted front [0, n - i - 1] settles its last position.
   */
  method BubbleRound(a: array<int>, i: int, steps: seq<Step>, ghost d: seq<int>) returns (steps': seq<Step>)
    requires 0 <= i < a.Length - 1
    requires Settled(a[..], a.Length - i)
    requires Paired(steps) && Within(steps, 0, a.Length - 1)
    requires Display(d, steps) == a[..]
    requires NeighbourMarks(steps)
    modifies a
    ensures Settled(a[..], a.Length - (i + 1))
    ensures multiset(a[..]) == multiset(old(a[..]))
    ensures Paired(steps') && Within(steps', 0, a.Length - 1) && NeighbourMarks(steps')
    ensures MarkCount(steps') == MarkCount(steps) + 2 * (a.Length - (i + 1))
    ensures Display(d, steps') == a[..]
  {
    var end := a.Length - i - 1;
    ghost var before := a[..];
    steps' := BubblePass(a, end, steps, d);
    ghost var after := a[..];
    assert end + 1 == a.Length - i && end == a.Length - (i + 1);
    SliceMultiset(before, after, 0, end + 1);
    PassSettles(before, after, end);
  }

  /**
   * The outer loop of getBubbleSortAnimations: passes i = 0 .. n - 2, after
   * which everything from position 1 on is settled.
   */
  method BubbleRounds(a: array<int>, ghost d: seq<int>) returns (steps: seq<Step>)
    requires a.Length > 1 && d == a[..]
    modifies a
    ensures Settled(a[..], 1) && multiset(a[..]) == multiset(d)
    ensures Paired(steps) && Within(steps, 0, a.Length - 1) && NeighbourMarks(steps)
    ensures MarkCount(steps) == PassMarks(a.Length, a.Length - 1)
    ensures Display(d, steps) == a[..]
  {
    steps := [];
    assert a[a.Length..] == [];
    for i := 0 to a.Length - 1
      invariant Settled(a[..], a.Length - i)
      invariant multiset(a[..]) == multiset(d)
      invariant Paired(steps) && Within(steps, 0, a.Length - 1) && NeighbourMarks(steps)
      invariant MarkCount(steps) == PassMarks(a.Length, i)
      invariant Display(d, steps) == a[..]
    {
      steps := BubbleRound(a, i, steps, d);
      PassMarksStep(a.Length, i);
    }
  }

  /**
   * getBubbleSortAnimations: bubble-sorts `a` in place. Pass `i` compares the
   * n - i - 1 pairs of the unsorted front, so the trace holds n(n - 1) marks
   * in all, and it replays the original heights into the sorted ones.
   */
  method GetBubbleSortAnimations(a: array<int>) returns (trace: seq<Entry>, steps: seq<Step>)
    modifies a
    ensures Ascending(a[..]) && multiset(a[..]) == multiset(old(a[..]))
    ensures trace == Entries(steps) && Paired(steps) && Within(steps, 0, a.Length - 1)
    ensures NeighbourMarks(steps) && MarkCount(steps) == a.Length * (a.Length - 1)
    ensures Display(old(a[..]), steps) == a[..]
  {
    ghost var d := a[..];
    steps := [];
    if a.Length > 1 {
      steps := BubbleRounds(a, d);
      AllPassMarks(a.Length);
    }
    SettledSorted(a[..]);
    trace := Entries(steps);
  }

  /** The inner loop of bubbleSortArray: `BubblePass` without the steps. */
  method BubblePassNoAnimations(arr: array<int>, end: int)
    requires 0 <= end < arr.Length
    modifies arr
    ensures AllAtMost(arr[..end + 1], arr[end])
    ensures multiset(arr[..]) == multiset(old(arr[..]))
    ensures forall k :: end < k < arr.Length ==> arr[k] == old(arr[k])
  {
    for j := 0 to end
      invariant forall k :: 0 <= k <= j ==> arr[k] <= arr[j]
      invariant multiset(arr[..]) == multiset(old(arr[..]))
      invariant forall k :: end < k < arr.Length ==> arr[k] == old(arr[k])
    {
      if arr[j] > arr[j + 1] {
        Swap(arr, j, j + 1);
      }
    }
  }

  /** One round of the outer loop of bubbleSortArray: `BubbleRound` without the steps. */
  method BubbleRoundNoAnimations(arr: array<int>, i: int)
    requires 0 <= i < arr.Length - 1
    requires Settled(arr[..], arr.Length - i)
    modifies arr
    ensures Settled(arr[..], arr.Length - (i + 1))
    ensures multiset(arr[..]) == multiset(old(arr[..]))
  {
    var end := arr.Length - i - 1;
    ghost var before := arr[..];
    BubblePassNoAnimations(arr, end);
    ghost var after := arr[..];
    assert end + 1 == arr.Length - i && end == arr.Length - (i + 1);
    SliceMultiset(before, after, 0, end + 1);
    PassSettles(before, after, end);
  }

  /** The two loops of bubbleSortArray, on the copy it sorts. */
  method BubbleSortInPlace(arr: array<int>)
    modifies arr
    ensures Ascending(arr[..]) && multiset(arr[..]) == multiset(old(arr[..]))
  {
    if arr.Length > 1 {
      assert arr[arr.Length..] == [];
      for i := 0 to arr.Length - 1
        invariant Settled(arr[..], arr.Length - i)
        invariant multiset(arr[..]) == multiset(old(arr[..]))
      {
        BubbleRoundNoAnimations(arr, i);
      }
    }
    SettledSorted(arr[..]);
  }

  /** bubbleSortArray: bubble-sorts a fresh copy of `a`, which is left as it was. */
  method BubbleSortArray(a: array<int>) returns (arr: array<int>)
    ensures fresh(arr) && Ascending(arr[..]) && multiset(arr[..]) == multiset(a[..])
  {
    arr := new int[a.Length](x reads a requires 0 <= x < a.Length => a[x]);
    assert arr[..] == a[..];
    BubbleSortInPlace(arr);
  }
}
