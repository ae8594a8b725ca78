/**
 * Quick sort with the Lomuto partition: the last element of the range is the
 * pivot, the elements below it are gathered at the front, and the pivot is
 * exchanged into place between the two groups. The animated form records
 * the steps of every comparison and exchange; the silent form sorts a copy.
 */
module QuickSort {
  import opened Sorted
  import opened Traces
  import opened Exchange

  /**
   * What the scan of a partition and the final exchange leave, restated on
   * slices: the front of the range is below the pivot, the back at least the
   * pivot, and the range holds the elements it held before.
   */
  lemma PartitionSlices(before: seq<int>, after: seq<int>, low: int, p: int, high: int)
    requires 0 <= low <= p <= high < |after| == |before|
    requires forall k :: low <= k < p ==> after[k] < after[p]
    requires forall k :: p < k <= high ==> after[k] >= after[p]
    requires multiset(after) == multiset(before)
    requires forall x :: 0 <= x < |after| && !(low <= x <= high) ==> after[x] == before[x]
    ensures AllBelow(after[low..p], after[p]) && AllAtLeast(after[p + 1..high + 1], after[p])
    ensures multiset(after[low..high + 1]) == multiset(before[low..high + 1])
  {
    assert before[..low] == after[..low];
    assert before[high + 1..] == after[high + 1..];
    SliceMultiset(before, after, low, high + 1);
  }

  /**
   * The last exchange of partition: with the scan's two groups in `mid`,
   * moving the pivot from `high` to `p` splits the range around it.
   */
  lemma PlacePivot(d: seq<int>, mid: seq<int>, after: seq<int>, low: int, p: int, high: int)
    requires 0 <= low <= p <= high < |mid| == |d|
    requires forall k :: low <= k < p ==> mid[k] < mid[high]
    requires forall k :: p <= k < high ==> mid[k] >= mid[high]
    requires multiset(mid) == multiset(d) && multiset(after) == multiset(mid)
    requires forall x :: 0 <= x < |mid| && !(low <= x <= high) ==> mid[x] == d[x]
    requires |after| == |mid| && after[p] == mid[high] && after[high] == mid[p]
    requires forall x :: 0 <= x < |after| && x != p && x != high ==> after[x] == mid[x]
    ensures after[p] == mid[high]
    ensures AllBelow(after[low..p], after[p]) && AllAtLeast(after[p + 1..high + 1], after[p])
    ensures multiset(after[low..high + 1]) == multiset(d[low..high + 1])
    ensures forall x :: 0 <= x < |after| && !(low <= x <= high) ==> after[x] == d[x]
  {
    PartitionSlices(d, after, low, p, high);
  }

  /** A step that, if it is a mark, compares a bar in [low, high) with the pivot bar `high`. */
  predicate PivotStep(s: Step, low: int, high: int) {
    s.Mark? ==> low <= s.i < high && s.j == high
  }

  /** Every mark of `t` compares a bar `j` in [low, high) with the pivot bar `high`. */
  ghost predicate PivotMarks(t: seq<Step>, low: int, high: int) {
    forall q :: 0 <= q < |t| ==> PivotStep(t[q], low, high)
  }

  /** Traces whose marks all compare with the pivot stay so when joined. */
  lemma PivotMarksConcat(x: seq<Step>, y: seq<Step>, low: int, high: int)
    requires PivotMarks(x, low, high) && PivotMarks(y, low, high)
    ensures PivotMarks(x + y, low, high)
  {
    forall q | 0 <= q < |x + y|
      ensures PivotStep((x + y)[q], low, high)
    {
      if q < |x| {
        assert (x + y)[q] == x[q];
      } else {
        assert (x + y)[q] == y[q - |x|];
      }
    }
  }

  /**
   * The exchange of one round of the partition loop: when arr[j] is below
   * the pivot arr[high], push the writes of arr[i] and arr[j] exchanged,
   * exchange them and grow the front group; otherwise do nothing.
   */
  method FrontExchange(arr: array<int>, high: int, i: int, j: int, steps: seq<Step>, ghost d: seq<int>, ghost low: int)
    returns (i': int, steps': seq<Step>)
    requires 0 <= low <= i <= j < high < arr.Length
    requires Paired(steps) && Within(steps, low, high) && Display(d, steps) == arr[..]
    modifies arr
    ensures old(arr[j]) < old(arr[high]) ==>
      && i' == i + 1 && arr[i] == old(arr[j]) && arr[j] == old(arr[i])
      && steps' == steps + [Write(i, old(arr[j])), Write(j, old(arr[i]))]
    ensures old(arr[j]) >= old(arr[high]) ==> i' == i && steps' == steps && arr[..] == old(arr[..])
    ensures forall x :: 0 <= x < arr.Length && x != i && x != j ==> arr[x] == old(arr[x])
    ensures multiset(arr[..]) == multiset(old(arr[..]))
    ensures Paired(steps') && Within(steps', low, high) && MarkCount(steps') == MarkCount(steps)
    ensures Display(d, steps') == arr[..]
  {
    i', steps' := i, steps;
    if arr[j] < arr[high] {
      steps' := SwapBars(arr, i, j, steps, d, low, high);
      i' := i + 1;
    }
  }

  /**
   * The steps of one round of the partition loop at `j`, with `front` at the
   * end of the front group `i`, `cur` at `j` and the pivot `pivot`: two marks
   * of (j, high), then the writes of the exchange when cur is below the pivot.
   */
  function ScanSteps(i: int, j: int, high: int, front: int, cur: int, pivot: int): (r: seq<Step>)
    ensures MarkCount(r) == 2
    ensures forall q :: 0 <= q < |r| && r[q].Mark? ==> r[q] == Mark(j, high)
  {
    var m := Mark(j, high);
    assert [m, m][..1] == [m] && [m][..0] == [];
    assert MarkCount([m, m]) == 2;
    if cur < pivot then
      var r := [m, m, Write(i, cur), Write(j, front)];
      assert r[..3][..2] == [m, m] && r[..3] == [m, m, Write(i, cur)];
      r
    else [m, m]
  }

  /**
   * One round of the loop of partition: mark (j, high) twice and, when arr[j]
   * is below the pivot arr[high], exchange it to the end of the front group.
   */
  method ScanStep(arr: array<int>, low: int, high: int, i: int, j: int, steps: seq<Step>, ghost d: seq<int>)
    returns (i': int, steps': seq<Step>)
    requires 0 <= low <= i <= j < high < arr.Length
    requires forall k :: low <= k < i ==> arr[k] < arr[high]
    requires forall k :: i <= k < j ==> arr[k] >= arr[high]
    requires Paired(steps) && Within(steps, low, high) && PivotMarks(steps, low, high)
    requires Display(d, steps) == arr[..]
    modifies arr
    ensures steps' == steps + ScanSteps(i, j, high, old(arr[i]), old(arr[j]), old(arr[high]))
    ensures low <= i' <= j + 1 && arr[high] == old(arr[high])
    ensures i' == i + 1 <==> old(arr[j]) < old(arr[high])
    ensures forall k :: low <= k < i' ==> arr[k] < arr[high]
    ensures forall k :: i' <= k < j + 1 ==> arr[k] >= arr[high]
    ensures multiset(arr[..]) == multiset(old(arr[..]))
    ensures forall x :: 0 <= x < arr.Length && x != i && x != j ==> arr[x] == old(arr[x])
    ensures Paired(steps') && Within(steps', low, high) && MarkCount(steps') == MarkCount(steps) + 2
    ensures PivotMarks(steps', low, high)
    ensures Display(d, steps') == arr[..]
  {
    var mark := Mark(j, high);
    ghost var extra := ScanSteps(i, j, high, arr[i], arr[j], arr[high]);
    AppendMarks(d, steps, mark, low, high);
    PivotMarksConcat(steps, [mark, mark], low, high);
    PivotMarksConcat(steps + [mark, mark], [Write(i, arr[j]), Write(j, arr[i])], low, high);
    i', steps' := FrontExchange(arr, high, i, j, steps + [mark, mark], d, low);
    if old(arr[j]) < old(arr[high]) {
      assert extra == [mark, mark] + [Write(i, old(arr[j])), Write(j, old(arr[i]))];
    } else {
      assert extra == [mark, mark];
    }
    assert steps' == steps + extra;
  }

  /**
   * The loop of partition: for every `j` in [low, high), mark (j, high) twice
   * and, when arr[j] is below the pivot arr[high], exchange it into the front
   * group, which then ends at `i`.
   */
  method PartitionScan(arr: array<int>, low: int, high: int, ghost d: seq<int>) returns (i: int, steps: seq<Step>)
    requires 0 <= low <= high < arr.Length && d == arr[..]
    modifies arr
    ensures low <= i <= high && arr[high] == old(arr[high])
    ensures forall k :: low <= k < i ==> arr[k] < arr[high]
    ensures forall k :: i <= k < high ==> arr[k] >= arr[high]
    ensures multiset(arr[..]) == multiset(d)
    ensures forall x :: 0 <= x < arr.Length && !(low <= x <= high) ==> arr[x] == d[x]
    ensures Paired(steps) && Within(steps, low, high) && MarkCount(steps) == 2 * (high - low)
    ensures PivotMarks(steps, low, high)
    ensures Display(d, steps) == arr[..]
  {
    i := low;
    steps := [];
    for j := low to high
      invariant low <= i <= j && arr[high] == d[high]
      invariant forall k :: low <= k < i ==> arr[k] < arr[high]
      invariant forall k :: i <= k < j ==> arr[k] >= arr[high]
      invariant multiset(arr[..]) == multiset(d)
      invariant forall x :: 0 <= x < arr.Length && !(low <= x <= high) ==> arr[x] == d[x]
      invariant Paired(steps) && Within(steps, low, high) && MarkCount(steps) == 2 * (j - low)
      invariant PivotMarks(steps, low, high)
      invariant Display(d, steps) == arr[..]
    {
      i, steps := ScanStep(arr, low, high, i, j, steps, d);
    }
  }

  /**
   * The exchange after the loop of partition: push the writes of arr[p] and
   * the pivot arr[high] exchanged, and exchange them.
   */
  method PlacePivotBar(arr: array<int>, low: int, p: int, high: int, steps: seq<Step>, ghost d: seq<int>)
    returns (steps': seq<Step>)
    requires 0 <= low <= p <= high < arr.Length == |d|
    requires forall k :: low <= k < p ==> arr[k] < arr[high]
    requires forall k :: p <= k < high ==> arr[k] >= arr[high]
    requires multiset(arr[..]) == multiset(d)
    requires forall x :: 0 <= x < arr.Length && !(low <= x <= high) ==> arr[x] == d[x]
    requires Paired(steps) && Within(steps, low, high) && PivotMarks(steps, low, high)
    requires Display(d, steps) == arr[..]
    modifies arr
    ensures steps' == steps + [Write(p, old(arr[high])), Write(high, old(arr[p]))]
    ensures arr[p] == old(arr[high])
    ensures AllBelow(arr[..][low..p], arr[p]) && AllAtLeast(arr[..][p + 1..high + 1], arr[p])
    ensures multiset(arr[..][low..high + 1]) == multiset(d[low..high + 1])
    ensures forall x :: 0 <= x < arr.Length && !(low <= x <= high) ==> arr[x] == d[x]
    ensures Paired(steps') && Within(steps', low, high) && MarkCount(steps') == MarkCount(steps)
    ensures PivotMarks(steps', low, high)
    ensures Display(d, steps') == arr[..]
  {
    ghost var mid := arr[..];
    PivotMarksConcat(steps, [Write(p, arr[high]), Write(high, arr[p])], low, high);
    steps' := SwapBars(arr, p, high, steps, d, low, high);
    PlacePivot(d, mid, arr[..], low, p, high);
  }

  /**
   * partition: splits arr[low..high] around the pivot arr[high] and returns
   * the pivot's final index. Every comparison of bar `j` with the pivot emits
   * two marks of (j, high); every exchange emits the two writes of the new
   * heights.
   */
  method Partition(arr: array<int>, low: int, high: int) returns (p: int, steps: seq<Step>)
    requires 0 <= low <= high < arr.Length
    modifies arr
    ensures low <= p <= high && arr[p] == old(arr[high])
    ensures AllBelow(arr[low..p], arr[p]) && AllAtLeast(arr[p + 1..high + 1], arr[p])
    ensures multiset(arr[low..high + 1]) == multiset(old(arr[low..high + 1]))
    ensures forall x :: 0 <= x < arr.Length && !(low <= x <= high) ==> arr[x] == old(arr[x])
    ensures Paired(steps) && Within(steps, low, high) && MarkCount(steps) == 2 * (high - low)
    ensures PivotMarks(steps, low, high)
    ensures Display(old(arr[..]), steps) == arr[..]
  {
    ghost var d := arr[..];
    p, steps := PartitionScan(arr, low, high, d);
    steps := PlacePivotBar(arr, low, p, high, steps, d);
  }

  /**
   * Sorting the two sides of a partitioned range in place, each without
   * touching anything else, sorts the range and keeps its elements.
   */
  lemma SortedSides(a1: seq<int>, a2: seq<int>, a3: seq<int>, low: int, p: int, high: int)
    requires 0 <= low <= p <= high < |a1| == |a2| == |a3|
    requires AllBelow(a1[low..p], a1[p]) && AllAtLeast(a1[p + 1..high + 1], a1[p])
    requires Ascending(a2[low..p]) && multiset(a2[low..p]) == multiset(a1[low..p])
    requires forall x :: 0 <= x < |a1| && !(low <= x <= p - 1) ==> a2[x] == a1[x]
    requires Ascending(a3[p + 1..high + 1]) && multiset(a3[p + 1..high + 1]) == multiset(a2[p + 1..high + 1])
    requires forall x :: 0 <= x < |a1| && !(p + 1 <= x <= high) ==> a3[x] == a2[x]
    ensures Ascending(a3[low..high + 1]) && multiset(a3[low..high + 1]) == multiset(a1[low..high + 1])
    ensures forall x :: 0 <= x < |a1| && !(low <= x <= high) ==> a3[x] == a1[x]
  {
    assert a3[low..p] == a2[low..p];
    assert a2[p + 1..high + 1] == a1[p + 1..high + 1];
    BoundsFollowMultiset(a1[low..p], a3[low..p], a1[p]);
    BoundsFollowMultiset(a1[p + 1..high + 1], a3[p + 1..high + 1], a1[p]);
    AscendingAroundPivot(a3[low..p], a1[p], a3[p + 1..high + 1]);
    assert a3[low..high + 1] == a3[low..p] + [a3[p]] + a3[p + 1..high + 1];
    assert a1[low..high + 1] == a1[low..p] + [a1[p]] + a1[p + 1..high + 1];
  }

  /** The steps of a partition followed by those of its two sides stay paired and in range, and replay in order. */
  lemma SideTraces(d: seq<int>, ps: seq<Step>, ls: seq<Step>, rs: seq<Step>, low: int, p: int, high: int)
    requires low <= p <= high
    requires Paired(ps) && Within(ps, low, high)
    requires Paired(ls) && Within(ls, low, p - 1)
    requires Paired(rs) && Within(rs, p + 1, high)
    ensures Paired(ps + ls + rs) && Within(ps + ls + rs, low, high)
    ensures Display(d, ps + ls + rs) == Display(Display(Display(d, ps), ls), rs)
  {
    PairedConcat(ps, ls);
    PairedConcat(ps + ls, rs);
    WithinWiden(ls, low, p - 1, low, high);
    WithinWiden(rs, p + 1, high, low, high);
    WithinConcat(ps, ls, low, high);
    WithinConcat(ps + ls, rs, low, high);
    DisplayConcat(d, ps, ls);
    DisplayConcat(d, ps + ls, rs);
  }

  /**
   * quickSortHelper: partitions arr[low..high] when it has at least two
   * elements, then sorts the two sides of the pivot (`SortSides`). A range of
   * fewer than two elements (including the empty range high == low - 1 the
   * recursion reaches) emits nothing.
   */
  method QuickSortHelper(arr: array<int>, low: int, high: int) returns (steps: seq<Step>)
    requires 0 <= low && high < arr.Length && low <= high + 1
    modifies arr
    decreases high - low, 1
    ensures Ascending(arr[low..high + 1]) && multiset(arr[low..high + 1]) == multiset(old(arr[low..high + 1]))
    ensures forall x :: 0 <= x < arr.Length && !(low <= x <= high) ==> arr[x] == old(arr[x])
    ensures Paired(steps) && Within(steps, low, high)
    ensures Display(old(arr[..]), steps) == arr[..]
    ensures low >= high ==> steps == [] && arr[..] == old(arr[..])
  {
    if low < high {
      ghost var d := arr[..];
      var p, ps := Partition(arr, low, high);
      var ls, rs := SortSides(arr, low, p, high);
      steps := ps + ls + rs;
      SideTraces(d, ps, ls, rs, low, p, high);
    } else {
      steps := [];
    }
  }

  /** The two recursive calls of quickSortHelper, on the two sides of the pivot at `p`. */
  method SortSides(arr: array<int>, low: int, p: int, high: int) returns (ls: seq<Step>, rs: seq<Step>)
    requires 0 <= low <= p <= high < arr.Length
    requires AllBelow(arr[low..p], arr[p]) && AllAtLeast(arr[p + 1..high + 1], arr[p])
    modifies arr
    decreases high - low, 0
    ensures Ascending(arr[low..high + 1]) && multiset(arr[low..high + 1]) == multiset(old(arr[low..high + 1]))
    ensures forall x :: 0 <= x < arr.Length && !(low <= x <= high) ==> arr[x] == old(arr[x])
    ensures Paired(ls) && Within(ls, low, p - 1) && Paired(rs) && Within(rs, p + 1, high)
    ensures Display(Display(old(arr[..]), ls), rs) == arr[..]
  {
    ghost var a1 := arr[..];
    ls := QuickSortHelper(arr, low, p - 1);
    ghost var a2 := arr[..];
    rs := QuickSortHelper(arr, p + 1, high);
    SortedSides(a1, a2, arr[..], low, p, high);
  }

  /**
   * getQuickSortAnimations: sorts `a` in place and returns the steps pushed
   * on the way; fewer than two elements give an empty list.
   */
  method GetQuickSortAnimations(a: array<int>) returns (trace: seq<Entry>, steps: seq<Step>)
    modifies a
    ensures Ascending(a[..]) && multiset(a[..]) == multiset(old(a[..]))
    ensures trace == Entries(steps) && Paired(steps) && Within(steps, 0, a.Length - 1)
    ensures Display(old(a[..]), steps) == a[..]
    ensures a.Length <= 1 ==> trace == []
  {
    ghost var before := a[..];
    steps := QuickSortHelper(a, 0, a.Length - 1);
    assert a[0..a.Length] == a[..] && before[0..a.Length] == before;
    trace := Entries(steps);
  }

  /** The loop of partitionNoAnimations: the scan of `PartitionScan` without the steps. */
  method PartitionNoAnimationsScan(arr: array<int>, low: int, high: int) returns (i: int)
    requires 0 <= low <= high < arr.Length
    modifies arr
    ensures low <= i <= high && arr[high] == old(arr[high])
    ensures forall k :: low <= k < i ==> arr[k] < arr[high]
    ensures forall k :: i <= k < high ==> arr[k] >= arr[high]
    ensures multiset(arr[..]) == multiset(old(arr[..]))
    ensures forall x :: 0 <= x < arr.Length && !(low <= x <= high) ==> arr[x] == old(arr[x])
  {
    var pivot := arr[high];
    i := low;
    for j := low to high
      invariant low <= i <= j && arr[high] == pivot
      invariant forall k :: low <= k < i ==> arr[k] < pivot
      invariant forall k :: i <= k < j ==> arr[k] >= pivot
      invariant multiset(arr[..]) == multiset(old(arr[..]))
      invariant forall x :: 0 <= x < arr.Length && !(low <= x <= high) ==> arr[x] == old(arr[x])
    {
      if arr[j] < pivot {
        Swap(arr, i, j);
        i := i + 1;
      }
    }
  }

  /** partitionNoAnimations: `Partition` without the steps. */
  method PartitionNoAnimations(arr: array<int>, low: int, high: int) returns (p: int)
    requires 0 <= low <= high < arr.Length
    modifies arr
    ensures low <= p <= high && arr[p] == old(arr[high])
    ensures AllBelow(arr[low..p], arr[p]) && AllAtLeast(arr[p + 1..high + 1], arr[p])
    ensures multiset(arr[low..high + 1]) == multiset(old(arr[low..high + 1]))
    ensures forall x :: 0 <= x < arr.Length && !(low <= x <= high) ==> arr[x] == old(arr[x])
  {
    ghost var d := arr[..];
    p := PartitionNoAnimationsScan(arr, low, high);
    Swap(arr, p, high);
    PartitionSlices(d, arr[..], low, p, high);
  }

  /** quickSortNoAnimations: `QuickSortHelper` without the steps. */
  method QuickSortNoAnimations(arr: array<int>, low: int, high: int)
    requires 0 <= low && high < arr.Length && low <= high + 1
    modifies arr
    decreases high - low
    ensures Ascending(arr[low..high + 1]) && multiset(arr[low..high + 1]) == multiset(old(arr[low..high + 1]))
    ensures forall x :: 0 <= x < arr.Length && !(low <= x <= high) ==> arr[x] == old(arr[x])
  {
    if low < high {
      var p := PartitionNoAnimations(arr, low, high);
      ghost var a1 := arr[..];
      QuickSortNoAnimations(arr, low, p - 1);
      ghost var a2 := arr[..];
      QuickSortNoAnimations(arr, p + 1, high);
      SortedSides(a1, a2, arr[..], low, p, high);
    }
  }

  /** quickSortArray: sorts a fresh copy of `a`, which is left as it was. */
  method QuickSortArray(a: array<int>) returns (r: array<int>)
    ensures fresh(r) && Ascending(r[..]) && multiset(r[..]) == multiset(a[..])
  {
    r := new int[a.Length](x reads a requires 0 <= x < a.Length => a[x]);
    ghost var copy := r[..];
    assert copy == a[..] && r[0..r.Length] == copy;
    QuickSortNoAnimations(r, 0, r.Length - 1);
    assert r[0..r.Length] == r[..];
  }
}
