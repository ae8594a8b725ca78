/**
 * The exchange of two array elements, the one in-place step every sort here
 * except merge sort is built from, in its silent and its animated form.
 */
module Exchange {
  import opened Traces

  /** `[arr[i], arr[j]] = [arr[j], arr[i]]`: exchange two elements and nothing else. */
  method Swap(a: array<int>, i: int, j: int)
    requires 0 <= i < a.Length && 0 <= j < a.Length
    modifies a
    ensures a[i] == old(a[j]) && a[j] == old(a[i])
    ensures forall x :: 0 <= x < a.Length && x != i && x != j ==> a[x] == old(a[x])
    ensures multiset(a[..]) == multiset(old(a[..]))
  {
    a[i], a[j] := a[j], a[i];
  }

  /**
   * An exchange as the animated sorts perform it: push the write of bar j's
   * height to bar i and of bar i's height to bar j, then exchange the two
   * elements. `d` is the display the steps so far start from; the steps keep
   * describing the array.
   */
  method SwapBars(a: array<int>, i: int, j: int, steps: seq<Step>, ghost d: seq<int>, ghost lo: int, ghost hi: int)
    returns (steps': seq<Step>)
    requires 0 <= i < a.Length && 0 <= j < a.Length && lo <= i <= hi && lo <= j <= hi
    requires Paired(steps) && Within(steps, lo, hi) && Display(d, steps) == a[..]
    modifies a
    ensures steps' == steps + [Write(i, old(a[j])), Write(j, old(a[i]))]
    ensures a[i] == old(a[j]) && a[j] == old(a[i])
    ensures forall x :: 0 <= x < a.Length && x != i && x != j ==> a[x] == old(a[x])
    ensures multiset(a[..]) == multiset(old(a[..]))
    ensures Paired(steps') && Within(steps', lo, hi) && MarkCount(steps') == MarkCount(steps)
    ensures Display(d, steps') == a[..]
  {
    AppendSwap(d, steps, i, j, lo, hi);
    steps' := steps + [Write(i, a[j]), Write(j, a[i])];
    Swap(a, i, j);
  }
}
