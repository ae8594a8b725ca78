/**
 * Heap sort on an implicit binary max-heap: the children of node `p` are
 * `2p + 1` and `2p + 2`. The array is first turned into a heap by sifting
 * down every inner node from the last one to the root; then the root (the
 * maximum) is repeatedly exchanged with the last element of the shrinking
 * heap and the new root is sifted down.
 */
module HeapSort {
  import opened Sorted
  import opened Traces
  import opened Exchange

  function Parent(c: int): (r: int) {
    (c - 1) / 2
  }

  /** Node `p` is at least each of its children that lies inside the heap [0, n). */
  ghost predicate ParentCovers(s: seq<int>, n: int, p: int)
    requires 0 <= p && n <= |s|
  {
    && (2 * p + 1 < n ==> s[p] >= s[2 * p + 1])
    && (2 * p + 2 < n ==> s[p] >= s[2 * p + 2])
  }

  /** Every node of the heap [0, n) from `lo` on is at least its children. */
  ghost predicate HeapFrom(s: seq<int>, n: int, lo: int)
    requires 0 <= lo && n <= |s|
  {
    forall p :: lo <= p < n ==> ParentCovers(s, n, p)
  }

  /** As `HeapFrom`, except perhaps at node `x`, the one being sifted down. */
  ghost predicate HeapExcept(s: seq<int>, n: int, lo: int, x: int)
    requires 0 <= lo && n <= |s|
  {
    forall p :: lo <= p < n && p != x ==> ParentCovers(s, n, p)
  }

  /**
   * The parent of `x`, when it is a node from `lo` on, is at least the
   * children of `x`: the sift-down may move either of them up past `x`.
   */
  ghost predicate Bridge(s: seq<int>, n: int, lo: int, x: int)
    requires 0 <= lo <= x && n <= |s|
  {
    x > 0 && lo <= Parent(x) ==>
      && (2 * x + 1 < n ==> s[Parent(x)] >= s[2 * x + 1])
      && (2 * x + 2 < n ==> s[Parent(x)] >= s[2 * x + 2])
  }

  /** The root of a heap is its largest element. */
  lemma {:induction false} HeapRootMax(s: seq<int>, n: int, k: int)
    requires 0 <= k < n <= |s| && HeapFrom(s, n, 0)
    ensures s[0] >= s[k]
    decreases k
  {
    if k > 0 {
      var p := Parent(k);
      HeapRootMax(s, n, p);
      assert ParentCovers(s, n, p);
      assert k == 2 * p + 1 || k == 2 * p + 2;
    }
  }

  /** Nodes from the middle on have no children, so they are heaps already. */
  lemma LeavesAreHeaps(s: seq<int>, n: int)
    requires 0 <= n <= |s|
    ensures HeapFrom(s, n, n / 2)
  {
    forall p | n / 2 <= p < n
      ensures ParentCovers(s, n, p)
    {
      assert 2 * p + 1 >= n;
    }
  }

  /**
   * One exchange of the sift-down: node `i` takes its larger child at `largest`,
   * after which only `largest` may be out of order, and its new parent `i`
   * is at least its children.
   */
  lemma SiftStep(before: seq<int>, after: seq<int>, n: int, lo: int, i: int, largest: int)
    requires 0 <= lo <= i < n <= |before| == |after|
    requires largest == 2 * i + 1 || largest == 2 * i + 2
    requires largest < n && before[largest] > before[i]
    requires 2 * i + 1 < n ==> before[largest] >= before[2 * i + 1]
    requires 2 * i + 2 < n ==> before[largest] >= before[2 * i + 2]
    requires after[i] == before[largest] && after[largest] == before[i]
    requires forall k :: 0 <= k < |after| && k != i && k != largest ==> after[k] == before[k]
    requires HeapExcept(before, n, lo, i) && Bridge(before, n, lo, i)
    ensures HeapExcept(after, n, lo, largest) && Bridge(after, n, lo, largest)
    ensures after[..i] == before[..i] && after[n..] == before[n..]
  {
    assert Parent(largest) == i;
    forall p | lo <= p < n && p != largest
      ensures ParentCovers(after, n, p)
    {
      if p == i {
        assert after[2 * i + 1] <= after[i] by {
          if 2 * i + 1 < n && 2 * i + 1 != largest {
            assert after[2 * i + 1] == before[2 * i + 1];
          }
        }
        assert 2 * i + 2 < n ==> after[2 * i + 2] <= after[i] by {
          if 2 * i + 2 < n && 2 * i + 2 != largest {
            assert after[2 * i + 2] == before[2 * i + 2];
          }
        }
      } else if 0 < i && p == Parent(i) {
        assert ParentCovers(before, n, p);
        assert after[p] == before[p];
        assert i == 2 * p + 1 || i == 2 * p + 2;
        var sibling := if i == 2 * p + 1 then 2 * p + 2 else 2 * p + 1;
        assert sibling < n ==> after[sibling] == before[sibling];
      } else {
        assert ParentCovers(before, n, p);
        assert 2 * p + 1 != i && 2 * p + 2 != i;
        assert 2 * p + 1 != largest && 2 * p + 2 != largest;
        assert after[p] == before[p];
      }
    }
    assert ParentCovers(before, n, largest);
  }

  /** Two sequences agreeing on a prefix agree on every shorter prefix. */
  lemma PrefixNarrow(a: seq<int>, b: seq<int>, i: int, j: int)
    requires 0 <= i <= j <= |a| == |b| && a[..j] == b[..j]
    ensures a[..i] == b[..i]
  {
    assert a[..i] == a[..j][..i];
    assert b[..i] == b[..j][..i];
  }

  /** A node at least its children completes a heap that held everywhere else. */
  lemma HeapComplete(s: seq<int>, n: int, lo: int, i: int)
    requires 0 <= lo <= i < n <= |s|
    requires HeapExcept(s, n, lo, i) && ParentCovers(s, n, i)
    ensures HeapFrom(s, n, lo)
  {
  }

  /**
   * The three trace segments of one level of the sift-down, glued together:
   * the exchange at `i` followed by the sift-down from `largest` below it.
   */
  lemma JoinSift(d: seq<int>, first: seq<Step>, rest: seq<Step>, i: int, largest: int, n: int)
    requires i < largest
    requires Paired(first) && Within(first, i, n - 1)
    requires Paired(rest) && Within(rest, largest, n - 1)
    ensures Paired(first + rest) && Within(first + rest, i, n - 1)
    ensures Display(d, first + rest) == Display(Display(d, first), rest)
  {
    DisplayConcat(d, first, rest);
    PairedConcat(first, rest);
    WithinWiden(rest, largest, n - 1, i, n - 1);
    WithinConcat(first, rest, i, n - 1);
  }

  /**
   * One exchange of the sift-down: the marks of (i, largest) twice, then node
   * `i` and its larger child exchange heights.
   */
  method SiftOnce(arr: array<int>, n: int, i: int, largest: int, ghost lo: int) returns (first: seq<Step>)
    requires 0 <= lo <= i < n <= arr.Length
    requires largest == 2 * i + 1 || largest == 2 * i + 2
    requires largest < n && arr[largest] > arr[i]
    requires 2 * i + 1 < n ==> arr[largest] >= arr[2 * i + 1]
    requires 2 * i + 2 < n ==> arr[largest] >= arr[2 * i + 2]
    requires HeapExcept(arr[..], n, lo, i) && Bridge(arr[..], n, lo, i)
    modifies arr
    ensures HeapExcept(arr[..], n, lo, largest) && Bridge(arr[..], n, lo, largest)
    ensures arr[..i] == old(arr[..i]) && arr[n..] == old(arr[n..])
    ensures multiset(arr[..]) == multiset(old(arr[..]))
    ensures first == [Mark(i, largest), Mark(i, largest), Write(i, old(arr[largest])), Write(largest, old(arr[i]))]
    ensures Paired(first) && Within(first, i, n - 1)
    ensures Display(old(arr[..]), first) == arr[..]
  {
    ghost var d := arr[..];
    var mark := Mark(i, largest);
    AppendMarks(d, [], mark, i, n - 1);
    assert [] + [mark, mark] == [mark, mark];
    first := SwapBars(arr, i, largest, [mark, mark], d, i, n - 1);
    SiftStep(d, arr[..], n, lo, i, largest);
  }

  /**
   * heapify: sifts node `i` of the heap [0, n) down until it is at least its
   * children. Every exchange emits two marks of (i, largest) and the two
   * writes of the new heights; a node already in order emits nothing and
   * changes nothing.
   */
  method Heapify(arr: array<int>, n: int, i: int, ghost lo: int) returns (steps: seq<Step>)
    requires 0 <= lo <= i < n <= arr.Length
    requires HeapExcept(arr[..], n, lo, i) && Bridge(arr[..], n, lo, i)
    modifies arr
    decreases n - i
    ensures HeapFrom(arr[..], n, lo)
    ensures multiset(arr[..]) == multiset(old(arr[..]))
    ensures arr[..i] == old(arr[..i]) && arr[n..] == old(arr[n..])
    ensures Paired(steps) && Within(steps, i, n - 1)
    ensures Display(old(arr[..]), steps) == arr[..]
    ensures steps == [] <==> ParentCovers(old(arr[..]), n, i)
    ensures ParentCovers(old(arr[..]), n, i) ==> arr[..] == old(arr[..])
  {
    var largest := i;
    var left, right := 2 * i + 1, 2 * i + 2;
    if left < n && arr[left] > arr[largest] {
      largest := left;
    }
    if right < n && arr[right] > arr[largest] {
      largest := right;
    }
    if largest != i {
      ghost var d := arr[..];
      assert !ParentCovers(d, n, i);
      var first := SiftOnce(arr, n, i, largest, lo);
      ghost var mid := arr[..];
      var rest := Heapify(arr, n, largest, lo);
      PrefixNarrow(mid, arr[..], i, largest);
      steps := first + rest;
      JoinSift(d, first, rest, i, largest, n);
      assert multiset(arr[..]) == multiset(mid) == multiset(d);
      assert steps != [] by {
        assert steps[0] == first[0];
      }
    } else {
      steps := [];
      assert ParentCovers(arr[..], n, i);
      HeapComplete(arr[..], n, lo, i);
    }
  }

  /** A sift-down over bars [lo, hi] appended to a trace over the whole array. */
  lemma JoinSteps(d: seq<int>, steps: seq<Step>, more: seq<Step>, lo: int, hi: int, n: int)
    requires 0 <= lo && hi <= n - 1
    requires Paired(steps) && Within(steps, 0, n - 1)
    requires Paired(more) && Within(more, lo, hi)
    ensures Paired(steps + more) && Within(steps + more, 0, n - 1)
    ensures Display(d, steps + more) == Display(Display(d, steps), more)
  {
    DisplayConcat(d, steps, more);
    PairedConcat(steps, more);
    WithinWiden(more, lo, hi, 0, n - 1);
    WithinConcat(steps, more, 0, n - 1);
  }

  /** One round of the first loop of getHeapSortAnimations: sift inner node `i` down. */
  method HeapifyInner(arr: array<int>, i: int, steps: seq<Step>, ghost d: seq<int>) returns (steps': seq<Step>)
    requires 0 <= i < arr.Length
    requires HeapFrom(arr[..], arr.Length, i + 1)
    requires Paired(steps) && Within(steps, 0, arr.Length - 1)
    requires Display(d, steps) == arr[..]
    modifies arr
    ensures HeapFrom(arr[..], arr.Length, i)
    ensures multiset(arr[..]) == multiset(old(arr[..]))
    ensures Paired(steps') && Within(steps', 0, arr.Length - 1)
    ensures Display(d, steps') == arr[..]
  {
    var more := Heapify(arr, arr.Length, i, i);
    steps' := steps + more;
    JoinSteps(d, steps, more, i, arr.Length - 1, arr.Length);
  }

  /**
   * The first loop of getHeapSortAnimations: sift down every inner node, from
   * the last one to the root, which leaves a max-heap over the whole array.
   */
  method BuildHeap(arr: array<int>) returns (steps: seq<Step>)
    modifies arr
    ensures HeapFrom(arr[..], arr.Length, 0)
    ensures multiset(arr[..]) == multiset(old(arr[..]))
    ensures Paired(steps) && Within(steps, 0, arr.Length - 1)
    ensures Display(old(arr[..]), steps) == arr[..]
    ensures arr.Length <= 1 ==> steps == []
  {
    ghost var d := arr[..];
    var n := arr.Length;
    LeavesAreHeaps(arr[..], n);
    steps := [];
    var i := n / 2 - 1;
    while i >= 0
      invariant -1 <= i <= n / 2 - 1
      invariant HeapFrom(arr[..], n, i + 1)
      invariant i == n / 2 - 1 ==> steps == []
      invariant multiset(arr[..]) == multiset(d)
      invariant Paired(steps) && Within(steps, 0, n - 1)
      invariant Display(d, steps) == arr[..]
    {
      steps := HeapifyInner(arr, i, steps, d);
      i := i - 1;
    }
  }

  /**
   * What one round of the extraction loop keeps: the heap [0, i] ahead of the
   * sorted tail, every element of the heap at most the head of the tail.
   */
  ghost predicate Extracting(s: seq<int>, i: int)
    requires 0 <= i < |s|
  {
    && HeapFrom(s, i + 1, 0)
    && Ascending(s[i + 1..])
    && (i + 1 < |s| ==> AllAtMost(s[..i + 1], s[i + 1]))
  }

  /**
   * The bookkeeping of one extraction: the root, the largest of the heap
   * [0, i], goes to position `i` ahead of the sorted tail, and the rest of the
   * heap, however rearranged, stays below it.
   */
  lemma ExtractOrder(before: seq<int>, mid: seq<int>, after: seq<int>, i: int)
    requires 0 < i < |before| == |mid| == |after|
    requires Extracting(before, i)
    requires mid[i] == before[0] && mid[0] == before[i]
    requires forall k :: 0 <= k < |mid| && k != 0 && k != i ==> mid[k] == before[k]
    requires after[i..] == mid[i..]
    requires multiset(after[..i]) == multiset(mid[..i])
    requires HeapFrom(after, i, 0)
    ensures Extracting(after, i - 1)
  {
    forall k | 0 <= k <= i
      ensures before[k] <= before[0]
    {
      HeapRootMax(before, i + 1, k);
    }
    assert AllAtMost(mid[..i], mid[i]) by {
      forall k | 0 <= k < i
        ensures mid[..i][k] <= mid[i]
      {
        assert mid[..i][k] == mid[k];
      }
    }
    BoundsFollowMultiset(mid[..i], after[..i], mid[i]);
    assert after[i..] == [before[0]] + before[i + 1..] by {
      assert mid[i..] == [mid[i]] + mid[i + 1..];
      assert mid[i + 1..] == before[i + 1..];
    }
    assert AllAtLeast(before[i + 1..], before[0]) by {
      if i + 1 < |before| {
        assert before[..i + 1][0] == before[0];
        var tail := before[i + 1..];
        forall k | 0 <= k < |tail|
          ensures before[0] <= tail[k]
        {
          assert tail[0] <= tail[k];
        }
      }
    }
    ConsAscending(before[0], before[i + 1..]);
  }

  /**
   * Exchanging the root of the heap [0, i] with its last element leaves the
   * heap [0, i) out of order at most at its root.
   */
  lemma RootSwapHeap(before: seq<int>, mid: seq<int>, i: int)
    requires 0 < i < |before| == |mid|
    requires HeapFrom(before, i + 1, 0)
    requires forall k :: 0 <= k < |mid| && k != 0 && k != i ==> mid[k] == before[k]
    ensures HeapExcept(mid, i, 0, 0)
  {
    forall p | 0 <= p < i && p != 0
      ensures ParentCovers(mid, i, p)
    {
      assert ParentCovers(before, i + 1, p);
      assert mid[p] == before[p];
      assert 2 * p + 1 < i ==> mid[2 * p + 1] == before[2 * p + 1];
      assert 2 * p + 2 < i ==> mid[2 * p + 2] == before[2 * p + 2];
    }
  }

  /**
   * Marks (0, i) twice and exchanges the root with position `i`: the heap
   * [0, i) is then out of order only at its root.
   */
  method SwapRoot(arr: array<int>, i: int, steps: seq<Step>, ghost d: seq<int>) returns (steps': seq<Step>)
    requires 0 < i < arr.Length
    requires HeapFrom(arr[..], i + 1, 0)
    requires Paired(steps) && Within(steps, 0, arr.Length - 1)
    requires Display(d, steps) == arr[..]
    modifies arr
    ensures steps' == steps + [Mark(0, i), Mark(0, i), Write(0, old(arr[i])), Write(i, old(arr[0]))]
    ensures HeapExcept(arr[..], i, 0, 0)
    ensures arr[0] == old(arr[i]) && arr[i] == old(arr[0])
    ensures forall k :: 0 <= k < arr.Length && k != 0 && k != i ==> arr[k] == old(arr[k])
    ensures multiset(arr[..]) == multiset(old(arr[..]))
    ensures Paired(steps') && Within(steps', 0, arr.Length - 1)
    ensures Display(d, steps') == arr[..]
  {
    var n := arr.Length;
    ghost var before := arr[..];
    var mark := Mark(0, i);
    AppendMarks(d, steps, mark, 0, n - 1);
    steps' := SwapBars(arr, 0, i, steps + [mark, mark], d, 0, n - 1);
    RootSwapHeap(before, arr[..], i);
  }

  /**
   * One round of the second loop of getHeapSortAnimations: mark (0, i) twice,
   * exchange the root with position `i`, and sift the new root down through
   * the heap [0, i).
   */
  method ExtractMax(arr: array<int>, i: int, steps: seq<Step>, ghost d: seq<int>) returns (steps': seq<Step>)
    requires 0 < i < arr.Length
    requires Extracting(arr[..], i)
    requires Paired(steps) && Within(steps, 0, arr.Length - 1)
    requires Display(d, steps) == arr[..]
    modifies arr
    ensures Extracting(arr[..], i - 1)
    ensures multiset(arr[..]) == multiset(old(arr[..]))
    ensures Paired(steps') && Within(steps', 0, arr.Length - 1)
    ensures Display(d, steps') == arr[..]
  {
    ghost var before := arr[..];
    var swapped := SwapRoot(arr, i, steps, d);
    ghost var mid := arr[..];
    var rest := Heapify(arr, i, 0, 0);
    ghost var after := arr[..];
    steps' := swapped + rest;
    JoinSteps(d, swapped, rest, 0, i - 1, arr.Length);
    SliceMultiset(mid, after, 0, i);
    ExtractOrder(before, mid, after, i);
  }

  /**
   * The second loop of getHeapSortAnimations: extract the maximum of the heap
   * into the tail until the heap has one element, which sorts the array.
   */
  method SortDown(arr: array<int>) returns (steps: seq<Step>)
    requires HeapFrom(arr[..], arr.Length, 0)
    modifies arr
    ensures Ascending(arr[..])
    ensures multiset(arr[..]) == multiset(old(arr[..]))
    ensures Paired(steps) && Within(steps, 0, arr.Length - 1)
    ensures Display(old(arr[..]), steps) == arr[..]
    ensures arr.Length <= 1 ==> steps == []
  {
    ghost var d := arr[..];
    var n := arr.Length;
    steps := [];
    if n > 0 {
      assert arr[n..] == [];
      var i := n - 1;
      while i > 0
        invariant 0 <= i < n
        invariant Extracting(arr[..], i)
        invariant i == n - 1 ==> steps == []
        invariant multiset(arr[..]) == multiset(d)
        invariant Paired(steps) && Within(steps, 0, n - 1)
        invariant Display(d, steps) == arr[..]
      {
        steps := ExtractMax(arr, i, steps, d);
        i := i - 1;
      }
      assert arr[..] == arr[..1] + arr[1..];
      AscendingJoin(arr[..], 1);
    }
  }

  /**
   * getHeapSortAnimations: heap-sorts `a` in place and returns the steps of
   * both loops, which replay the original heights into the sorted ones.
   */
  method GetHeapSortAnimations(a: array<int>) returns (trace: seq<Entry>, steps: seq<Step>)
    modifies a
    ensures Ascending(a[..]) && multiset(a[..]) == multiset(old(a[..]))
    ensures trace == Entries(steps) && Paired(steps) && Within(steps, 0, a.Length - 1)
    ensures Display(old(a[..]), steps) == a[..]
    ensures a.Length <= 1 ==> trace == []
  {
    ghost var before := a[..];
    var built := BuildHeap(a);
    ghost var heap := a[..];
    var sorted := SortDown(a);
    steps := built + sorted;
    PairedConcat(built, sorted);
    WithinConcat(built, sorted, 0, a.Length - 1);
    DisplayConcat(before, built, sorted);
    trace := Entries(steps);
  }

  /** heapifyNoAnimations: `Heapify` without the steps. */
  method HeapifyNoAnimations(arr: array<int>, n: int, i: int, ghost lo: int)
    requires 0 <= lo <= i < n <= arr.Length
    requires HeapExcept(arr[..], n, lo, i) && Bridge(arr[..], n, lo, i)
    modifies arr
    decreases n - i
    ensures HeapFrom(arr[..], n, lo)
    ensures multiset(arr[..]) == multiset(old(arr[..]))
    ensures arr[..i] == old(arr[..i]) && arr[n..] == old(arr[n..])
    ensures ParentCovers(old(arr[..]), n, i) ==> arr[..] == old(arr[..])
  {
    var largest := i;
    var left, right := 2 * i + 1, 2 * i + 2;
    if left < n && arr[left] > arr[largest] {
      largest := left;
    }
    if right < n && arr[right] > arr[largest] {
      largest := right;
    }
    if largest != i {
      ghost var d := arr[..];
      assert !ParentCovers(d, n, i);
      Swap(arr, i, largest);
      SiftStep(d, arr[..], n, lo, i, largest);
      ghost var mid := arr[..];
      HeapifyNoAnimations(arr, n, largest, lo);
      PrefixNarrow(mid, arr[..], i, largest);
      assert multiset(arr[..]) == multiset(mid) == multiset(d);
    } else {
      assert ParentCovers(arr[..], n, i);
      HeapComplete(arr[..], n, lo, i);
    }
  }

  /** One round of the second loop of heapSortArray: `ExtractMax` without the steps. */
  method ExtractMaxNoAnimations(arr: array<int>, i: int)
    requires 0 < i < arr.Length
    requires Extracting(arr[..], i)
    modifies arr
    ensures Extracting(arr[..], i - 1)
    ensures multiset(arr[..]) == multiset(old(arr[..]))
  {
    ghost var before := arr[..];
    Swap(arr, 0, i);
    ghost var mid := arr[..];
    RootSwapHeap(before, mid, i);
    HeapifyNoAnimations(arr, i, 0, 0);
    ghost var after := arr[..];
    SliceMultiset(mid, after, 0, i);
    ExtractOrder(before, mid, after, i);
  }

  /** heapSortArray: heap-sorts a fresh copy of `a`, which is left as it was. */
  method HeapSortArray(a: array<int>) returns (arr: array<int>)
    ensures fresh(arr) && Ascending(arr[..]) && multiset(arr[..]) == multiset(a[..])
  {
    arr := new int[a.Length](x reads a requires 0 <= x < a.Length => a[x]);
    assert arr[..] == a[..];
    var n := arr.Length;
    LeavesAreHeaps(arr[..], n);
    var i := n / 2 - 1;
    while i >= 0
      invariant -1 <= i <= n / 2 - 1
      invariant HeapFrom(arr[..], n, i + 1)
      invariant multiset(arr[..]) == multiset(a[..])
    {
      HeapifyNoAnimations(arr, n, i, i);
      i := i - 1;
    }
    if n > 0 {
      assert arr[n..] == [];
      i := n - 1;
      while i > 0
        invariant 0 <= i < n
        invariant Extracting(arr[..], i)
        invariant multiset(arr[..]) == multiset(a[..])
      {
        ExtractMaxNoAnimations(arr, i);
        i := i - 1;
      }
      assert arr[..] == arr[..1] + arr[1..];
      AscendingJoin(arr[..], 1);
    }
  }
}
