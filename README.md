# Sorting visualizer: the sorts, their animation traces and their replay

This project models the core of a sorting visualizer. The visualizer has
four instrumented sorts: merge sort, quick sort (Lomuto partition, with the
last element as pivot), heap sort (sift-down max-heap) and bubble sort.

- **Animated versions.** Each sorts its array argument in place and records
  an *animations list* of `[a, b]` pairs. A comparison pushes the same pair
  of bar indices twice. A write pushes `[bar, new height]`.
- **Silent versions.** Each sorts a copy and records nothing.
- **The player.** It walks an animations list and recolours or resizes the
  bars.
- **The self-test.** It compares every silent sort with an ascending
  reference sort.

Modules:

- `Sorted` (`sorted.dfy`): ascending order, the bounds used by the sorts,
  and the uniqueness of an ascending permutation. It also holds
  `ReferenceSort`, the ascending sort the self-test compares against.
- `Traces` (`traces.dfy`): the steps a sort pushes and what they mean.
  - `Step` is a value with a tag: `Mark(i, j)` for a comparison, or
    `Write(k, v)` for "bar `k` now shows `v`".
  - `Entry` is what the player actually receives: a plain array of values
    (`List`) or a non-array (`Scalar`).
  - `Paired` states the shape of a trace: marks come in identical
    back-to-back pairs, and writes stand between the pairs.
  - `Within` keeps every bar index in a range.
  - `Display(d, t)` gives the heights the writes of `t` produce from the
    heights `d`.
- `Exchange` (`exchange.dfy`): the exchange of two array elements, silent or
  with its two writes.
- `MergeSort`, `QuickSort`, `HeapSort`, `BubbleSort`: both versions of each
  algorithm.
  - Every animated sort proves that the array ends ascending and is a
    permutation of the input.
  - Every animated sort returns its trace both as the entries the player
    receives and as tagged steps. It proves that the trace is `Paired` and
    `Within` the array.
  - It also proves that `Display(original, steps)` is the sorted array: the
    writes, replayed by their tags, redraw the sorted bars.
- `Visualizer` (`visualizer.dfy`): the player.
  - `Classify` is the classification of `runAnimations`; `SameAnim` is
    `sameAnim`.
  - `FireAction`/`Fire` model one scheduled callback. `Replay` and `Run`
    model the whole replay as functions on a `Screen` (heights, colours, the
    running flag, and whether `finish` ran).
  - The class `Player` holds the heights and colours arrays. Its method
    `RunAnimations` replays a list with a loop and is proved equal to `Run`.
- `SelfTest` (`self_test.dfy`): `arraysAreEqual` and the comparison loop of
  `testSortingAlgorithms`.

## Model

| member | source | states |
|---|---|---|
| MergeSort.MergePure | src/SortingAlgorithms/sortingAlgorithms.jsx:54-62 | the loop plus the two leftover slices builds exactly `Merge(left, right)`, which takes from `left` on ties |
| MergeSort.MergePermutes | src/SortingAlgorithms/sortingAlgorithms.jsx:54-62 | the merge holds exactly the elements of both inputs |
| MergeSort.MergeAscending | src/SortingAlgorithms/sortingAlgorithms.jsx:54-62 | merging two ascending inputs gives an ascending result |
| MergeSort.MergeSortArray | src/SortingAlgorithms/sortingAlgorithms.jsx:46-52 | the result is ascending and a permutation of the input |
| MergeSort.MergeSortArrayIdempotent | src/SortingAlgorithms/sortingAlgorithms.jsx:46-52 | sorting a sorted result again changes nothing |
| MergeSort.HeadRound | src/SortingAlgorithms/sortingAlgorithms.jsx:22-30 | one round of the first loop of doMerge: the head of the left run moves on iff `aux[i] <= aux[j]`, otherwise the head of the right run does. The round pushes `[i, j]` twice and the write of the smaller head to `k`, and writes only `main[k]`. The loop state is kept: the placed prefix of the merge, the merge trace, and the heads recorded round by round, whose marks are those pairs |
| MergeSort.MergeHeads | src/SortingAlgorithms/sortingAlgorithms.jsx:21-31 | the first loop of doMerge stops once one run is used up. It has placed a prefix of the merge of the two halves of the auxiliary array. For each element it pushed the mark `[i, j]` of the two heads it compared, twice, and then the write of that element. Nothing outside the placed positions changes |
| MergeSort.Place | src/SortingAlgorithms/sortingAlgorithms.jsx:22-29 | one placement of doMerge: pushes the two marks and `[k, v]`, stores `v` at `k`, and changes no other position of the main buffer |
| MergeSort.CopyRest | src/SortingAlgorithms/sortingAlgorithms.jsx:32-43 | a leftover loop copies the rest of one half in order. For each element `aux[x]` it pushes `[x, x]` twice, then the write to the next position, and its head moves past that half while the other head stays where it is |
| MergeSort.DrainRest | src/SortingAlgorithms/sortingAlgorithms.jsx:32-43 | once one half is exhausted, appending the rest of both halves completes the merge |
| MergeSort.DoMerge | src/SortingAlgorithms/sortingAlgorithms.jsx:17-44 | `mainArray[startIdx..endIdx]` becomes the merge of the two sorted halves of the auxiliary array. The steps are exactly three per placed element, `3*(endIdx-startIdx+1)` in all: two identical marks, then `[k, value stored at k]`. The marks of round `q` name exactly the bars doMerge reads after `q` rounds (`HeadsAfter`): the two heads `[i, j]` while both halves last, then `[x, x]` for each leftover `x`. Nothing outside the range changes |
| MergeSort.HeadsAfterProgress | src/SortingAlgorithms/sortingAlgorithms.jsx:21-43 | every round of doMerge moves exactly one head on by one, so after `endIdx-startIdx+1` rounds both halves are used up |
| MergeSort.HeadsPathFollows | src/SortingAlgorithms/sortingAlgorithms.jsx:21-43 | heads recorded round by round from the start of both halves, each round following the last, are exactly the heads `HeadsAfter` gives |
| MergeSort.MarksFollowHeadsAfter | src/SortingAlgorithms/sortingAlgorithms.jsx:22-23 | marks that follow a recorded path of heads name, in each round, the bars doMerge reads after that many rounds |
| MergeSort.MergeTraceShape | src/SortingAlgorithms/sortingAlgorithms.jsx:17-44 | a merge trace is paired and stays within its range |
| MergeSort.DisplayMergeTrace | src/SortingAlgorithms/sortingAlgorithms.jsx:17-44 | replaying a merge trace writes the placed values over the range and leaves the rest |
| MergeSort.MergeSortHelper | src/SortingAlgorithms/sortingAlgorithms.jsx:9-15 | the range ends ascending and a permutation of what it held. Nothing outside the range changes in either buffer. A one-element range pushes nothing; a longer one ends with the full merge of the range |
| MergeSort.SortHalves | src/SortingAlgorithms/sortingAlgorithms.jsx:12-13 | the two recursive calls leave both halves of the auxiliary buffer ascending, each a permutation of the same half of the main buffer |
| MergeSort.GetMergeSortAnimations | src/SortingAlgorithms/sortingAlgorithms.jsx:1-7 | the argument ends sorted in place and is a permutation of the input. With length at most 1, the array itself comes back (a list of non-arrays). Otherwise a paired trace within the array comes back, and its writes redraw the sorted array |
| QuickSort.ScanSteps | src/SortingAlgorithms/sortingAlgorithms.jsx:82-87 | the steps of one round hold exactly two marks, and every mark is `[j, high]` |
| QuickSort.FrontExchange | src/SortingAlgorithms/sortingAlgorithms.jsx:84-89 | when `arr[j]` is below the pivot, pushes `[i, arr[j]]` and `[j, arr[i]]`, exchanges the two and moves `i` on by one; otherwise pushes nothing and changes nothing |
| QuickSort.ScanStep | src/SortingAlgorithms/sortingAlgorithms.jsx:82-89 | one round of the partition loop pushes exactly `ScanSteps`: `[j, high]` twice, then `[i, arr[j]]` and `[j, arr[i]]` exactly when `arr[j]` is below the pivot, in which case the two are exchanged and the front group grows by one. Only positions `i` and `j` change, the multiset is kept, and both groups keep their bound |
| QuickSort.PartitionScan | src/SortingAlgorithms/sortingAlgorithms.jsx:78-90 | after the loop, `[low, i)` is below the pivot and `[i, high)` is at least the pivot. The multiset is kept and nothing outside `[low, high]` changes. The steps hold `2*(high-low)` marks, and every mark is `[j, high]` with `low <= j < high`. Replaying the trace from the original array gives the array as it now stands |
| QuickSort.PlacePivot | src/SortingAlgorithms/sortingAlgorithms.jsx:91-94 | after the scan, exchanging the pivot at `high` with position `p` leaves everything in `[low, p)` below it and everything in `(p, high]` at least it, with the multiset of the range and everything outside it unchanged |
| QuickSort.PlacePivotBar | src/SortingAlgorithms/sortingAlgorithms.jsx:91-94 | pushes exactly `[p, arr[high]]` and `[high, arr[p]]`, exchanges the two, and leaves the pivot at `p` with the range split around it; the marks are still all `[j, high]` and the trace replays to the array |
| QuickSort.Partition | src/SortingAlgorithms/sortingAlgorithms.jsx:78-95 | returns `p` with `low <= p <= high` and `arr[p]` the pivot. Everything in `[low, p)` is below it and everything in `(p, high]` is at least it. The range keeps its multiset and nothing outside it changes. Every mark compares some `j` in `[low, high)` with the pivot bar `high` |
| QuickSort.SortedSides | src/SortingAlgorithms/sortingAlgorithms.jsx:70-76 | sorting both sides of a partitioned range sorts the range |
| QuickSort.SortSides | src/SortingAlgorithms/sortingAlgorithms.jsx:73-74 | the two recursive calls sort both sides of the pivot in place; the range ends ascending and a permutation of what it held, nothing outside it changes, and the two traces stay on their sides |
| QuickSort.QuickSortHelper | src/SortingAlgorithms/sortingAlgorithms.jsx:70-76 | `[low, high]` ends ascending and a permutation of what it held, and nothing outside it changes. When `low >= high` nothing is pushed and nothing changes |
| QuickSort.GetQuickSortAnimations | src/SortingAlgorithms/sortingAlgorithms.jsx:64-68 | the argument ends sorted in place and is a permutation of the input. The trace is paired and within the array, and its writes redraw the sorted array. With 0 or 1 elements the trace is empty |
| QuickSort.PartitionNoAnimations | src/SortingAlgorithms/sortingAlgorithms.jsx:111-122 | the same partition guarantees as `partition`, without steps |
| QuickSort.PartitionNoAnimationsScan | src/SortingAlgorithms/sortingAlgorithms.jsx:112-119 | after the loop, `[low, i)` is below the pivot and `[i, high)` is at least it; the multiset is kept and nothing outside `[low, high]` changes |
| QuickSort.QuickSortNoAnimations | src/SortingAlgorithms/sortingAlgorithms.jsx:103-109 | `[low, high]` ends ascending and a permutation of what it held, and nothing outside it changes |
| QuickSort.QuickSortArray | src/SortingAlgorithms/sortingAlgorithms.jsx:97-101 | returns a fresh array that is an ascending permutation of the argument. The argument is not modified |
| Exchange.Swap | src/SortingAlgorithms/sortingAlgorithms.jsx:87 | exchanges two elements, keeps the multiset and changes nothing else |
| Exchange.SwapBars | src/SortingAlgorithms/sortingAlgorithms.jsx:85-87 | pushes `[i, arr[j]]` and `[j, arr[i]]` and exchanges the elements. The trace stays paired and within range, and its replay still matches the array |
| HeapSort.HeapRootMax | src/SortingAlgorithms/sortingAlgorithms.jsx:128-133 | the root of a max-heap on `[0, n)` is at least every element of the heap |
| HeapSort.LeavesAreHeaps | src/SortingAlgorithms/sortingAlgorithms.jsx:128 | the positions from `floor(n/2)` on have no children, so they are trivially heaps, and the build loop starts below them |
| HeapSort.SiftStep | src/SortingAlgorithms/sortingAlgorithms.jsx:145-157 | exchanging a node with its larger, greater child moves the only heap defect down to that child |
| HeapSort.SiftOnce | src/SortingAlgorithms/sortingAlgorithms.jsx:152-157 | pushes `[i, largest]` twice, then `[i, arr[largest]]` and `[largest, arr[i]]`, and exchanges the two. Only `[i, n)` can change and the multiset is kept |
| HeapSort.Heapify | src/SortingAlgorithms/sortingAlgorithms.jsx:144-160 | if every node of `[lo, n)` except `i` is heap-ordered, and `i`'s parent (when in range) bounds `i`'s children, then all of `[lo, n)` is heap-ordered afterwards; both call sites meet this. With `lo = i` the condition on the parent is vacuous, since the parent lies below `lo`: if every node after `i` is heap-ordered, every node from `i` on is heap-ordered afterwards. Only indices in `[i, n)` change and the multiset is kept. The steps are paired, within `[i, n)`, and replay the change. They are empty exactly when `arr[i]` already bounds its children (`largest == i`), and then nothing changes |
| HeapSort.BuildHeap | src/SortingAlgorithms/sortingAlgorithms.jsx:128-130 | the build loop yields a max-heap on `[0, n)` holding the same multiset. It pushes nothing for fewer than two elements |
| HeapSort.HeapifyInner | src/SortingAlgorithms/sortingAlgorithms.jsx:129 | one round of the build loop: with every node after `i` heap-ordered, heapify at `i` makes every node from `i` on heap-ordered. It keeps the multiset, and the trace still replays to the array |
| HeapSort.ExtractOrder | src/SortingAlgorithms/sortingAlgorithms.jsx:132-139 | swapping the root to `i` and re-heapifying `[0, i)` extends the ascending suffix by one, with every element before it at most its first |
| HeapSort.ExtractMax | src/SortingAlgorithms/sortingAlgorithms.jsx:133-138 | one extraction round keeps `arr[i..n)` ascending, each element of it at least every element of `arr[0..i)`, and the rest a heap. The multiset is kept |
| HeapSort.SwapRoot | src/SortingAlgorithms/sortingAlgorithms.jsx:133-137 | pushes exactly `[0, i]` twice, `[0, arr[i]]` and `[i, arr[0]]`, exchanges the root with position `i` and changes nothing else, so the multiset is kept. Afterwards `[0, i)` is a heap except perhaps at the root, and the trace, still paired and within the array, replays to the array |
| HeapSort.SortDown | src/SortingAlgorithms/sortingAlgorithms.jsx:132-139 | the extraction loop turns a max-heap into an ascending permutation |
| HeapSort.GetHeapSortAnimations | src/SortingAlgorithms/sortingAlgorithms.jsx:124-142 | the argument ends sorted in place and is a permutation of the input. The trace is paired and within the array, and its writes redraw the sorted array. With 0 or 1 elements the trace is empty |
| HeapSort.HeapifyNoAnimations | src/SortingAlgorithms/sortingAlgorithms.jsx:178-190 | the same heap guarantees as `heapify`, without steps |
| HeapSort.ExtractMaxNoAnimations | src/SortingAlgorithms/sortingAlgorithms.jsx:170-173 | one extraction round of heapSortArray, with the same invariant as `ExtractMax` |
| HeapSort.HeapSortArray | src/SortingAlgorithms/sortingAlgorithms.jsx:162-176 | returns a fresh array that is an ascending permutation of the argument. The argument is not modified |
| BubbleSort.PassSettles | src/SortingAlgorithms/sortingAlgorithms.jsx:195-205 | a pass that brings the largest element of the unsorted front to its end settles one more position: the suffix stays ascending, and every element before it is at most its first |
| BubbleSort.CompareNeighbours | src/SortingAlgorithms/sortingAlgorithms.jsx:197-203 | pushes exactly `CompareSteps(j, arr[j], arr[j+1])`: `[j, j+1]` twice, then `[j, arr[j+1]]` and `[j+1, arr[j]]` exactly when `arr[j] > arr[j+1]`, in which case the pair is exchanged. The larger of the two ends at `j+1` and nothing else changes |
| BubbleSort.CompareSteps | src/SortingAlgorithms/sortingAlgorithms.jsx:197-202 | the steps of one comparison hold exactly two marks, and every mark is the neighbour pair `[j, j+1]` |
| BubbleSort.OrderPair | src/SortingAlgorithms/sortingAlgorithms.jsx:199-202 | when `arr[j] > arr[j+1]`, pushes `[j, arr[j+1]]` and `[j+1, arr[j]]` and exchanges the pair; otherwise pushes nothing and changes nothing. Either way the larger value ends at `j+1` |
| BubbleSort.BubblePass | src/SortingAlgorithms/sortingAlgorithms.jsx:196-204 | the inner loop leaves the largest element of `[0, end]` at `end` and changes nothing after it. It pushes `2*end` marks, all neighbour pairs `[j, j+1]` |
| BubbleSort.BubbleRound | src/SortingAlgorithms/sortingAlgorithms.jsx:195-205 | after outer pass `i`, the last `i+1` positions hold the largest values in ascending order and the multiset is kept. The pass adds `2*(n-i-1)` marks, all neighbour pairs `[j, j+1]`, and the trace still replays to the array |
| BubbleSort.BubbleRounds | src/SortingAlgorithms/sortingAlgorithms.jsx:195-205 | after the `n-1` outer passes of a list of at least two, everything from position 1 on is settled, so the array is ascending. The multiset is kept. The trace is paired, within the array and made of neighbour marks, holds the marks of all passes, and replays to the array |
| BubbleSort.PassMarksTotal | src/SortingAlgorithms/sortingAlgorithms.jsx:195-198 | the first `i` passes over `n` bars push `i*(2n-1-i)` marks |
| BubbleSort.AllPassMarks | src/SortingAlgorithms/sortingAlgorithms.jsx:195-198 | all `n-1` passes push `n(n-1)` marks |
| BubbleSort.GetBubbleSortAnimations | src/SortingAlgorithms/sortingAlgorithms.jsx:192-207 | the argument ends sorted in place and is a permutation of the input. The trace is paired, within the array, and holds exactly `n(n-1)` marks, each a neighbour pair `[j, j+1]` with `j+1 < n`. Its writes redraw the sorted array |
| BubbleSort.BubbleRoundNoAnimations | src/SortingAlgorithms/sortingAlgorithms.jsx:212-218 | one outer pass of bubbleSortArray settles one more position |
| BubbleSort.BubblePassNoAnimations | src/SortingAlgorithms/sortingAlgorithms.jsx:213-217 | the inner loop of bubbleSortArray leaves the largest element of `[0, end]` at `end`, changes nothing after it and keeps the multiset |
| BubbleSort.BubbleSortInPlace | src/SortingAlgorithms/sortingAlgorithms.jsx:211-218 | the two loops of bubbleSortArray leave the copy ascending and a permutation of what it held |
| BubbleSort.BubbleSortArray | src/SortingAlgorithms/sortingAlgorithms.jsx:209-220 | returns a fresh array that is an ascending permutation of the argument. The argument is not modified |
| Sorted.AscendingPermutationUnique | src/SortingVisualizer/SortingVisualizer.jsx:195-198 | two ascending permutations of the same values are equal, so any correct sort agrees with the reference sort |
| Sorted.ReferenceSort | src/SortingVisualizer/SortingVisualizer.jsx:195 | the reference sort returns an ascending permutation of its input |
| Visualizer.Classify | src/SortingVisualizer/SortingVisualizer.jsx:112-119 | an entry is skipped iff it is not an array or has fewer than two components. It is a colour pair iff both of its first two components are integers in `[0, nBars)`. Otherwise it is a height write of its second component to the bar its first names |
| Visualizer.SameAnim | src/SortingVisualizer/SortingVisualizer.jsx:95-98 | true iff the second entry is present and an array of the same length whose first two components equal those of the first |
| Visualizer.SameAnimSteps | src/SortingVisualizer/SortingVisualizer.jsx:95-98 | for two generated pairs, sameAnim holds iff they are the same pair |
| Visualizer.SameAnimLast | src/SortingVisualizer/SortingVisualizer.jsx:120-121 | the last entry has no successor, so sameAnim is false for it |
| Visualizer.FireAction | src/SortingVisualizer/SortingVisualizer.jsx:124-139 | nothing happens once the running flag is clear, and nothing for a skipped entry. A colour pair changes only the colours of its two bars, to SECONDARY iff sameAnim holds and to PRIMARY otherwise. A height write changes only the height of its bar, and only if that bar exists. The flags change only through `finish`, on the last entry |
| Visualizer.Fire | src/SortingVisualizer/SortingVisualizer.jsx:111-139 | the callback of entry `i`: a skipped entry changes nothing, and the flags change only for the last entry |
| Visualizer.Run | src/SortingVisualizer/SortingVisualizer.jsx:85-90 | a missing or empty list changes nothing; in every case the screen keeps one height and one colour per bar |
| Visualizer.Replay | src/SortingVisualizer/SortingVisualizer.jsx:110-142 | the callbacks from entry `i` on, in order; once the running flag is clear, none of them changes anything |
| Visualizer.ReplayFromStop | src/SortingVisualizer/SortingVisualizer.jsx:124-139 | a stop before callback `k` clears the flag and leaves the bars as the callbacks before `k` made them |
| Visualizer.SkippedLastNeverFinishes | src/SortingVisualizer/SortingVisualizer.jsx:110-142 | if the last entry is skipped, `finish` never runs and the running flag stays set |
| Visualizer.OneElementMergeTraceNeverFinishes | src/SortingVisualizer/SortingVisualizer.jsx:110-112 | the one-element array returned by getMergeSortAnimations leaves the player running for good |
| Visualizer.GeneratedTraceFinishes | src/SortingVisualizer/SortingVisualizer.jsx:124-139 | without a stop, a non-empty list of pairs ends in `finish`: the running flag is clear and the bars flashed |
| Visualizer.ValuesAgreeWithRoles | src/SortingVisualizer/SortingVisualizer.jsx:117 | when no written value names a bar, the classification by value matches the role of each step |
| Visualizer.RunShowsDisplayWhenValuesAboveBars | src/SortingVisualizer/SortingVisualizer.jsx:85-143 | as written, an uninterrupted replay ends on the heights the trace means when all written values lie at or above the number of bars |
| Visualizer.SmallWriteIsColorPair | src/SortingVisualizer/SortingVisualizer.jsx:117 | a write `[k, v]` with both `k` and `v` in `[0, nBars)` is treated as a colour pair |
| Visualizer.ReplayMisreadsSmallWrites | src/SortingVisualizer/SortingVisualizer.jsx:117-137 | on 20 bars, replaying the first exchange of a bubble sort of `9, 6, ...` leaves bar 0 at 9, although the trace means 6 |
| Visualizer.ClassifyStep | src/SortingVisualizer/SortingVisualizer.jsx:117 | the corrected classification: a mark is a colour pair and a write is a height write, whatever their values |
| Visualizer.ReplayTaggedShowsDisplay | src/SortingVisualizer/SortingVisualizer.jsx:110-142 | replaying a trace within the bars by role ends on the heights its writes mean |
| Visualizer.Player.constructor | src/SortingVisualizer/SortingVisualizer.jsx:92-93 | the bars show the given heights in the base colour, and nothing is running |
| Visualizer.Player.Finish | src/SortingVisualizer/SortingVisualizer.jsx:100-108 | finish clears the running flag and flashes the bars as sorted |
| Visualizer.Player.PlayEntry | src/SortingVisualizer/SortingVisualizer.jsx:111-141 | one callback changes the arrays and flags exactly as `Fire` says |
| Visualizer.Player.RunAnimations | src/SortingVisualizer/SortingVisualizer.jsx:85-143 | the loop leaves the bars and flags exactly as `Run` says. A missing or empty list does nothing; otherwise the flag is set and the callbacks fire in order |
| SelfTest.ArraysAreEqual | src/SortingVisualizer/SortingVisualizer.jsx:331-337 | false when the lengths differ; otherwise true iff the arrays agree element by element |
| SelfTest.SortWith | src/SortingVisualizer/SortingVisualizer.jsx:181-196 | every silent sort returns exactly the reference ascending sort of the trial |
| SelfTest.TestAlgorithm | src/SortingVisualizer/SortingVisualizer.jsx:188-203 | `outcome == Passed` for every algorithm and every list of trials: no silent sort's output differs from the reference sort, so the branch that stops at the first differing output and logs a failure is never taken |
| SelfTest.TestSortingAlgorithms | src/SortingVisualizer/SortingVisualizer.jsx:179-205 | nothing while an animation runs; otherwise one outcome per algorithm, all passed |

## Left out

- React state, hooks and refs, the DOM, and the JSX layout are not modelled: they are UI plumbing. The bars are two arrays, and the `sorted` class is the `flashed` flag.
- Timers are not modelled. Each callback fires in list order, which is the order of its delay `i * animationSpeed`. `clearAllTimeouts` and the 900 ms flash removal are not modelled either.
- `handleStop` is modelled only as the running flag being cleared before callback `stopAt`. Its reset of the colours and heights of the bars is left out as a DOM reset.
- `scaleHeight` and `measureContainer` are floating-point and DOM arithmetic. Bars hold raw heights.
- `Math.random` is left out. The random arrays and trials are parameters.
- The reference `Array.prototype.sort` is a library call. It is modelled as `ReferenceSort`, an ascending sort whose result is unique.
- The console messages of the self-test become `Outcome` values.
- Values other than integers that could reach the player are an opaque `Other` value. Strings, `NaN` and nested arrays are not told apart.
- `resetArray` and `src/App.jsx` are not part of this model.
- SelfTest.TestAlgorithm: the fixed 50 trials per algorithm are a list of trials of any length.
- MergeSort.GetMergeSortAnimations, QuickSort.GetQuickSortAnimations, HeapSort.GetHeapSortAnimations, BubbleSort.GetBubbleSortAnimations: each also returns the tagged steps as a second, model-only result. The source's list is the first result.

## Findings

| source | as written | input that shows it | evidently intended | confidence | as-written member | corrected member |
|---|---|---|---|---|---|---|
| src/SortingVisualizer/SortingVisualizer.jsx:117 | a pair is a colour pair when both components are integers in `[0, nBars)`, so a write `[k, v]` whose value `v` is below the number of bars is replayed as a recolouring and the bar keeps its old height | 20 bars showing `9, 6, 100, ...` (values in [5, 730], sizes 20 to 150): bubble sort pushes `[0,1], [0,1], [0,6], [1,9]`, and the replay leaves bar 0 at 9 where the trace means 6 | a write always resizes its bar: the step's role decides, not its values | high (proved; not executed) | Visualizer.ReplayMisreadsSmallWrites | Visualizer.ReplayTaggedShowsDisplay |
