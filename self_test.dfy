/**
 * The self-test of the visualizer: each silent sort is run on trial arrays
 * and its output compared with the ascending sort of the same values. The
 * random trial arrays are parameters here.
 */
module SelfTest {
  import opened Sorted
  import MergeSort
  import QuickSort
  import HeapSort
  import BubbleSort

  /** arraysAreEqual: false on different lengths, otherwise true exactly when every position agrees. */
  method ArraysAreEqual(arrayOne: seq<int>, arrayTwo: seq<int>) returns (equal: bool)
    ensures equal <==> arrayOne == arrayTwo
  {
    if |arrayOne| != |arrayTwo| {
      return false;
    }
    for i := 0 to |arrayOne|
      invariant arrayOne[..i] == arrayTwo[..i]
    {
      if arrayOne[i] != arrayTwo[i] {
        return false;
      }
    }
    assert arrayOne[..|arrayOne|] == arrayOne && arrayTwo[..|arrayTwo|] == arrayTwo;
    return true;
  }

  /** The four silent sorts the self-test runs, in its order. */
  datatype Algorithm = Merge | Quick | Heap | Bubble

  const Algorithms: seq<Algorithm> := [Merge, Quick, Heap, Bubble]

  /** The outcome the self-test logs for one algorithm. */
  datatype Outcome = Passed | FailedOn(testArray: seq<int>)

  /** `func(testArray.slice())`: runs one silent sort on a copy of the trial. */
  method SortWith(algorithm: Algorithm, testArray: seq<int>) returns (actual: seq<int>)
    ensures actual == ReferenceSort(testArray)
  {
    match algorithm {
      case Merge =>
        actual := MergeSort.MergeSortArray(testArray);
      case Quick =>
        var copy := new int[|testArray|](k requires 0 <= k < |testArray| => testArray[k]);
        assert copy[..] == testArray;
        var r := QuickSort.QuickSortArray(copy);
        actual := r[..];
      case Heap =>
        var copy := new int[|testArray|](k requires 0 <= k < |testArray| => testArray[k]);
        assert copy[..] == testArray;
        var r := HeapSort.HeapSortArray(copy);
        actual := r[..];
      case Bubble =>
        var copy := new int[|testArray|](k requires 0 <= k < |testArray| => testArray[k]);
        assert copy[..] == testArray;
        var r := BubbleSort.BubbleSortArray(copy);
        actual := r[..];
    }
    AscendingPermutationUnique(actual, ReferenceSort(testArray));
  }

  /**
   * The trials of one algorithm: each output is compared with the ascending
   * sort of its trial, and the first mismatch ends the trials with a
   * failure. Every silent sort is an ascending permutation, which is unique,
   * so none fails.
   */
  method TestAlgorithm(algorithm: Algorithm, trials: seq<seq<int>>) returns (outcome: Outcome)
    ensures outcome == Passed
  {
    outcome := Passed;
    var i := 0;
    while i < |trials| && outcome == Passed
      invariant 0 <= i <= |trials|
      invariant outcome == Passed
    {
      var testArray := trials[i];
      var expected := ReferenceSort(testArray);
      var actual := SortWith(algorithm, testArray);
      var equal := ArraysAreEqual(expected, actual);
      if !equal {
        outcome := FailedOn(testArray);
      }
      i := i + 1;
    }
  }

  /**
   * testSortingAlgorithms: nothing while an animation runs; otherwise one
   * outcome per algorithm, each run on its own trials.
   */
  method TestSortingAlgorithms(isRunning: bool, trials: seq<seq<seq<int>>>) returns (outcomes: seq<Outcome>)
    requires |trials| == |Algorithms|
    ensures isRunning ==> outcomes == []
    ensures !isRunning ==> |outcomes| == |Algorithms| && forall k :: 0 <= k < |outcomes| ==> outcomes[k] == Passed
  {
    outcomes := [];
    if isRunning {
      return;
    }
    for k := 0 to |Algorithms|
      invariant |outcomes| == k
      invariant forall x :: 0 <= x < k ==> outcomes[x] == Passed
    {
      var outcome := TestAlgorithm(Algorithms[k], trials[k]);
      outcomes := outcomes + [outcome];
    }
  }
}
