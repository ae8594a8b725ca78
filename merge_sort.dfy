/**
 * Merge sort, in its two forms: the animated top-down sort that alternates
 * between the array and an auxiliary copy of it, and the silent sort that
 * recurses on copies of the two halves.
 */
module MergeSort {
  import opened Sorted
  import opened Traces

  /**
   * The merge of `left[i..]` and `right[j..]`: the smaller head goes first,
   * on a tie the head of `left` does, and once one run is used up the rest
   * of the other follows.
   */
  function MergeFrom(left: seq<int>, right: seq<int>, i: nat, j: nat): (r: seq<int>)
    requires i <= |left| && j <= |right|
    decreases (|left| - i) + (|right| - j)
  {
    if i < |left| && j < |right| then
      if left[i] <= right[j] then [left[i]] + MergeFrom(left, right, i + 1, j)
      else [right[j]] + MergeFrom(left, right, i, j + 1)
    else if i < |left| then [left[i]] + MergeFrom(left, right, i + 1, j)
    else if j < |right| then [right[j]] + MergeFrom(left, right, i, j + 1)
    else []
  }

  /** The merge of two whole runs. */
  function Merge(left: seq<int>, right: seq<int>): (r: seq<int>) {
    MergeFrom(left, right, 0, 0)
  }

  /** Taking the head of `left[i..]` keeps the elements of the merge. */
  lemma TakeLeftPermutes(left: seq<int>, right: seq<int>, i: nat, j: nat)
    requires i < |left| && j <= |right|
    requires multiset(MergeFrom(left, right, i + 1, j)) == multiset(left[i + 1..]) + multiset(right[j..])
    ensures multiset([left[i]] + MergeFrom(left, right, i + 1, j)) == multiset(left[i..]) + multiset(right[j..])
  {
    assert left[i..] == [left[i]] + left[i + 1..];
  }

  /** Taking the head of `right[j..]` keeps the elements of the merge. */
  lemma TakeRightPermutes(left: seq<int>, right: seq<int>, i: nat, j: nat)
    requires i <= |left| && j < |right|
    requires multiset(MergeFrom(left, right, i, j + 1)) == multiset(left[i..]) + multiset(right[j + 1..])
    ensures multiset([right[j]] + MergeFrom(left, right, i, j + 1)) == multiset(left[i..]) + multiset(right[j..])
  {
    assert right[j..] == [right[j]] + right[j + 1..];
  }

  /** A merge holds exactly the elements of the two runs. */
  lemma {:induction false} MergeFromPermutes(left: seq<int>, right: seq<int>, i: nat, j: nat)
    requires i <= |left| && j <= |right|
    ensures multiset(MergeFrom(left, right, i, j)) == multiset(left[i..]) + multiset(right[j..])
    decreases (|left| - i) + (|right| - j)
  {
    if i < |left| && (j == |right| || left[i] <= right[j]) {
      MergeFromPermutes(left, right, i + 1, j);
      TakeLeftPermutes(left, right, i, j);
      assert MergeFrom(left, right, i, j) == [left[i]] + MergeFrom(left, right, i + 1, j);
    } else if j < |right| {
      MergeFromPermutes(left, right, i, j + 1);
      TakeRightPermutes(left, right, i, j);
      assert MergeFrom(left, right, i, j) == [right[j]] + MergeFrom(left, right, i, j + 1);
    } else {
      assert MergeFrom(left, right, i, j) == [] && left[i..] == [] && right[j..] == [];
    }
  }

  /** The head taken from `left[i..]` is at most every element merged after it. */
  lemma TakeLeftBound(left: seq<int>, right: seq<int>, i: nat, j: nat)
    requires Ascending(left) && Ascending(right)
    requires i < |left| && j <= |right| && (j == |right| || left[i] <= right[j])
    ensures AllAtLeast(MergeFrom(left, right, i + 1, j), left[i])
  {
    MergeFromPermutes(left, right, i + 1, j);
    assert AllAtLeast(left[i + 1..], left[i]);
    assert AllAtLeast(right[j..], left[i]);
    AtLeastOfUnion(left[i], left[i + 1..], right[j..], MergeFrom(left, right, i + 1, j));
  }

  /** The head taken from `right[j..]` is at most every element merged after it. */
  lemma TakeRightBound(left: seq<int>, right: seq<int>, i: nat, j: nat)
    requires Ascending(left) && Ascending(right)
    requires i <= |left| && j < |right| && (i == |left| || left[i] > right[j])
    ensures AllAtLeast(MergeFrom(left, right, i, j + 1), right[j])
  {
    MergeFromPermutes(left, right, i, j + 1);
    assert AllAtLeast(left[i..], right[j]);
    assert AllAtLeast(right[j + 1..], right[j]);
    AtLeastOfUnion(right[j], left[i..], right[j + 1..], MergeFrom(left, right, i, j + 1));
  }

  /** Merging two ascending runs gives an ascending sequence. */
  lemma {:induction false} MergeFromAscending(left: seq<int>, right: seq<int>, i: nat, j: nat)
    requires i <= |left| && j <= |right|
    requires Ascending(left) && Ascending(right)
    ensures Ascending(MergeFrom(left, right, i, j))
    decreases (|left| - i) + (|right| - j)
  {
    if i < |left| && (j == |right| || left[i] <= right[j]) {
      MergeFromAscending(left, right, i + 1, j);
      TakeLeftBound(left, right, i, j);
      ConsAscending(left[i], MergeFrom(left, right, i + 1, j));
    } else if j < |right| {
      MergeFromAscending(left, right, i, j + 1);
      TakeRightBound(left, right, i, j);
      ConsAscending(right[j], MergeFrom(left, right, i, j + 1));
    }
  }

  lemma MergePermutes(left: seq<int>, right: seq<int>)
    ensures multiset(Merge(left, right)) == multiset(left) + multiset(right)
  {
    MergeFromPermutes(left, right, 0, 0);
    assert left[0..] == left && right[0..] == right;
  }

  lemma MergeAscending(left: seq<int>, right: seq<int>)
    requires Ascending(left) && Ascending(right)
    ensures Ascending(Merge(left, right))
  {
    MergeFromAscending(left, right, 0, 0);
  }

  /** Once `right` is used up, the merge is the rest of `left`. */
  lemma {:induction false} MergeFromDrainLeft(left: seq<int>, right: seq<int>, i: nat)
    requires i <= |left|
    ensures MergeFrom(left, right, i, |right|) == left[i..]
    decreases |left| - i
  {
    if i < |left| {
      MergeFromDrainLeft(left, right, i + 1);
      assert left[i..] == [left[i]] + left[i + 1..];
    }
  }

  /** Once `left` is used up, the merge is the rest of `right`. */
  lemma {:induction false} MergeFromDrainRight(left: seq<int>, right: seq<int>, j: nat)
    requires j <= |right|
    ensures MergeFrom(left, right, |left|, j) == right[j..]
    decreases |right| - j
  {
    if j < |right| {
      MergeFromDrainRight(left, right, j + 1);
      assert right[j..] == [right[j]] + right[j + 1..];
    }
  }

  /**
   * mergePure: takes heads while both runs last, then appends whatever is left
   * of either run.
   */
  method MergePure(left: seq<int>, right: seq<int>) returns (result: seq<int>)
    ensures result == Merge(left, right)
  {
    result := [];
    var i, j := 0, 0;
    while i < |left| && j < |right|
      invariant 0 <= i <= |left| && 0 <= j <= |right|
      invariant result + MergeFrom(left, right, i, j) == Merge(left, right)
    {
      if left[i] <= right[j] {
        assert result + MergeFrom(left, right, i, j) == (result + [left[i]]) + MergeFrom(left, right, i + 1, j);
        result := result + [left[i]];
        i := i + 1;
      } else {
        assert result + MergeFrom(left, right, i, j) == (result + [right[j]]) + MergeFrom(left, right, i, j + 1);
        result := result + [right[j]];
        j := j + 1;
      }
    }
    if i == |left| {
      MergeFromDrainRight(left, right, j);
      assert left[i..] == [];
    } else {
      MergeFromDrainLeft(left, right, i);
      assert right[j..] == [];
    }
    result := result + left[i..] + right[j..];
  }

  /** Merging sorted copies of the two halves of `s` sorts `s`. */
  lemma MergeHalves(s: seq<int>, mid: nat, left: seq<int>, right: seq<int>)
    requires mid <= |s|
    requires Ascending(left) && multiset(left) == multiset(s[..mid])
    requires Ascending(right) && multiset(right) == multiset(s[mid..])
    ensures Ascending(Merge(left, right)) && multiset(Merge(left, right)) == multiset(s)
  {
    MergeAscending(left, right);
    MergePermutes(left, right);
    assert s == s[..mid] + s[mid..];
  }

  /** mergeSortArray: sorts each half of a copy and merges them; a sequence of at most one element is its own result. */
  function MergeSortArray(s: seq<int>): (r: seq<int>)
    ensures Ascending(r) && multiset(r) == multiset(s)
    decreases |s|
  {
    if |s| <= 1 then s
    else
      var mid := |s| / 2;
      var left := MergeSortArray(s[..mid]);
      var right := MergeSortArray(s[mid..]);
      MergeHalves(s, mid, left, right);
      Merge(left, right)
  }

  /** Sorting a sorted sequence again changes nothing. */
  lemma MergeSortArrayIdempotent(s: seq<int>)
    ensures MergeSortArray(MergeSortArray(s)) == MergeSortArray(s)
  {
    var once := MergeSortArray(s);
    AscendingPermutationUnique(MergeSortArray(once), once);
  }

  /**
   * The steps one merge of the range [s, e] emits: for the `q`-th element it
   * places, two identical marks naming bars in [s, e], then the write of
   * `placed[q]` to bar `s + q`.
   */
  ghost predicate MergeTrace(t: seq<Step>, s: int, e: int, placed: seq<int>) {
    && |t| == 3 * |placed|
    && forall q :: 0 <= q < |placed| ==>
         && t[3 * q].Mark? && t[3 * q + 1] == t[3 * q] && StepWithin(t[3 * q], s, e)
         && t[3 * q + 2] == Write(s + q, placed[q])
  }

  /** Two identical marks and the write of `v` to the next bar extend a merge trace by `v`. */
  lemma MergeTraceAppend(t: seq<Step>, s: int, e: int, placed: seq<int>, m: Step, w: Step, v: int)
    requires MergeTrace(t, s, e, placed)
    requires m.Mark? && StepWithin(m, s, e)
    requires w == Write(s + |placed|, v)
    ensures MergeTrace(t + [m, m, w], s, e, placed + [v])
  {
    var t' := t + [m, m, w];
    var p' := placed + [v];
    forall q | 0 <= q < |p'|
      ensures t'[3 * q].Mark? && t'[3 * q + 1] == t'[3 * q] && StepWithin(t'[3 * q], s, e)
      ensures t'[3 * q + 2] == Write(s + q, p'[q])
    {
      if q < |placed| {
        assert t'[3 * q] == t[3 * q] && t'[3 * q + 1] == t[3 * q + 1] && t'[3 * q + 2] == t[3 * q + 2];
      }
    }
  }

  /** A merge trace is paired and names only bars in [s, e]. */
  lemma {:induction false} MergeTraceShape(t: seq<Step>, s: int, e: int, placed: seq<int>)
    requires MergeTrace(t, s, e, placed)
    requires s + |placed| - 1 <= e
    ensures Paired(t) && Within(t, s, e)
    decreases |placed|
  {
    var n := |placed|;
    if n == 0 {
      assert t == [];
    } else {
      var t0 := t[..3 * (n - 1)];
      assert MergeTrace(t0, s, e, placed[..n - 1]) by {
        forall q | 0 <= q < n - 1
          ensures t0[3 * q].Mark? && t0[3 * q + 1] == t0[3 * q] && StepWithin(t0[3 * q], s, e)
          ensures t0[3 * q + 2] == Write(s + q, placed[..n - 1][q])
        {
          assert t0[3 * q] == t[3 * q] && t0[3 * q + 1] == t[3 * q + 1] && t0[3 * q + 2] == t[3 * q + 2];
        }
      }
      MergeTraceShape(t0, s, e, placed[..n - 1]);
      var m := t[3 * (n - 1)];
      assert t[3 * (n - 1) + 1] == m;
      assert t == t0 + [m, m] + [t[3 * (n - 1) + 2]];
      PairedAppend(t0, [m, m]);
      PairedAppend(t0 + [m, m], [t[3 * (n - 1) + 2]]);
      forall q | 0 <= q < |t|
        ensures StepWithin(t[q], s, e)
      {
        if q < 3 * (n - 1) {
          assert t[q] == t0[q];
        }
      }
    }
  }

  /** Replaying a merge trace overwrites bars s, s+1, ... with the placed values, in order. */
  lemma {:induction false} DisplayMergeTrace(d: seq<int>, t: seq<Step>, s: int, e: int, placed: seq<int>)
    requires MergeTrace(t, s, e, placed)
    requires 0 <= s && s + |placed| <= |d|
    ensures Display(d, t) == d[..s] + placed + d[s + |placed|..]
    decreases |placed|
  {
    var n := |placed|;
    if n == 0 {
      assert t == [];
    } else {
      var t0 := t[..3 * (n - 1)];
      var p0 := placed[..n - 1];
      assert MergeTrace(t0, s, e, p0) by {
        forall q | 0 <= q < n - 1
          ensures t0[3 * q].Mark? && t0[3 * q + 1] == t0[3 * q] && StepWithin(t0[3 * q], s, e)
          ensures t0[3 * q + 2] == Write(s + q, p0[q])
        {
          assert t0[3 * q] == t[3 * q] && t0[3 * q + 1] == t[3 * q + 1] && t0[3 * q + 2] == t[3 * q + 2];
        }
      }
      DisplayMergeTrace(d, t0, s, e, p0);
      var m := t[3 * (n - 1)];
      assert t == t0 + [m, m] + [Write(s + n - 1, placed[n - 1])];
      DisplayMarks(d, t0, m);
      assert (t0 + [m, m] + [Write(s + n - 1, placed[n - 1])])[..|t| - 1] == t0 + [m, m];
      assert placed == p0 + [placed[n - 1]];
    }
  }

  /** Taking the head of `left[i..]` moves it from the pending merge to the placed prefix. */
  lemma TakeLeft(left: seq<int>, right: seq<int>, i: nat, j: nat, placed: seq<int>, whole: seq<int>)
    requires i < |left| && j <= |right| && (j == |right| || left[i] <= right[j])
    requires placed + MergeFrom(left, right, i, j) == whole
    ensures (placed + [left[i]]) + MergeFrom(left, right, i + 1, j) == whole
  {
    var rest := MergeFrom(left, right, i + 1, j);
    assert MergeFrom(left, right, i, j) == [left[i]] + rest;
    assert placed + ([left[i]] + rest) == (placed + [left[i]]) + rest;
  }

  /** Taking the head of `right[j..]` moves it from the pending merge to the placed prefix. */
  lemma TakeRight(left: seq<int>, right: seq<int>, i: nat, j: nat, placed: seq<int>, whole: seq<int>)
    requires i <= |left| && j < |right| && (i == |left| || left[i] > right[j])
    requires placed + MergeFrom(left, right, i, j) == whole
    ensures (placed + [right[j]]) + MergeFrom(left, right, i, j + 1) == whole
  {
    var rest := MergeFrom(left, right, i, j + 1);
    assert MergeFrom(left, right, i, j) == [right[j]] + rest;
    assert placed + ([right[j]] + rest) == (placed + [right[j]]) + rest;
  }

  /** The heads of the two runs doMerge is merging: the next bar it reads from each. */
  datatype Heads = Heads(left: int, right: int)

  /**
   * The heads of the runs aux[..m] and aux[m+1..e] after one more round of
   * doMerge from heads `h`: while both runs have elements the smaller head
   * advances (the left one on a tie); then the left run is copied out, then
   * the right one.
   */
  function NextHeads(a: seq<int>, m: int, e: int, h: Heads): (r: Heads)
    requires 0 <= h.left <= m + 1 <= h.right <= e + 1 <= |a|
    ensures h.left <= r.left <= m + 1 && h.right <= r.right <= e + 1
    ensures r.left + r.right == if h.left <= m || h.right <= e then h.left + h.right + 1 else h.left + h.right
  {
    var Heads(i, j) := h;
    if i <= m && j <= e then (if a[i] <= a[j] then Heads(i + 1, j) else Heads(i, j + 1))
    else if i <= m then Heads(i + 1, j)
    else if j <= e then Heads(i, j + 1)
    else Heads(i, j)
  }

  /**
   * The heads doMerge has reached after `q` rounds of merging aux[s..m] with
   * aux[m+1..e]. Every round reads one more bar, so after all e + 1 - s
   * rounds both runs are used up.
   */
  function HeadsAfter(a: seq<int>, s: int, m: int, e: int, q: nat): (h: Heads)
    requires 0 <= s <= m < e < |a|
    ensures s <= h.left <= m + 1 <= h.right <= e + 1
  {
    if q == 0 then Heads(s, m + 1) else NextHeads(a, m, e, HeadsAfter(a, s, m, e, q - 1))
  }

  /** Every round of doMerge reads one more bar, so after all e + 1 - s rounds both runs are used up. */
  lemma {:induction false} HeadsAfterProgress(a: seq<int>, s: int, m: int, e: int, q: nat)
    requires 0 <= s <= m < e < |a| && q <= e + 1 - s
    ensures HeadsAfter(a, s, m, e, q).left + HeadsAfter(a, s, m, e, q).right == s + m + 1 + q
    ensures q == e + 1 - s ==> HeadsAfter(a, s, m, e, q) == Heads(m + 1, e + 1)
  {
    if q > 0 {
      HeadsAfterProgress(a, s, m, e, q - 1);
    }
  }

  /**
   * The bars a round of doMerge marks from heads `h`: the two heads while
   * both runs have elements, otherwise the head of the run being copied,
   * with itself.
   */
  function ReadMark(m: int, e: int, h: Heads): Step {
    if h.left <= m && h.right <= e then Mark(h.left, h.right)
    else if h.left <= m then Mark(h.left, h.left)
    else Mark(h.right, h.right)
  }

  /** The step that opens round `q` of a merge trace. */
  function RoundOpen(t: seq<Step>, q: int): Step
    requires 0 <= 3 * q < |t|
  {
    t[3 * q]
  }

  /** The first `n` rounds of `t` mark the bars doMerge reads in those rounds. */
  ghost predicate MarksFollowHeads(t: seq<Step>, a: seq<int>, s: int, m: int, e: int, n: int)
    requires 0 <= s <= m < e < |a|
  {
    && 3 * n <= |t|
    && forall q {:trigger RoundOpen(t, q)} :: 0 <= q < n ==> RoundOpen(t, q) == ReadMark(m, e, HeadsAfter(a, s, m, e, q))
  }

  /**
   * `path` lists the heads doMerge holds at the start of each of its rounds:
   * it starts from the first bar of each run, and each round moves from one
   * entry to the next.
   */
  ghost predicate HeadsPath(path: seq<Heads>, a: seq<int>, s: int, m: int, e: int)
    requires 0 <= s <= m < e < |a|
  {
    && |path| > 0 && path[0] == Heads(s, m + 1)
    && (forall q :: 0 <= q < |path| ==> s <= path[q].left <= m + 1 <= path[q].right <= e + 1)
    && forall q :: 0 <= q < |path| - 1 ==> path[q + 1] == NextHeads(a, m, e, path[q])
  }

  /** Playing one more round extends a path of heads. */
  lemma HeadsPathExtend(path: seq<Heads>, a: seq<int>, s: int, m: int, e: int, next: Heads)
    requires 0 <= s <= m < e < |a|
    requires HeadsPath(path, a, s, m, e) && next == NextHeads(a, m, e, path[|path| - 1])
    ensures HeadsPath(path + [next], a, s, m, e)
  {
    var p := path + [next];
    forall q | 0 <= q < |p| - 1
      ensures p[q + 1] == NextHeads(a, m, e, p[q])
    {
      assert p[q] == path[q];
    }
  }

  /** A path of heads is the one doMerge follows: its q-th entry is the heads after q rounds. */
  lemma {:induction false} HeadsPathFollows(path: seq<Heads>, a: seq<int>, s: int, m: int, e: int)
    requires 0 <= s <= m < e < |a|
    requires HeadsPath(path, a, s, m, e)
    ensures forall q :: 0 <= q < |path| ==> path[q] == HeadsAfter(a, s, m, e, q)
    decreases |path|
  {
    var n := |path|;
    if n > 1 {
      var init := path[..n - 1];
      assert HeadsPath(init, a, s, m, e) by {
        forall q | 0 <= q < |init| - 1
          ensures init[q + 1] == NextHeads(a, m, e, init[q])
        {
          assert init[q + 1] == path[q + 1] && init[q] == path[q];
        }
      }
      HeadsPathFollows(init, a, s, m, e);
      assert path[n - 1] == NextHeads(a, m, e, path[n - 2]);
      assert path[n - 2] == init[n - 2];
    }
  }

  /** The first `n` rounds of `t` mark the bars read from the heads in `path`. */
  ghost predicate MarksFollow(t: seq<Step>, path: seq<Heads>, m: int, e: int, n: int) {
    && 0 <= n && 3 * n <= |t| && n <= |path|
    && forall q {:trigger RoundOpen(t, q)} :: 0 <= q < n ==> RoundOpen(t, q) == ReadMark(m, e, path[q])
  }

  /**
   * After `n` rounds, `path` records the heads of every round so far, the
   * current ones `h` last, and the marks of `t` follow it.
   */
  ghost predicate RoundsFollow(t: seq<Step>, path: seq<Heads>, a: seq<int>, s: int, m: int, e: int, n: int, h: Heads)
    requires 0 <= s <= m < e < |a|
  {
    HeadsPath(path, a, s, m, e) && |path| == n + 1 && path[n] == h && MarksFollow(t, path, m, e, n)
  }

  /** A round that marks the bars read from `path[n]` extends the marks that follow `path` by one round. */
  lemma MarksFollowAppend(t: seq<Step>, path: seq<Heads>, m: int, e: int, n: nat, mark: Step, w: Step)
    requires MarksFollow(t, path, m, e, n) && |t| == 3 * n && n < |path|
    requires mark == ReadMark(m, e, path[n])
    ensures MarksFollow(t + [mark, mark, w], path, m, e, n + 1)
  {
    var t' := t + [mark, mark, w];
    forall q | 0 <= q < n + 1
      ensures RoundOpen(t', q) == ReadMark(m, e, path[q])
    {
      if q < n {
        assert RoundOpen(t', q) == RoundOpen(t, q);
      }
    }
  }

  /** Before the first round, the heads are the first bar of each run and nothing is marked. */
  lemma RoundsStart(a: seq<int>, s: int, m: int, e: int)
    requires 0 <= s <= m < e < |a|
    ensures RoundsFollow([], [Heads(s, m + 1)], a, s, m, e, 0, Heads(s, m + 1))
  {
  }

  /**
   * A round that marks the bars read from the current heads `h` twice and then
   * writes `w` moves the heads on by one round.
   */
  lemma RoundFollows(t: seq<Step>, path: seq<Heads>, a: seq<int>, s: int, m: int, e: int, n: nat, h: Heads, w: Step)
    requires 0 <= s <= m < e < |a|
    requires RoundsFollow(t, path, a, s, m, e, n, h) && |t| == 3 * n
    ensures RoundsFollow(t + [ReadMark(m, e, h), ReadMark(m, e, h), w], path + [NextHeads(a, m, e, h)],
                         a, s, m, e, n + 1, NextHeads(a, m, e, h))
  {
    HeadsPathExtend(path, a, s, m, e, NextHeads(a, m, e, h));
    MarksFollowAppend(t, path + [NextHeads(a, m, e, h)], m, e, n, ReadMark(m, e, h), w);
  }

  /** Marks that follow a path of heads mark, in round q, the bars doMerge reads after q rounds. */
  lemma MarksFollowHeadsAfter(t: seq<Step>, path: seq<Heads>, a: seq<int>, s: int, m: int, e: int, n: int)
    requires 0 <= s <= m < e < |a|
    requires HeadsPath(path, a, s, m, e) && MarksFollow(t, path, m, e, n)
    ensures MarksFollowHeads(t, a, s, m, e, n)
  {
    HeadsPathFollows(path, a, s, m, e);
    forall q | 0 <= q < n
      ensures RoundOpen(t, q) == ReadMark(m, e, HeadsAfter(a, s, m, e, q))
    {
      assert path[q] == HeadsAfter(a, s, m, e, q);
    }
  }

  /**
   * The step the three loops of doMerge share: push a mark of two bars twice,
   * then the write of `v` to bar `k`, and store `v` in main[k].
   */
  method Place(main: array<int>, s: int, e: int, k: int, v: int, mark: Step, steps: seq<Step>, ghost placed: seq<int>)
    returns (steps': seq<Step>, ghost placed': seq<int>)
    requires 0 <= s <= k == s + |placed| <= e < main.Length
    requires mark.Mark? && StepWithin(mark, s, e)
    requires forall x :: s <= x < k ==> main[x] == placed[x - s]
    requires MergeTrace(steps, s, e, placed)
    modifies main
    ensures steps' == steps + [mark, mark, Write(k, v)] && placed' == placed + [v]
    ensures forall x :: s <= x <= k ==> main[x] == placed'[x - s]
    ensures forall x :: 0 <= x < main.Length && x != k ==> main[x] == old(main[x])
    ensures MergeTrace(steps', s, e, placed')
  {
    steps' := steps + [mark, mark, Write(k, v)];
    main[k] := v;
    placed' := placed + [v];
    MergeTraceAppend(steps, s, e, placed, mark, Write(k, v), v);
  }

  /**
   * The state of the first loop of doMerge after k - s rounds: the heads are
   * at i and j, main[s..k-1] holds the merge so far, and the steps so far are
   * a merge trace whose marks follow the heads recorded in `path`.
   */
  ghost predicate HeadsState(main: array<int>, a: seq<int>, s: int, m: int, e: int, left: seq<int>, right: seq<int>,
                             i: int, j: int, k: int, steps: seq<Step>, placed: seq<int>, path: seq<Heads>)
    reads main
  {
    && 0 <= s <= m < e < main.Length && e < |a| && s <= i <= m + 1 <= j <= e + 1
    && left == a[s..m + 1] && right == a[m + 1..e + 1]
    && k == s + |placed| == i + j - (m + 1)
    && placed + MergeFrom(left, right, i - s, j - (m + 1)) == Merge(left, right)
    && (forall x :: s <= x < k ==> main[x] == placed[x - s])
    && MergeTrace(steps, s, e, placed)
    && RoundsFollow(steps, path, a, s, m, e, k - s, Heads(i, j))
  }

  /**
   * One round of the first loop of doMerge: marks the heads aux[i] and aux[j]
   * twice, writes the smaller one (the left one on a tie) to main[k] and
   * advances past it.
   */
  method HeadRound(main: array<int>, s: int, m: int, e: int, aux: array<int>, ghost a: seq<int>,
                   ghost left: seq<int>, ghost right: seq<int>, i: int, j: int, k: int, steps: seq<Step>,
                   ghost placed: seq<int>, ghost path: seq<Heads>)
    returns (i': int, j': int, steps': seq<Step>, ghost placed': seq<int>, ghost path': seq<Heads>)
    requires main != aux && main.Length == aux.Length && a == aux[..]
    requires HeadsState(main, a, s, m, e, left, right, i, j, k, steps, placed, path) && i <= m && j <= e
    modifies main
    ensures if a[i] <= a[j] then i' == i + 1 && j' == j else i' == i && j' == j + 1
    ensures HeadsState(main, a, s, m, e, left, right, i', j', k + 1, steps', placed', path')
    ensures forall x :: 0 <= x < main.Length && x != k ==> main[x] == old(main[x])
  {
    ghost var li, rj, whole := i - s, j - (m + 1), Merge(left, right);
    var x, y := aux[i], aux[j];
    assert x == a[i] == left[li] && y == a[j] == right[rj];
    assert ReadMark(m, e, Heads(i, j)) == Mark(i, j);
    path' := path + [NextHeads(a, m, e, Heads(i, j))];
    if x <= y {
      TakeLeft(left, right, li, rj, placed, whole);
      RoundFollows(steps, path, a, s, m, e, k - s, Heads(i, j), Write(k, x));
      steps', placed' := Place(main, s, e, k, x, Mark(i, j), steps, placed);
      i', j' := i + 1, j;
      assert i' - s == li + 1;
    } else {
      TakeRight(left, right, li, rj, placed, whole);
      RoundFollows(steps, path, a, s, m, e, k - s, Heads(i, j), Write(k, y));
      steps', placed' := Place(main, s, e, k, y, Mark(i, j), steps, placed);
      i', j' := i, j + 1;
      assert j' - (m + 1) == rj + 1;
    }
  }

  /**
   * The first loop of doMerge: while both runs aux[s..m] and aux[m+1..e] have
   * elements left, marks the two heads and writes the smaller one (the left
   * one on a tie) to main[k].
   */
  method MergeHeads(main: array<int>, s: int, m: int, e: int, aux: array<int>, ghost a: seq<int>, ghost left: seq<int>, ghost right: seq<int>)
    returns (k: int, i: int, j: int, steps: seq<Step>, ghost placed: seq<int>, ghost path: seq<Heads>)
    requires main != aux && main.Length == aux.Length
    requires 0 <= s <= m < e < main.Length
    requires a == aux[..] && left == a[s..m + 1] && right == a[m + 1..e + 1]
    modifies main
    ensures HeadsState(main, a, s, m, e, left, right, i, j, k, steps, placed, path) && (i > m || j > e)
    ensures forall x :: 0 <= x < main.Length && !(s <= x < k) ==> main[x] == old(main[x])
  {
    path := [Heads(s, m + 1)];
    RoundsStart(a, s, m, e);
    placed := [];
    k, i, j := s, s, m + 1;
    steps := [];
    while i <= m && j <= e
      invariant HeadsState(main, a, s, m, e, left, right, i, j, k, steps, placed, path)
      invariant forall x :: 0 <= x < main.Length && !(s <= x < k) ==> main[x] == old(main[x])
      decreases (m + 1 - i) + (e + 1 - j)
    {
      i, j, steps, placed, path := HeadRound(main, s, m, e, aux, a, left, right, i, j, k, steps, placed, path);
      k := k + 1;
    }
  }

  /**
   * The second and third loops of doMerge: copy what is left of one run,
   * aux[lo..hi], to main from bar `k0` on, marking each copied bar twice with
   * itself before writing it. The other run's head `other` stays put: it is
   * past the end of the right run while the left run is copied, and past the
   * end of the left run while the right run is.
   */
  method CopyRest(main: array<int>, aux: array<int>, s: int, m: int, e: int, lo: int, hi: int, k0: int,
                  steps0: seq<Step>, ghost a: seq<int>, ghost placed0: seq<int>, ghost leftRun: bool, ghost other: int,
                  ghost path0: seq<Heads>)
    returns (k: int, steps: seq<Step>, ghost placed: seq<int>, ghost path: seq<Heads>)
    requires main != aux && main.Length == aux.Length && a == aux[..]
    requires 0 <= s <= m < e < main.Length && s <= lo <= hi + 1
    requires 0 <= s <= k0 == s + |placed0| && k0 + (hi + 1 - lo) <= e + 1
    requires forall x :: s <= x < k0 ==> main[x] == placed0[x - s]
    requires MergeTrace(steps0, s, e, placed0)
    requires leftRun ==> hi == m && (lo <= m ==> other == e + 1)
    requires !leftRun ==> hi == e && other == m + 1
    requires RoundsFollow(steps0, path0, a, s, m, e, k0 - s, if leftRun then Heads(lo, other) else Heads(other, lo))
    modifies main
    ensures k == k0 + (hi + 1 - lo) && placed == placed0 + a[lo..hi + 1]
    ensures forall x :: s <= x < k ==> main[x] == placed[x - s]
    ensures forall x :: 0 <= x < main.Length && !(k0 <= x < k) ==> main[x] == old(main[x])
    ensures MergeTrace(steps, s, e, placed)
    ensures RoundsFollow(steps, path, a, s, m, e, k - s, if leftRun then Heads(hi + 1, other) else Heads(other, hi + 1))
  {
    var i := lo;
    k, steps, placed, path := k0, steps0, placed0, path0;
    while i <= hi
      invariant lo <= i <= hi + 1 && k == k0 + (i - lo) && k == s + |placed|
      invariant placed == placed0 + a[lo..i]
      invariant forall x :: s <= x < k ==> main[x] == placed[x - s]
      invariant forall x :: 0 <= x < main.Length && !(k0 <= x < k) ==> main[x] == old(main[x])
      invariant MergeTrace(steps, s, e, placed)
      invariant RoundsFollow(steps, path, a, s, m, e, k - s, if leftRun then Heads(i, other) else Heads(other, i))
    {
      assert aux[i] == a[i];
      assert a[lo..i + 1] == a[lo..i] + [a[i]];
      ghost var h := if leftRun then Heads(i, other) else Heads(other, i);
      assert ReadMark(m, e, h) == Mark(i, i);
      assert NextHeads(a, m, e, h) == if leftRun then Heads(i + 1, other) else Heads(other, i + 1);
      RoundFollows(steps, path, a, s, m, e, k - s, h, Write(k, aux[i]));
      path := path + [NextHeads(a, m, e, h)];
      steps, placed := Place(main, s, e, k, aux[i], Mark(i, i), steps, placed);
      k, i := k + 1, i + 1;
    }
  }

  /**
   * Once one run is used up, appending what is left of the left run and then
   * what is left of the right run completes the merge.
   */
  lemma DrainRest(a: seq<int>, s: int, m: int, e: int, i: int, j: int, heads: seq<int>)
    requires 0 <= s <= i <= m + 1 <= j <= e + 1 <= |a| && (i > m || j > e)
    requires heads + MergeFrom(a[s..m + 1], a[m + 1..e + 1], i - s, j - (m + 1)) == Merge(a[s..m + 1], a[m + 1..e + 1])
    ensures heads + a[i..m + 1] + a[j..e + 1] == Merge(a[s..m + 1], a[m + 1..e + 1])
  {
    var left, right := a[s..m + 1], a[m + 1..e + 1];
    if i > m {
      MergeFromDrainRight(left, right, j - (m + 1));
      assert right[j - (m + 1)..] == a[j..e + 1];
      assert a[i..m + 1] == [];
    } else {
      MergeFromDrainLeft(left, right, i - s);
      assert left[i - s..] == a[i..m + 1];
      assert a[j..e + 1] == [];
    }
  }

  /**
   * doMerge: merges the sorted runs aux[s..m] and aux[m+1..e] into main[s..e],
   * emitting two marks and one write for every element placed.
   */
  method DoMerge(main: array<int>, s: int, m: int, e: int, aux: array<int>) returns (steps: seq<Step>)
    requires main != aux && main.Length == aux.Length
    requires 0 <= s <= m < e < main.Length
    modifies main
    ensures main[s..e + 1] == Merge(aux[s..m + 1], aux[m + 1..e + 1])
    ensures forall x :: 0 <= x < main.Length && !(s <= x <= e) ==> main[x] == old(main[x])
    ensures MergeTrace(steps, s, e, main[s..e + 1])
    ensures MarksFollowHeads(steps, aux[..], s, m, e, e + 1 - s)
  {
    ghost var a := aux[..];
    ghost var left, right := a[s..m + 1], a[m + 1..e + 1];
    var k, i, j;
    ghost var placed;
    ghost var path;
    k, i, j, steps, placed, path := MergeHeads(main, s, m, e, aux, a, left, right);
    ghost var heads := placed;
    k, steps, placed, path := CopyRest(main, aux, s, m, e, i, m, k, steps, a, placed, true, j, path);
    k, steps, placed, path := CopyRest(main, aux, s, m, e, j, e, k, steps, a, placed, false, m + 1, path);
    MarksFollowHeadsAfter(steps, path, a, s, m, e, e + 1 - s);
    DrainRest(a, s, m, e, i, j, heads);
    assert main[s..e + 1] == placed;
    assert aux[..] == a;
  }

  /** Merging sorted permutations of the two halves of a range sorts a permutation of the range. */
  lemma MergeSortedHalves(before: seq<int>, s: int, mid: int, e: int, left: seq<int>, right: seq<int>)
    requires 0 <= s <= mid < e < |before|
    requires Ascending(left) && multiset(left) == multiset(before[s..mid + 1])
    requires Ascending(right) && multiset(right) == multiset(before[mid + 1..e + 1])
    ensures Ascending(Merge(left, right)) && multiset(Merge(left, right)) == multiset(before[s..e + 1])
  {
    MergeAscending(left, right);
    MergePermutes(left, right);
    SplitMultiset(before, s, mid + 1, e + 1);
  }

  /**
   * The steps that sort both halves, followed by a merge trace of the whole
   * range, name only bars of the range, keep marks paired and end with that
   * merge trace.
   */
  lemma ComposeTraces(first: seq<Step>, second: seq<Step>, merged: seq<Step>, s: int, mid: int, e: int, final: seq<int>)
    requires s <= mid < e
    requires Paired(first) && Within(first, s, mid)
    requires Paired(second) && Within(second, mid + 1, e)
    requires |final| == e + 1 - s && MergeTrace(merged, s, e, final)
    ensures var t := first + second + merged;
      Paired(t) && Within(t, s, e) && |t| >= 3 * (e + 1 - s) && t[|t| - 3 * (e + 1 - s)..] == merged
  {
    MergeTraceShape(merged, s, e, final);
    PairedConcat(first, second);
    PairedConcat(first + second, merged);
    WithinWiden(first, s, mid, s, e);
    WithinWiden(second, mid + 1, e, s, e);
    WithinConcat(first, second, s, e);
    WithinConcat(first + second, merged, s, e);
  }

  /**
   * mergeSortHelper: sorts main[s..e], using aux (which holds the same values
   * there) as scratch space; each half is sorted into aux with the roles of
   * the two arrays exchanged (`SortHalves`), then the halves are merged back
   * into main.
   */
  method MergeSortHelper(main: array<int>, s: int, e: int, aux: array<int>) returns (steps: seq<Step>)
    requires main != aux && main.Length == aux.Length
    requires 0 <= s <= e < main.Length
    requires main[s..e + 1] == aux[s..e + 1]
    modifies main, aux
    decreases e - s, 1
    ensures Ascending(main[s..e + 1]) && multiset(main[s..e + 1]) == multiset(old(main[s..e + 1]))
    ensures forall x :: 0 <= x < main.Length && !(s <= x <= e) ==> main[x] == old(main[x])
    ensures forall x :: 0 <= x < aux.Length && !(s <= x <= e) ==> aux[x] == old(aux[x])
    ensures Paired(steps) && Within(steps, s, e)
    ensures s == e ==> steps == []
    ensures s < e ==> |steps| >= 3 * (e + 1 - s) && MergeTrace(steps[|steps| - 3 * (e + 1 - s)..], s, e, main[s..e + 1])
  {
    if s == e {
      steps := [];
    } else {
      var mid := (s + e) / 2;
      ghost var before := main[..];
      var first, second := SortHalves(main, s, mid, e, aux);
      var merged := DoMerge(main, s, mid, e, aux);
      MergeSortedHalves(before, s, mid, e, aux[s..mid + 1], aux[mid + 1..e + 1]);
      steps := first + second + merged;
      ComposeTraces(first, second, merged, s, mid, e, main[s..e + 1]);
    }
  }

  /**
   * The two recursive calls of mergeSortHelper: sort main[s..mid] and
   * main[mid+1..e] into aux, using main as scratch space.
   */
  method SortHalves(main: array<int>, s: int, mid: int, e: int, aux: array<int>) returns (first: seq<Step>, second: seq<Step>)
    requires main != aux && main.Length == aux.Length
    requires 0 <= s <= mid < e < main.Length
    requires main[s..e + 1] == aux[s..e + 1]
    modifies main, aux
    decreases e - s, 0
    ensures Ascending(aux[s..mid + 1]) && multiset(aux[s..mid + 1]) == multiset(old(main[s..mid + 1]))
    ensures Ascending(aux[mid + 1..e + 1]) && multiset(aux[mid + 1..e + 1]) == multiset(old(main[mid + 1..e + 1]))
    ensures forall x :: 0 <= x < main.Length && !(s <= x <= e) ==> main[x] == old(main[x])
    ensures forall x :: 0 <= x < aux.Length && !(s <= x <= e) ==> aux[x] == old(aux[x])
    ensures Paired(first) && Within(first, s, mid) && Paired(second) && Within(second, mid + 1, e)
  {
    ghost var main0, aux0 := main[..], aux[..];
    assert aux[s..mid + 1] == main[s..mid + 1] by {
      assert aux[s..mid + 1] == aux[s..e + 1][..mid + 1 - s];
      assert main[s..mid + 1] == main[s..e + 1][..mid + 1 - s];
    }
    first := MergeSortHelper(aux, s, mid, main);
    ghost var sortedLeft := aux[s..mid + 1];
    assert aux[mid + 1..e + 1] == main[mid + 1..e + 1] by {
      assert aux[mid + 1..e + 1] == aux0[mid + 1..e + 1] == aux0[s..e + 1][mid + 1 - s..];
      assert main[mid + 1..e + 1] == main0[mid + 1..e + 1] == main0[s..e + 1][mid + 1 - s..];
    }
    ghost var aux1 := aux[..];
    second := MergeSortHelper(aux, mid + 1, e, main);
    assert aux[s..mid + 1] == sortedLeft;
    assert multiset(aux[mid + 1..e + 1]) == multiset(main0[mid + 1..e + 1]) by {
      assert aux1[mid + 1..e + 1] == aux0[mid + 1..e + 1];
    }
  }




  /** A trace whose last part merges the whole array leaves the display showing that merge's result. */
  lemma DisplayEndsWithFullMerge(d: seq<int>, t: seq<Step>, final: seq<int>)
    requires |final| == |d| && |t| >= 3 * |d|
    requires MergeTrace(t[|t| - 3 * |d|..], 0, |d| - 1, final)
    ensures Display(d, t) == final
  {
    var n := |t| - 3 * |d|;
    var mid := Display(d, t[..n]);
    DisplayConcat(d, t[..n], t[n..]);
    assert t == t[..n] + t[n..];
    DisplayMergeTrace(mid, t[n..], 0, |d| - 1, final);
    assert mid[..0] == [] && mid[|final|..] == [];
    assert mid[..0] + final + mid[|final|..] == final;
  }

  /**
   * getMergeSortAnimations: sorts `a` in place and returns its animations
   * list; an array of at most one element is returned itself, untouched.
   */
  method GetMergeSortAnimations(a: array<int>) returns (trace: seq<Entry>, steps: seq<Step>)
    modifies a
    ensures Ascending(a[..]) && multiset(a[..]) == multiset(old(a[..]))
    ensures a.Length <= 1 ==> trace == Scalars(a[..]) && a[..] == old(a[..])
    ensures a.Length > 1 ==> trace == Entries(steps) && Paired(steps) && Within(steps, 0, a.Length - 1)
    ensures a.Length > 1 ==> Display(old(a[..]), steps) == a[..]
  {
    if a.Length <= 1 {
      steps := [];
      trace := Scalars(a[..]);
    } else {
      ghost var before := a[..];
      var aux := new int[a.Length](x reads a requires 0 <= x < a.Length => a[x]);
      assert a[0..a.Length] == before && aux[0..a.Length] == before;
      steps := MergeSortHelper(a, 0, a.Length - 1, aux);
      ghost var after := a[..];
      assert a[0..a.Length] == after;
      assert multiset(after) == multiset(before);
      DisplayEndsWithFullMerge(before, steps, after);
      trace := Entries(steps);
    }
  }
}
