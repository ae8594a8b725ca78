/**
 * Animation traces. Every animated sort pushes two-element arrays `[a, b]`
 * onto a list. A `Step` records such a pair together with the role the
 * generator gave it: a `Mark` highlights bars `i` and `j`, a `Write` sets the
 * height of bar `k` to `v`. The player never sees that role: it receives the
 * list as `Entry` values (`Entries`) and has to guess.
 */
module Traces {

  datatype Step = Mark(i: int, j: int) | Write(k: int, v: int)

  /**
   * A value found inside an entry of an animations list: an integer, or any
   * other host value (a fraction, a string, undefined), told apart from the
   * others by `id` under strict equality.
   */
  datatype Value = Int(n: int) | Other(id: int)

  /** One element of an animations list: something that is not an array, or an array of values. */
  datatype Entry = Scalar(v: Value) | List(items: seq<Value>)

  /** The array `[a, b]` a step is pushed as. */
  function ToEntry(s: Step): (r: Entry) {
    match s
    case Mark(i, j) => List([Int(i), Int(j)])
    case Write(k, v) => List([Int(k), Int(v)])
  }

  /** The animations list as the player receives it. */
  function Entries(t: seq<Step>): (r: seq<Entry>) {
    seq(|t|, q requires 0 <= q < |t| => ToEntry(t[q]))
  }

  /** A plain array of numbers read as an animations list: every element is a non-array. */
  function Scalars(s: seq<int>): (r: seq<Entry>) {
    seq(|s|, q requires 0 <= q < |s| => Scalar(Int(s[q])))
  }

  /** The heights a display shows for an integer array. */
  function Ints(s: seq<int>): (r: seq<Value>) {
    seq(|s|, q requires 0 <= q < |s| => Int(s[q]))
  }

  /** Marks come in identical back-to-back pairs; writes stand between the pairs. */
  ghost predicate Paired(t: seq<Step>)
    decreases |t|
  {
    if t == [] then true
    else if t[0].Mark? then |t| >= 2 && t[1] == t[0] && Paired(t[2..])
    else Paired(t[1..])
  }

  lemma {:induction false} PairedConcat(x: seq<Step>, y: seq<Step>)
    requires Paired(x) && Paired(y)
    ensures Paired(x + y)
    decreases |x|
  {
    if x == [] {
      assert x + y == y;
    } else if x[0].Mark? {
      assert (x + y)[2..] == x[2..] + y;
      PairedConcat(x[2..], y);
    } else {
      assert (x + y)[1..] == x[1..] + y;
      PairedConcat(x[1..], y);
    }
  }

  /** Appending a pair of identical marks, or a lone write, keeps a trace paired. */
  lemma PairedAppend(t: seq<Step>, u: seq<Step>)
    requires Paired(t)
    requires (|u| == 2 && u[0].Mark? && u[1] == u[0]) || (|u| == 1 && u[0].Write?)
    ensures Paired(t + u)
  {
    if |u| == 2 {
      assert u[2..] == [];
    } else {
      assert u[1..] == [];
    }
    PairedConcat(t, u);
  }

  /** Every bar a step names lies in [lo, hi]. */
  predicate StepWithin(s: Step, lo: int, hi: int) {
    match s
    case Mark(i, j) => lo <= i <= hi && lo <= j <= hi
    case Write(k, _) => lo <= k <= hi
  }

  ghost predicate Within(t: seq<Step>, lo: int, hi: int) {
    forall q :: 0 <= q < |t| ==> StepWithin(t[q], lo, hi)
  }

  lemma WithinWiden(t: seq<Step>, lo: int, hi: int, lo': int, hi': int)
    requires Within(t, lo, hi) && lo' <= lo && hi <= hi'
    ensures Within(t, lo', hi')
  {
    forall q | 0 <= q < |t|
      ensures StepWithin(t[q], lo', hi')
    {
      assert StepWithin(t[q], lo, hi);
    }
  }

  lemma WithinConcat(x: seq<Step>, y: seq<Step>, lo: int, hi: int)
    requires Within(x, lo, hi) && Within(y, lo, hi)
    ensures Within(x + y, lo, hi)
  {
    forall q | 0 <= q < |x + y|
      ensures StepWithin((x + y)[q], lo, hi)
    {
      if q < |x| {
        assert (x + y)[q] == x[q];
      } else {
        assert (x + y)[q] == y[q - |x|];
      }
    }
  }

  /**
   * The heights `d` turns into when the writes of `t` are applied in order
   * and its marks are ignored: what each step is meant to do to the bars.
   */
  function Display(d: seq<int>, t: seq<Step>): (r: seq<int>)
    ensures |r| == |d|
    decreases |t|
  {
    if t == [] then d
    else
      var before := Display(d, t[..|t| - 1]);
      match t[|t| - 1]
      case Mark(_, _) => before
      case Write(k, v) => if 0 <= k < |before| then before[k := v] else before
  }

  lemma {:induction false} DisplayConcat(d: seq<int>, x: seq<Step>, y: seq<Step>)
    ensures Display(d, x + y) == Display(Display(d, x), y)
    decreases |y|
  {
    if y == [] {
      assert x + y == x;
    } else {
      assert (x + y)[..|x + y| - 1] == x + y[..|y| - 1];
      DisplayConcat(d, x, y[..|y| - 1]);
    }
  }

  /** A pair of marks changes no height. */
  lemma DisplayMarks(d: seq<int>, t: seq<Step>, m: Step)
    requires m.Mark?
    ensures Display(d, t + [m, m]) == Display(d, t)
  {
    assert (t + [m, m])[..|t| + 1] == t + [m];
    assert (t + [m])[..|t|] == t;
  }

  /** The two writes emitted for an exchange of bars `i` and `j` exchange their heights. */
  lemma DisplaySwapWrites(d: seq<int>, t: seq<Step>, i: int, j: int)
    requires 0 <= i < |d| && 0 <= j < |d|
    ensures var cur := Display(d, t);
      Display(d, t + [Write(i, cur[j]), Write(j, cur[i])]) == cur[i := cur[j]][j := cur[i]]
  {
    var cur := Display(d, t);
    var first := t + [Write(i, cur[j])];
    DisplayWrite(d, t, i, cur[j]);
    DisplayWrite(d, first, j, cur[i]);
    assert first + [Write(j, cur[i])] == t + [Write(i, cur[j]), Write(j, cur[i])];
  }

  /** A write to an existing bar sets that bar's height. */
  lemma DisplayWrite(d: seq<int>, t: seq<Step>, k: int, v: int)
    requires 0 <= k < |d|
    ensures Display(d, t + [Write(k, v)]) == Display(d, t)[k := v]
  {
    assert (t + [Write(k, v)])[..|t|] == t;
  }

  /**
   * Two identical marks naming bars in [lo, hi] extend a trace without
   * breaking its pairing, without leaving the range and without changing any
   * height; they add two to the count of marks.
   */
  lemma AppendMarks(d: seq<int>, t: seq<Step>, m: Step, lo: int, hi: int)
    requires m.Mark? && StepWithin(m, lo, hi)
    requires Paired(t) && Within(t, lo, hi)
    ensures Paired(t + [m, m]) && Within(t + [m, m], lo, hi)
    ensures MarkCount(t + [m, m]) == MarkCount(t) + 2
    ensures Display(d, t + [m, m]) == Display(d, t)
  {
    PairedAppend(t, [m, m]);
    WithinConcat(t, [m, m], lo, hi);
    MarkCountConcat(t, [m, m]);
    assert [m, m][..1] == [m];
    DisplayMarks(d, t, m);
  }

  /**
   * The two writes emitted for an exchange of bars `i` and `j` of [lo, hi]
   * keep a trace paired and in range, add no mark, and exchange the two
   * heights the trace has produced so far.
   */
  lemma AppendSwap(d: seq<int>, t: seq<Step>, i: int, j: int, lo: int, hi: int)
    requires 0 <= i < |d| && 0 <= j < |d| && lo <= i <= hi && lo <= j <= hi
    requires Paired(t) && Within(t, lo, hi)
    ensures var cur := Display(d, t);
      var w := [Write(i, cur[j]), Write(j, cur[i])];
      && Paired(t + w) && Within(t + w, lo, hi)
      && MarkCount(t + w) == MarkCount(t)
      && Display(d, t + w) == cur[i := cur[j]][j := cur[i]]
  {
    var cur := Display(d, t);
    var w := [Write(i, cur[j]), Write(j, cur[i])];
    PairedAppend(t, [w[0]]);
    PairedAppend(t + [w[0]], [w[1]]);
    assert t + [w[0]] + [w[1]] == t + w;
    WithinConcat(t, w, lo, hi);
    MarkCountConcat(t, w);
    assert w[..1] == [w[0]];
    DisplaySwapWrites(d, t, i, j);
  }

  /** Number of marks in a trace. */
  function MarkCount(t: seq<Step>): (r: nat)
    ensures r <= |t|
    decreases |t|
  {
    if t == [] then 0
    else MarkCount(t[..|t| - 1]) + (if t[|t| - 1].Mark? then 1 else 0)
  }

  lemma {:induction false} MarkCountConcat(x: seq<Step>, y: seq<Step>)
    ensures MarkCount(x + y) == MarkCount(x) + MarkCount(y)
    decreases |y|
  {
    if y == [] {
      assert x + y == x;
    } else {
      assert (x + y)[..|x + y| - 1] == x + y[..|y| - 1];
      MarkCountConcat(x, y[..|y| - 1]);
    }
  }
}
