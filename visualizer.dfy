/**
 * The player of the visualizer: it walks an animations list from left to
 * right and, step by step, recolours or resizes the bars. The timers that
 * space the steps out are abstracted away: each callback fires in list
 * order, and a stop requested by the user before callback `stopAt` clears
 * the running flag. Bar heights are the raw values (the scaling to pixels is
 * not modelled).
 */
module Visualizer {
  import opened Sorted
  import opened Traces

  datatype Option<T> = None | Some(value: T)

  /** Bar colours: as reset, PRIMARY_COLOR ("turquoise") and SECONDARY_COLOR ("red"). */
  datatype Color = Reset | Primary | Secondary

  /** What the player makes of one entry of an animations list. */
  datatype Action = Skip | ColorPair(one: int, two: int) | HeightWrite(bar: Value, height: Value)

  /** An integer naming one of the `nBars` bars. */
  predicate IsBarIndex(v: Value, nBars: int) {
    v.Int? && 0 <= v.n < nBars
  }

  /**
   * The classification of runAnimations: a non-array or an array of fewer
   * than two components is skipped; two integer components that both name a
   * bar make a colour pair; anything else is a height write of its second
   * component to the bar its first component names.
   */
  function Classify(e: Entry, nBars: int): (r: Action)
    ensures r.Skip? <==> e.Scalar? || |e.items| < 2
    ensures r.ColorPair? <==> e.List? && |e.items| >= 2 && IsBarIndex(e.items[0], nBars) && IsBarIndex(e.items[1], nBars)
    ensures r.ColorPair? ==> e.items[0] == Int(r.one) && e.items[1] == Int(r.two)
    ensures r.HeightWrite? ==> e.items[0] == r.bar && e.items[1] == r.height
  {
    match e
    case Scalar(_) => Skip
    case List(items) =>
      if |items| < 2 then Skip
      else if IsBarIndex(items[0], nBars) && IsBarIndex(items[1], nBars) then ColorPair(items[0].n, items[1].n)
      else HeightWrite(items[0], items[1])
  }

  /** Component `k` of an array, or nothing (`undefined`) past its end. */
  function Component(a: seq<Value>, k: nat): (r: Option<Value>) {
    if k < |a| then Some(a[k]) else None
  }

  /**
   * sameAnim, with its first argument an array: false when the second is
   * missing or not an array, otherwise true exactly when the lengths agree
   * and so do the first two components. Two `Other` values with the same id
   * compare equal here, although JavaScript's `!==` keeps NaN unequal to itself.
   */
  function SameAnim(a: seq<Value>, b: Option<Entry>): (r: bool)
    ensures r <==> && b.Some? && b.value.List? && |b.value.items| == |a|
                   && (|a| > 0 ==> b.value.items[0] == a[0])
                   && (|a| > 1 ==> b.value.items[1] == a[1])
  {
    match b
    case None => false
    case Some(Scalar(_)) => false
    case Some(List(items)) =>
      |a| == |items| && Component(a, 0) == Component(items, 0) && Component(a, 1) == Component(items, 1)
  }

  /** The entry after position `i`, if there is one. */
  function Next(a: seq<Entry>, i: int): (r: Option<Entry>) {
    if 0 <= i && i + 1 < |a| then Some(a[i + 1]) else None
  }

  /** Two generated steps look the same to sameAnim exactly when they push the same pair. */
  lemma SameAnimSteps(s: Step, t: Step)
    ensures SameAnim(ToEntry(s).items, Some(ToEntry(t))) <==> ToEntry(s) == ToEntry(t)
  {
  }

  /** The last entry of a list is never followed by an equal one. */
  lemma SameAnimLast(a: seq<Entry>, items: seq<Value>)
    requires a != []
    ensures !SameAnim(items, Next(a, |a| - 1))
  {
  }

  /** What the bars show: heights, colours, the running flag, and whether the "sorted" flash ran. */
  datatype Screen = Screen(heights: seq<Value>, colors: seq<Color>, running: bool, flashed: bool)

  /** One colour and one height per bar. */
  predicate Fits(s: Screen) {
    |s.colors| == |s.heights|
  }

  /** finish: clears the running flag and flashes every bar as sorted. */
  function Finish(s: Screen): (r: Screen) {
    s.(running := false, flashed := true)
  }

  /** Colours bar `k` if it exists. */
  function Paint(colors: seq<Color>, k: int, c: Color): (r: seq<Color>)
    ensures |r| == |colors|
    ensures forall x :: 0 <= x < |r| ==> r[x] == if x == k then c else colors[x]
  {
    if 0 <= k < |colors| then colors[k := c] else colors
  }

  /**
   * One scheduled callback: nothing once the running flag is clear;
   * otherwise a colour pair paints its two bars and a height write resizes
   * its bar if it exists, after which the callback of the last entry runs
   * `finish`.
   */
  function FireAction(s: Screen, act: Action, secondary: bool, last: bool): (r: Screen)
    requires Fits(s)
    ensures Fits(r) && |r.heights| == |s.heights|
    ensures !s.running || act.Skip? ==> r == s
    ensures r.flashed != s.flashed || r.running != s.running ==> last && s.running
    ensures act.ColorPair? ==> r.heights == s.heights
    ensures act.ColorPair? ==> forall k :: 0 <= k < |r.colors| && k != act.one && k != act.two ==> r.colors[k] == s.colors[k]
    ensures act.ColorPair? && s.running ==> forall k :: 0 <= k < |r.colors| && (k == act.one || k == act.two) ==>
      r.colors[k] == if secondary then Secondary else Primary
    ensures act.HeightWrite? ==> r.colors == s.colors
    ensures act.HeightWrite? ==> forall k :: 0 <= k < |r.heights| && !(act.bar == Int(k)) ==> r.heights[k] == s.heights[k]
    ensures act.HeightWrite? && s.running && IsBarIndex(act.bar, |s.heights|) ==> r.heights[act.bar.n] == act.height
  {
    if !s.running then s
    else
      match act
      case Skip => s
      case ColorPair(one, two) =>
        var c := if secondary then Secondary else Primary;
        var painted := s.(colors := Paint(Paint(s.colors, one, c), two, c));
        if last then Finish(painted) else painted
      case HeightWrite(bar, h) =>
        var resized := if IsBarIndex(bar, |s.heights|) then s.(heights := s.heights[bar.n := h]) else s;
        if last then Finish(resized) else resized
  }

  /** The callback of entry `i`, classified by its values as runAnimations does. */
  function Fire(s: Screen, a: seq<Entry>, i: int): (r: Screen)
    requires Fits(s) && 0 <= i < |a|
    ensures Fits(r) && |r.heights| == |s.heights|
    ensures a[i].Scalar? || |a[i].items| < 2 ==> r == s
    ensures r.running != s.running || r.flashed != s.flashed ==> i == |a| - 1
  {
    var act := Classify(a[i], |s.heights|);
    FireAction(s, act, act.ColorPair? && SameAnim(a[i].items, Next(a, i)), i == |a| - 1)
  }

  /** A stop requested before callback `i` clears the running flag. */
  function Interrupt(s: Screen, i: int, stopAt: int): (r: Screen) {
    if i == stopAt then s.(running := false) else s
  }

  /** The callbacks of entries `i` onwards, in order; once the running flag is clear, none changes anything. */
  function Replay(s: Screen, a: seq<Entry>, i: nat, stopAt: nat): (r: Screen)
    requires Fits(s) && i <= |a|
    ensures Fits(r) && |r.heights| == |s.heights|
    ensures !s.running ==> r == s
    decreases |a| - i
  {
    if i == |a| then s
    else Replay(Fire(Interrupt(s, i, stopAt), a, i), a, i + 1, stopAt)
  }

  /** runAnimations: a missing or empty list does nothing; otherwise set the running flag and replay. */
  function Run(s: Screen, animations: Option<seq<Entry>>, stopAt: nat): (r: Screen)
    requires Fits(s)
    ensures Fits(r) && |r.heights| == |s.heights|
    ensures animations.None? || |animations.value| == 0 ==> r == s
  {
    if animations.None? || |animations.value| == 0 then s
    else Replay(s.(running := true), animations.value, 0, stopAt)
  }

  /** A stop before callback `stopAt` clears the running flag, and the bars stay as they were. */
  lemma ReplayFromStop(s: Screen, a: seq<Entry>, stopAt: nat)
    requires Fits(s) && stopAt < |a|
    ensures Replay(s, a, stopAt, stopAt) == s.(running := false)
  {
    var stopped := s.(running := false);
    assert Fire(stopped, a, stopAt) == stopped;
  }

  /**
   * When the last entry of a list is skipped, `finish` never runs: without a
   * stop the running flag stays set for good. A one-element array returned by
   * getMergeSortAnimations is such a list.
   */
  lemma {:induction false} SkippedLastNeverFinishes(s: Screen, a: seq<Entry>, i: nat, stopAt: nat)
    requires Fits(s) && s.running && i <= |a| && stopAt >= |a| && a != []
    requires Classify(a[|a| - 1], |s.heights|).Skip?
    ensures Replay(s, a, i, stopAt).running && Replay(s, a, i, stopAt).flashed == s.flashed
    decreases |a| - i
  {
    if i < |a| {
      var s' := Fire(s, a, i);
      assert s'.running && s'.flashed == s.flashed;
      SkippedLastNeverFinishes(s', a, i + 1, stopAt);
    }
  }

  /** The trace getMergeSortAnimations returns for a one-element array leaves the player running. */
  lemma OneElementMergeTraceNeverFinishes(s: Screen, x: int, stopAt: nat)
    requires Fits(s) && stopAt >= 1
    ensures Run(s, Some(Scalars([x])), stopAt).running
  {
    SkippedLastNeverFinishes(s.(running := true), Scalars([x]), 0, stopAt);
  }

  /**
   * Every entry of a generated trace is a pair, so none is skipped: an
   * uninterrupted replay of a non-empty trace ends in `finish`.
   */
  lemma {:induction false} GeneratedTraceFinishes(s: Screen, t: seq<Step>, i: nat, stopAt: nat)
    requires Fits(s) && s.running && i < |t| && stopAt >= |t|
    ensures var r := Replay(s, Entries(t), i, stopAt);
      !r.running && r.flashed
    decreases |t| - i
  {
    var e := Entries(t);
    var s' := Fire(s, e, i);
    if i + 1 < |t| {
      assert s'.running;
      GeneratedTraceFinishes(s', t, i + 1, stopAt);
    } else {
      assert e[i].items == ToEntry(t[i]).items;
      assert !s'.running && s'.flashed;
      assert Replay(s', e, i + 1, stopAt) == s';
    }
  }

  /**
   * The corrected classification: the role the generator gave the step (a
   * mark or a write), not the size of its values, decides what it does.
   */
  function ClassifyStep(t: Step): (r: Action)
    ensures t.Mark? <==> r.ColorPair?
    ensures r.HeightWrite? ==> r.bar == Int(t.k) && r.height == Int(t.v)
  {
    match t
    case Mark(i, j) => ColorPair(i, j)
    case Write(k, v) => HeightWrite(Int(k), Int(v))
  }

  /** The callbacks of steps `i` onwards, classified by their role. */
  function ReplayTagged(s: Screen, t: seq<Step>, i: nat): (r: Screen)
    requires Fits(s) && i <= |t|
    ensures Fits(r) && |r.heights| == |s.heights|
    decreases |t| - i
  {
    if i == |t| then s
    else
      var e := Entries(t);
      var act := ClassifyStep(t[i]);
      var fired := FireAction(s, act, act.ColorPair? && SameAnim(e[i].items, Next(e, i)), i == |t| - 1);
      ReplayTagged(fired, t, i + 1)
  }

  /**
   * Replaying a trace by role ends on the heights the generator meant: the
   * writes applied in order, which every animated sort proves equal to the
   * sorted array.
   */
  lemma {:induction false} ReplayTaggedShowsDisplay(s: Screen, d: seq<int>, t: seq<Step>, i: nat)
    requires Fits(s) && i <= |t| && |d| == |s.heights| && s.running
    requires Within(t, 0, |d| - 1)
    requires s.heights == Ints(Display(d, t[..i]))
    ensures ReplayTagged(s, t, i).heights == Ints(Display(d, t))
    decreases |t| - i
  {
    if i == |t| {
      assert t[..i] == t;
    } else {
      var e := Entries(t);
      var act := ClassifyStep(t[i]);
      var fired := FireAction(s, act, act.ColorPair? && SameAnim(e[i].items, Next(e, i)), i == |t| - 1);
      assert StepWithin(t[i], 0, |d| - 1);
      DisplayStep(d, t, i);
      if i + 1 < |t| {
        assert fired.running;
        ReplayTaggedShowsDisplay(fired, d, t, i + 1);
      } else {
        assert t[..i + 1] == t;
        assert ReplayTagged(fired, t, i + 1) == fired;
      }
    }
  }

  /** What step `i` of a trace does to the heights the steps before it produced. */
  lemma DisplayStep(d: seq<int>, t: seq<Step>, i: nat)
    requires i < |t|
    ensures var before := Display(d, t[..i]);
      Display(d, t[..i + 1]) == match t[i]
        case Mark(_, _) => before
        case Write(k, v) => if 0 <= k < |before| then before[k := v] else before
  {
    assert t[..i + 1][..i] == t[..i];
  }

  /** Every write of `t` stores a value that names no bar. */
  ghost predicate WritesAboveBars(t: seq<Step>, nBars: int) {
    forall q :: 0 <= q < |t| && t[q].Write? ==> !(0 <= t[q].v < nBars)
  }

  /**
   * When no written value names a bar, the classification by value agrees
   * with the classification by role on every step of a trace within the bars.
   */
  lemma ValuesAgreeWithRoles(t: seq<Step>, nBars: int)
    requires Within(t, 0, nBars - 1) && WritesAboveBars(t, nBars)
    ensures forall q :: 0 <= q < |t| ==> Classify(Entries(t)[q], nBars) == ClassifyStep(t[q])
  {
    forall q | 0 <= q < |t|
      ensures Classify(Entries(t)[q], nBars) == ClassifyStep(t[q])
    {
      assert StepWithin(t[q], 0, nBars - 1);
    }
  }

  /** Without a stop, replaying a trace as written and by role agree when the values classify alike. */
  lemma {:induction false} ReplayAsTagged(s: Screen, t: seq<Step>, i: nat, stopAt: nat)
    requires Fits(s) && i <= |t| && stopAt >= |t|
    requires forall q :: 0 <= q < |t| ==> Classify(Entries(t)[q], |s.heights|) == ClassifyStep(t[q])
    ensures Replay(s, Entries(t), i, stopAt) == ReplayTagged(s, t, i)
    decreases |t| - i
  {
    if i < |t| {
      var e := Entries(t);
      var act := ClassifyStep(t[i]);
      var fired := FireAction(s, act, act.ColorPair? && SameAnim(e[i].items, Next(e, i)), i == |t| - 1);
      assert Fire(Interrupt(s, i, stopAt), e, i) == fired;
      ReplayAsTagged(fired, t, i + 1, stopAt);
    }
  }

  /**
   * As written, an uninterrupted replay of a trace within the bars whose
   * written values all lie at or above the number of bars ends on the heights
   * the trace means, and runs `finish`.
   */
  lemma RunShowsDisplayWhenValuesAboveBars(s: Screen, d: seq<int>, t: seq<Step>, stopAt: nat)
    requires Fits(s) && s.heights == Ints(d) && t != [] && stopAt >= |t|
    requires Within(t, 0, |d| - 1) && WritesAboveBars(t, |d|)
    ensures Run(s, Some(Entries(t)), stopAt).heights == Ints(Display(d, t))
  {
    var s0 := s.(running := true);
    ValuesAgreeWithRoles(t, |d|);
    ReplayAsTagged(s0, t, 0, stopAt);
    assert t[..0] == [];
    ReplayTaggedShowsDisplay(s0, d, t, 0);
  }

  /**
   * As written, a write whose bar and value both lie in [0, nBars) is read as
   * a colour pair: the bar is recoloured instead of resized.
   */
  lemma SmallWriteIsColorPair(k: int, v: int, nBars: int)
    requires 0 <= k < nBars && 0 <= v < nBars
    ensures Classify(ToEntry(Write(k, v)), nBars) == ColorPair(k, v)
  {
  }

  /** Twenty bars showing 9, 6, 100, 100, ...: the heights an array of that size can have. */
  function TwentyBars(): (r: seq<int>) {
    [9, 6] + seq(18, _ => 100)
  }

  /**
   * The first comparison of a bubble sort over those bars exchanges 9 and 6.
   * Its writes [0, 6] and [1, 9] both look like colour pairs, so replaying the
   * trace as written leaves the first two bars at 9 and 6, while the trace
   * means 6 and 9.
   */
  lemma ReplayMisreadsSmallWrites()
    ensures var d := TwentyBars();
      var t := [Mark(0, 1), Mark(0, 1), Write(0, 6), Write(1, 9)];
      var start := Screen(Ints(d), seq(20, _ => Reset), false, false);
      && Display(d, t)[0] == 6
      && Run(start, Some(Entries(t)), 4).heights[0] == Int(9)
  {
    var d := TwentyBars();
    var t := [Mark(0, 1), Mark(0, 1), Write(0, 6), Write(1, 9)];
    var start := Screen(Ints(d), seq(20, _ => Reset), false, false);
    assert t[..3] == [Mark(0, 1), Mark(0, 1), Write(0, 6)];
    assert t[..3][..2] == [Mark(0, 1), Mark(0, 1)];
    assert [Mark(0, 1), Mark(0, 1)][..1] == [Mark(0, 1)];
    assert [Mark(0, 1)][..0] == [];
    var e := Entries(t);
    assert e[0] == List([Int(0), Int(1)]) && e[1] == e[0];
    assert e[2] == List([Int(0), Int(6)]) && e[3] == List([Int(1), Int(9)]);
    var s0 := start.(running := true);
    var s1 := Fire(s0, e, 0);
    var s2 := Fire(s1, e, 1);
    var s3 := Fire(s2, e, 2);
    var s4 := Fire(s3, e, 3);
    assert s4.heights == s0.heights;
    assert Replay(s3, e, 3, 4) == s4;
    assert Replay(s1, e, 1, 4) == s4;
    assert Replay(s0, e, 0, 4) == s4;
  }

  /**
   * The bars of a running player. The two arrays are created once; the
   * replay changes their contents and the flags.
   */
  class Player {
    const heights: array<Value>
    const colors: array<Color>
    var running: bool
    var flashed: bool

    ghost predicate Valid()
      reads this
    {
      heights.Length == colors.Length
    }

    function Snapshot(): (r: Screen)
      reads this, heights, colors
      ensures Valid() ==> Fits(r)
    {
      Screen(heights[..], colors[..], running, flashed)
    }

    /** Bars showing `bars`, reset to the base colour, nothing running. */
    constructor (bars: seq<Value>)
      ensures Valid() && fresh(heights) && fresh(colors)
      ensures Snapshot() == Screen(bars, seq(|bars|, _ => Reset), false, false)
    {
      heights := new Value[|bars|](k requires 0 <= k < |bars| => bars[k]);
      colors := new Color[|bars|](_ => Reset);
      running := false;
      flashed := false;
      new;
      assert heights[..] == bars;
    }

    /** finish: the player stops and every bar flashes as sorted. */
    method Finish()
      modifies this
      ensures running == false && flashed == true
    {
      running := false;
      flashed := true;
    }

    /**
     * runAnimations with its callbacks fired in list order and a stop (if
     * any) requested just before callback `stopAt`.
     */
    method RunAnimations(animations: Option<seq<Entry>>, stopAt: nat)
      requires Valid()
      modifies this, heights, colors
      ensures Valid() && Snapshot() == Run(old(Snapshot()), animations, stopAt)
    {
      if animations.None? || |animations.value| == 0 {
        return;
      }
      var a := animations.value;
      running := true;
      ghost var start := Snapshot();
      for i := 0 to |a|
        invariant Valid()
        invariant Replay(Snapshot(), a, i, stopAt) == Replay(start, a, 0, stopAt)
      {
        ghost var before := Interrupt(Snapshot(), i, stopAt);
        if i == stopAt {
          running := false;
        }
        assert Snapshot() == before;
        PlayEntry(a, i);
      }
    }

    /** The callback of entry `i`. */
    method PlayEntry(a: seq<Entry>, i: nat)
      requires Valid() && i < |a|
      modifies this, heights, colors
      ensures Valid() && Snapshot() == Fire(old(Snapshot()), a, i)
    {
      var act := Classify(a[i], heights.Length);
      var secondary := act.ColorPair? && SameAnim(a[i].items, Next(a, i));
      ghost var s := Snapshot();
      if running {
        match act {
          case Skip =>
          case ColorPair(one, two) =>
            var c := if secondary then Secondary else Primary;
            if 0 <= one < colors.Length {
              colors[one] := c;
            }
            if 0 <= two < colors.Length {
              colors[two] := c;
            }
            assert colors[..] == Paint(Paint(s.colors, one, c), two, c);
            if i == |a| - 1 {
              Finish();
            }
          case HeightWrite(bar, h) =>
            if IsBarIndex(bar, heights.Length) {
              heights[bar.n] := h;
            }
            if i == |a| - 1 {
              Finish();
            }
        }
      }
    }
  }
}
