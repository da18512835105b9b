/**
 * The `VisualizationController` of src/index.js without its DOM: a cursor
 * `currentOpIndex` into the operation log, the visualizer state it drives,
 * the last operation applied and whether the play timer is running.
 * Seeking (`_selectOperation`) clamps the target and walks the log from the
 * cursor to it (`_jumpTo`), applying each step with `_makeOp`.
 */
module VisualizationController {
  import opened Wrappers
  import V = Visualizer
  import opened Operations

  datatype Controller = Controller(
    log: seq<Op>,        // operationsList
    vis: V.Visual,       // the visualizer's data state
    cursor: int,         // currentOpIndex
    last: Option<Op>,    // _lastOperation
    playing: bool)       // whether _playTimer is set

  /** The constructor reads `operationsList[0].data`: on an empty log that
      read throws, and on a log not starting with `init` it yields
      `undefined`, on which `setInitialData` throws when it calls `map`. */
  datatype ConstructError = MissingInitialData

  /** A controller over a replayable log whose cursor addresses an entry and
      whose cells have the log's width. */
  predicate Valid(c: Controller)
  {
    && ValidLog(c.log)
    && 0 <= c.cursor < |c.log|
    && |c.vis.data| == Width(c.log)
  }

  /** The central invariant: the cells and active length are those of a
      forward replay of the log up to the cursor. */
  predicate Consistent(c: Controller)
  {
    Valid(c) && SameContents(c.vis, Replay(c.log, c.cursor))
  }

  /** The constructor: cursor 0, the visualizer built from the first
      operation's data with nothing focused, no last operation, not playing. */
  function Construct(log: seq<Op>): (r: Result<Controller, ConstructError>)
    ensures r.Success? <==> |log| > 0 && log[0].Init?
    ensures r.Success? ==> r.value.log == log && r.value.cursor == 0
                           && r.value.last == None && !r.value.playing
    ensures r.Success? && ValidLog(log) ==> Consistent(r.value) && r.value.vis == Replay(log, 0)
  {
    if |log| == 0 || !log[0].Init? then Failure(MissingInitialData)
    else Success(Controller(log, V.SetInitialData(V.Visual([], 0, {}), log[0].values).(focused := {}),
                            0, None, false))
  }

  /** `_makeOp`: applies the operation to the visualizer and records it as
      the last one. */
  function MakeOp(c: Controller, op: Op, dir: Direction): (r: Controller)
    requires Applicable(c.vis, op)
    ensures r.vis == Apply(c.vis, op, dir)
    ensures r.last == Some(op)
    ensures r.log == c.log && r.cursor == c.cursor && r.playing == c.playing
  {
    c.(vis := Apply(c.vis, op, dir), last := Some(op))
  }

  /** The forward loop of `_jumpTo`: applies `log[i]`, `log[i+1]`, ...,
      `log[t]` forward, in ascending order. */
  function ForwardWalk(c: Controller, i: int, t: int): (r: Controller)
    requires ValidLog(c.log) && |c.vis.data| == Width(c.log)
    requires 0 <= i && t < |c.log|
    ensures r.log == c.log && r.cursor == c.cursor && r.playing == c.playing
    ensures |r.vis.data| == Width(c.log)
    decreases t - i
  {
    if i > t then c
    else ForwardWalk(MakeOp(c, c.log[i], Forward), i + 1, t)
  }

  /** The backward loop of `_jumpTo`: applies `log[i]`, `log[i-1]`, ...,
      `log[t+1]` backward, in descending order; `log[t]` itself is not
      undone. */
  function BackwardWalk(c: Controller, i: int, t: int): (r: Controller)
    requires ValidLog(c.log) && |c.vis.data| == Width(c.log)
    requires 0 <= t && i < |c.log|
    ensures r.log == c.log && r.cursor == c.cursor && r.playing == c.playing
    ensures |r.vis.data| == Width(c.log)
    decreases i - t
  {
    if i <= t then c
    else BackwardWalk(MakeOp(c, c.log[i], Backward), i - 1, t)
  }

  /** `_jumpTo(t)`: walks forward when the target lies ahead, backward
      otherwise; after a backward (or same-index) walk an operation landed on
      that is a `focus` is re-applied forward. The cursor becomes `t`. */
  function JumpTo(c: Controller, t: int): (r: Controller)
    requires Valid(c) && 0 <= t < |c.log|
    ensures Valid(r) && r.cursor == t && r.log == c.log && r.playing == c.playing
  {
    if c.cursor < t then
      ForwardWalk(c, c.cursor + 1, t).(cursor := t)
    else
      var back := BackwardWalk(c, c.cursor, t);
      var landed := c.log[t];
      var shown := if landed.Focus? then MakeOp(back, landed, Forward) else back;
      shown.(cursor := t)
  }

  /** The clamping at the top of `_selectOperation`. */
  function Clamp(t: int, len: int): (r: int)
    requires len > 0
    ensures 0 <= r < len
    ensures 0 <= t < len ==> r == t
    ensures t < 0 ==> r == 0
    ensures t >= len ==> r == len - 1
  {
    var lower := if t < 0 then 0 else t;
    if lower >= len then len - 1 else lower
  }

  /** `_selectOperation(t)` without the rendering: clamp, then jump. */
  function SelectOperation(c: Controller, t: int): (r: Controller)
    requires Valid(c)
    ensures Valid(r) && r.log == c.log && r.playing == c.playing
    ensures r.cursor == Clamp(t, |c.log|)
  {
    JumpTo(c, Clamp(t, |c.log|))
  }

  /** The "next", "prev" and "reset" buttons. */
  function Next(c: Controller): (r: Controller)
    requires Valid(c)
    ensures r.cursor == if c.cursor + 1 < |c.log| then c.cursor + 1 else c.cursor
  {
    SelectOperation(c, c.cursor + 1)
  }

  function Prev(c: Controller): (r: Controller)
    requires Valid(c)
    ensures r.cursor == if c.cursor > 0 then c.cursor - 1 else 0
  {
    SelectOperation(c, c.cursor - 1)
  }

  function Reset(c: Controller): (r: Controller)
    requires Valid(c)
    ensures r.cursor == 0
  {
    SelectOperation(c, 0)
  }

  /** Walking forward from a state that agrees with the replay at `i-1`
      reaches the replay at `t`; after at least one step it equals it
      exactly, focus included, and the last operation is `log[t]`. */
  lemma {:induction false} ForwardWalkReplays(c: Controller, i: int, t: int)
    requires ValidLog(c.log) && |c.vis.data| == Width(c.log)
    requires 1 <= i <= t + 1 && t < |c.log|
    requires SameContents(c.vis, Replay(c.log, i - 1))
    ensures SameContents(ForwardWalk(c, i, t).vis, Replay(c.log, t))
    ensures i <= t ==> ForwardWalk(c, i, t).vis == Replay(c.log, t)
                       && ForwardWalk(c, i, t).last == Some(c.log[t])
    decreases t - i
  {
    if i <= t {
      var next := MakeOp(c, c.log[i], Forward);
      ApplyForgetsFocus(c.vis, Replay(c.log, i - 1), c.log[i], Forward);
      assert next.vis == Replay(c.log, i);
      ForwardWalkReplays(next, i + 1, t);
      if i == t {
        assert ForwardWalk(c, i, t) == ForwardWalk(next, i + 1, t) == next;
      }
    }
  }

  /** With `init` only at index 0, walking backward from a state that agrees
      with the replay at `i` reaches one that agrees with the replay at `t`.
      The focus set is then the highlight of undoing `log[t+1]`. */
  lemma {:induction false} BackwardWalkReplays(c: Controller, i: int, t: int)
    requires ValidLog(c.log) && InitOnlyAtStart(c.log) && |c.vis.data| == Width(c.log)
    requires 0 <= t <= i < |c.log|
    requires SameContents(c.vis, Replay(c.log, i))
    ensures SameContents(BackwardWalk(c, i, t).vis, Replay(c.log, t))
    ensures i > t ==> BackwardWalk(c, i, t).vis.focused == HighlightAfter(c.log[t + 1], Backward)
                      && BackwardWalk(c, i, t).last == Some(c.log[t + 1])
    ensures i == t ==> BackwardWalk(c, i, t) == c
    decreases i - t
  {
    if i > t {
      var prev := Replay(c.log, i - 1);
      var next := MakeOp(c, c.log[i], Backward);
      ApplyForgetsFocus(c.vis, Apply(prev, c.log[i], Forward), c.log[i], Backward);
      ApplyThenUndo(prev, c.log[i]);
      assert SameContents(next.vis, prev);
      BackwardWalkReplays(next, i - 1, t);
    }
  }

  /** `_jumpTo` keeps the central invariant, lands exactly on the replayed
      state when moving forward, and otherwise shows the focus of the landed
      `focus` operation, or else the highlight of the last undo. */
  lemma JumpToReplays(c: Controller, t: int)
    requires Consistent(c) && InitOnlyAtStart(c.log) && 0 <= t < |c.log|
    ensures Consistent(JumpTo(c, t))
    ensures c.cursor < t ==> JumpTo(c, t).vis == Replay(c.log, t)
                             && JumpTo(c, t).last == Some(c.log[t])
    ensures c.cursor >= t && c.log[t].Focus? ==>
              JumpTo(c, t).vis.focused == {c.log[t].first, c.log[t].second}
              && JumpTo(c, t).last == Some(c.log[t])
    ensures c.cursor > t && !c.log[t].Focus? ==>
              JumpTo(c, t).vis.focused == HighlightAfter(c.log[t + 1], Backward)
              && JumpTo(c, t).last == Some(c.log[t + 1])
    ensures c.cursor == t && !c.log[t].Focus? ==> JumpTo(c, t) == c
  {
    if c.cursor < t {
      ForwardWalkReplays(c, c.cursor + 1, t);
    } else {
      BackwardWalkReplays(c, c.cursor, t);
    }
  }

  /** Any seek keeps the central invariant and puts the cursor on the
      clamped target; the result depends on the target only through its
      clamped value. */
  lemma SelectOperationReplays(c: Controller, t: int)
    requires Consistent(c) && InitOnlyAtStart(c.log)
    ensures Consistent(SelectOperation(c, t))
    ensures SameContents(SelectOperation(c, t).vis, Replay(c.log, Clamp(t, |c.log|)))
    ensures SelectOperation(c, t) == SelectOperation(c, Clamp(t, |c.log|))
  {
    JumpToReplays(c, Clamp(t, |c.log|));
  }

  /** Seeks to each target of `ts` in turn. */
  function SeekAll(c: Controller, ts: seq<int>): (r: Controller)
    requires Valid(c)
    ensures Valid(r) && r.log == c.log && r.playing == c.playing
    ensures |ts| > 0 ==> r.cursor == Clamp(ts[|ts| - 1], |c.log|)
    ensures |ts| == 0 ==> r == c
    decreases |ts|
  {
    if |ts| == 0 then c else SeekAll(SelectOperation(c, ts[0]), ts[1..])
  }

  /** After any sequence of seeks the cells and active length are those of a
      forward replay of the log up to the cursor. */
  lemma {:induction false} SeekAllReplays(c: Controller, ts: seq<int>)
    requires Consistent(c) && InitOnlyAtStart(c.log)
    ensures Consistent(SeekAll(c, ts))
    decreases |ts|
  {
    if |ts| > 0 {
      SelectOperationReplays(c, ts[0]);
      SeekAllReplays(SelectOperation(c, ts[0]), ts[1..]);
    }
  }

  /** Seeking to `p`, then `q`, then `p` again shows the same cells and
      active length as seeking to `p` once. */
  lemma SeekRoundTrip(c: Controller, p: int, q: int)
    requires Consistent(c) && InitOnlyAtStart(c.log)
    ensures SameContents(SelectOperation(SelectOperation(SelectOperation(c, p), q), p).vis,
                         SelectOperation(c, p).vis)
  {
    var c1 := SelectOperation(c, p);
    SelectOperationReplays(c, p);
    var c2 := SelectOperation(c1, q);
    SelectOperationReplays(c1, q);
    SelectOperationReplays(c2, p);
  }

  /** "reset" always restores the constructor's cells and active length. */
  lemma ResetRestoresStart(c: Controller)
    requires Consistent(c) && InitOnlyAtStart(c.log)
    ensures SameContents(Reset(c).vis, Start(c.log[0].values))
  {
    SelectOperationReplays(c, 0);
  }

  /** The ascending `for` loop of `_jumpTo`, from `from` up to `t`. */
  method WalkForward(c: Controller, from: int, t: int) returns (r: Controller)
    requires ValidLog(c.log) && |c.vis.data| == Width(c.log)
    requires 0 <= from <= t + 1 && t < |c.log|
    ensures r == ForwardWalk(c, from, t)
  {
    r := c;
    var i := from;
    while i <= t
      invariant from <= i <= t + 1
      invariant r.log == c.log && |r.vis.data| == Width(c.log)
      invariant ForwardWalk(r, i, t) == ForwardWalk(c, from, t)
      decreases t - i
    {
      r := MakeOp(r, r.log[i], Forward);
      i := i + 1;
    }
  }

  /** The descending `for` loop of `_jumpTo`, from `from` down to `t + 1`. */
  method WalkBackward(c: Controller, from: int, t: int) returns (r: Controller)
    requires ValidLog(c.log) && |c.vis.data| == Width(c.log)
    requires 0 <= t <= from < |c.log|
    ensures r == BackwardWalk(c, from, t)
  {
    r := c;
    var i := from;
    while i > t
      invariant t <= i <= from
      invariant r.log == c.log && |r.vis.data| == Width(c.log)
      invariant BackwardWalk(r, i, t) == BackwardWalk(c, from, t)
      decreases i - t
    {
      r := MakeOp(r, r.log[i], Backward);
      i := i - 1;
    }
  }

  /** `_selectOperation` written the way the source runs it: clamp, then a
      counting loop up or down the log, then the cursor update. */
  method Seek(c: Controller, target: int) returns (r: Controller)
    requires Valid(c)
    ensures r == SelectOperation(c, target)
  {
    var t := target;
    if t < 0 {
      t := 0;
    }
    if t >= |c.log| {
      t := |c.log| - 1;
    }
    assert t == Clamp(target, |c.log|);
    if c.cursor < t {
      r := WalkForward(c, c.cursor + 1, t);
    } else {
      r := WalkBackward(c, c.cursor, t);
      var landed := c.log[t];
      if landed.Focus? {
        r := MakeOp(r, landed, Forward);
      }
    }
    r := r.(cursor := t);
  }

  /** Going backward across an `init` that is not at index 0 re-runs
      `setInitialData` instead of undoing it: with log
      [init [1,2], swap(0,1), init [1,2]] a seek from 2 to 1 shows the
      cells in initial order, not swapped as a forward replay to 1 does. */
  lemma BackwardAcrossInitIsNotUndo()
    ensures var log := [Init([1, 2]), Swap(0, 1), Init([1, 2])];
            var c := Controller(log, Replay(log, 2), 2, None, false);
            Consistent(c)
            && !SameContents(SelectOperation(c, 1).vis, Replay(log, 1))
  {
    var log := [Init([1, 2]), Swap(0, 1), Init([1, 2])];
    var c := Controller(log, Replay(log, 2), 2, None, false);
    assert Replay(log, 1).data[0] == V.Element(2, 1);
    assert SelectOperation(c, 1).vis.data[0] == V.Element(1, 0);
  }
}
