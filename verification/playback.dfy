/**
 * The play button of src/index.js: a two-state machine (playing when
 * `_playTimer` is set) whose timer ticks advance the cursor by one until the
 * last operation, and the periodic poller that clears the highlight a swap
 * left behind once its animation time has passed.  Time is a parameter:
 * the milliseconds elapsed since the last operation.
 */
module Playback {
  import V = Visualizer
  import opened Operations
  import opened VisualizationController

  /** `options.animationSpeed`, in milliseconds; the controller never
      overrides the visualizer's default. */
  const AnimationSpeed: int := 500

  /** A click on "play": a running timer is cancelled, otherwise one is
      started. Nothing but the playing flag changes. */
  function Toggle(c: Controller): (r: Controller)
    ensures r.playing != c.playing
    ensures r.log == c.log && r.vis == c.vis && r.cursor == c.cursor && r.last == c.last
  {
    if c.playing then c.(playing := false) else c.(playing := true)
  }

  /** One tick of the play timer: stops when not playing or already at the
      last operation, otherwise seeks one step ahead. */
  function Tick(c: Controller): (r: Controller)
    requires Valid(c)
    ensures Valid(r) && r.log == c.log
    ensures !c.playing || c.cursor >= |c.log| - 1 ==>
              !r.playing && r.cursor == c.cursor && r.vis == c.vis && r.last == c.last
    ensures c.playing && c.cursor < |c.log| - 1 ==> r.playing && r.cursor == c.cursor + 1
  {
    if !c.playing || c.cursor >= |c.log| - 1 then c.(playing := false)
    else SelectOperation(c, c.cursor + 1)
  }

  /** A tick that advances shows exactly the forward replay of the new
      position, focus included. */
  lemma TickReplays(c: Controller)
    requires Consistent(c) && InitOnlyAtStart(c.log)
    ensures Consistent(Tick(c))
    ensures c.playing && c.cursor < |c.log| - 1 ==> Tick(c).vis == Replay(c.log, c.cursor + 1)
  {
    if c.playing && c.cursor < |c.log| - 1 {
      JumpToReplays(c, c.cursor + 1);
    }
  }

  /** `k` consecutive timer ticks. */
  function Ticks(c: Controller, k: nat): (r: Controller)
    requires Valid(c)
    ensures Valid(r) && r.log == c.log
    decreases k
  {
    if k == 0 then c else Ticks(Tick(c), k - 1)
  }

  /** Ticks on a stopped controller change nothing. */
  lemma {:induction false} StoppedTicksAreIdle(c: Controller, k: nat)
    requires Valid(c) && !c.playing
    ensures Ticks(c, k) == c
    decreases k
  {
    if k > 0 {
      assert Tick(c) == c;
      StoppedTicksAreIdle(c, k - 1);
    }
  }

  /** Started at cursor `p`, playback after `k` ticks sits at
      min(p + k, last index) and is still playing exactly while
      p + k has not passed the last index: it stops by itself one tick after
      reaching the end. */
  lemma {:induction false} PlayRunsToEnd(c: Controller, k: nat)
    requires Valid(c) && c.playing
    ensures Ticks(c, k).cursor == if c.cursor + k < |c.log| then c.cursor + k else |c.log| - 1
    ensures Ticks(c, k).playing <==> c.cursor + k < |c.log|
    decreases k
  {
    if k > 0 {
      if c.cursor < |c.log| - 1 {
        PlayRunsToEnd(Tick(c), k - 1);
      } else {
        StoppedTicksAreIdle(Tick(c), k - 1);
      }
    }
  }

  /** Playback keeps the central invariant. */
  lemma {:induction false} PlayKeepsConsistent(c: Controller, k: nat)
    requires Consistent(c) && InitOnlyAtStart(c.log)
    ensures Consistent(Ticks(c, k))
    decreases k
  {
    if k > 0 {
      TickReplays(c);
      PlayKeepsConsistent(Tick(c), k - 1);
    }
  }

  /** Once playback has run past the end, the state is exactly the forward
      replay of the whole log, focus included (provided it moved at all). */
  lemma {:induction false} PlayReachesFinalState(c: Controller, k: nat)
    requires Consistent(c) && InitOnlyAtStart(c.log) && c.playing
    requires c.cursor < |c.log| - 1 && c.cursor + k >= |c.log| - 1
    ensures Ticks(c, k).vis == Replay(c.log, |c.log| - 1)
    decreases k
  {
    var next := Tick(c);
    assert Ticks(c, k) == Ticks(next, k - 1);
    TickReplays(c);
    if c.cursor + 1 == |c.log| - 1 {
      StoppedOrAtEnd(next, k - 1);
    } else {
      PlayReachesFinalState(next, k - 1);
    }
  }

  /** Once at the last index, further ticks never change the visual state. */
  lemma {:induction false} StoppedOrAtEnd(c: Controller, k: nat)
    requires Valid(c) && c.cursor == |c.log| - 1
    ensures Ticks(c, k).vis == c.vis
    decreases k
  {
    if k > 0 {
      assert Tick(c) == c.(playing := false);
      StoppedOrAtEnd(Tick(c), k - 1);
    }
  }

  /** `_afterLastOperation`, run by a 100 ms poller: if the last operation
      was a swap, at least an animation's time has elapsed and something is
      highlighted, the highlight is cleared. It never touches the cells,
      the active length or the cursor, so the central invariant survives. */
  function AfterLastOperation(c: Controller, elapsed: int): (r: Controller)
    ensures r.log == c.log && r.cursor == c.cursor && r.last == c.last && r.playing == c.playing
    ensures SameContents(r.vis, c.vis)
    ensures r.vis.focused ==
              if c.last.Some? && c.last.value.Swap? && elapsed >= AnimationSpeed then {}
              else c.vis.focused
    ensures Consistent(c) ==> Consistent(r)
  {
    if c.last.Some? && c.last.value.Swap? && elapsed >= AnimationSpeed && |c.vis.focused| > 0
    then c.(vis := V.ClearFocus(c.vis))
    else c
  }
}
