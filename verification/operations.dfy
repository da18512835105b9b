/**
 * The operation log and the effect of one operation on the visualizer's data
 * state, in either direction (`VisualizationController._makeOp`), together
 * with the reference meaning of a log position: the state a forward replay
 * of the log from index 0 produces.
 */
module Operations {
  import V = Visualizer

  /** The four kinds of log entry: `init` (with its `data`), `focus` and
      `swap` (with `first_index` and `second_index`), and
      `change-active-length` (with its `step`). */
  datatype Op =
    | Init(values: seq<int>)
    | Focus(first: int, second: int)
    | Swap(first: int, second: int)
    | ChangeActiveLength(step: int)

  datatype Direction = Forward | Backward

  /** The cells and active length agree; the focus set may differ. */
  predicate SameContents(v: V.Visual, w: V.Visual)
  {
    v.data == w.data && v.activeLength == w.activeLength
  }

  /** The source never range-checks swap indexes; the model requires them to
      address existing cells. */
  predicate Applicable(v: V.Visual, op: Op)
  {
    op.Swap? ==> 0 <= op.first < |v.data| && 0 <= op.second < |v.data|
  }

  /** Which indexes are highlighted right after one operation, whatever was
      highlighted before: a swap shows its two slots in both directions, a
      focus only when applied forward, everything else clears. */
  function HighlightAfter(op: Op, dir: Direction): set<int>
  {
    match op
    case Swap(a, b) => {a, b}
    case Focus(a, b) => if dir == Forward then {a, b} else {}
    case Init(_) => {}
    case ChangeActiveLength(_) => {}
  }

  /** `_makeOp(op, direction)` as seen by the visualizer. */
  function Apply(v: V.Visual, op: Op, dir: Direction): (r: V.Visual)
    requires Applicable(v, op)
    ensures r.focused == HighlightAfter(op, dir)
    ensures op.Init? ==> r.data == V.Fresh(op.values)
    ensures op.Init? ==> V.Values(r.data) == op.values && V.KeysArePermutation(r.data)
                         && r.activeLength == |op.values|
    ensures op.Swap? ==> |r.data| == |v.data|
                         && r.data[op.first] == v.data[op.second]
                         && r.data[op.second] == v.data[op.first]
                         && (forall i :: 0 <= i < |v.data| && i != op.first && i != op.second
                               ==> r.data[i] == v.data[i])
    ensures op.Focus? ==> r.data == v.data && r.activeLength == v.activeLength
    ensures op.ChangeActiveLength? ==> r.data == v.data
    ensures op.ChangeActiveLength? && dir == Forward ==> r.activeLength == v.activeLength + op.step
    ensures op.ChangeActiveLength? && dir == Backward ==> r.activeLength == v.activeLength - op.step
    ensures !op.Init? ==> |r.data| == |v.data|
    ensures op.Swap? ==> r.activeLength == v.activeLength
  {
    match op
    case Swap(a, b) =>
      V.Swap(V.Focus(V.ClearFocus(v), [a, b]), a, b)
    case Focus(a, b) =>
      var cleared := V.ClearFocus(v);
      if dir == Forward then V.Focus(cleared, [a, b]) else cleared
    case Init(values) =>
      V.SetInitialData(V.ClearFocus(v), values)
    case ChangeActiveLength(step) =>
      var cleared := V.ClearFocus(v);
      var signed := if dir == Backward then -step else step;
      V.SetActiveLength(cleared, cleared.activeLength + signed)
  }

  /** The result of an operation depends on the prior state only through its
      cells and active length, never through the prior focus set. */
  lemma ApplyForgetsFocus(v: V.Visual, w: V.Visual, op: Op, dir: Direction)
    requires Applicable(v, op) && SameContents(v, w)
    ensures Apply(v, op, dir) == Apply(w, op, dir)
  {
  }

  /** Every operation except `init` is undone by applying it in the other
      direction: a swap is its own inverse, a length change flips its sign,
      a focus leaves the cells alone. Only the focus set may differ. */
  lemma ApplyThenUndo(v: V.Visual, op: Op)
    requires !op.Init? && Applicable(v, op)
    ensures SameContents(Apply(Apply(v, op, Forward), op, Backward), v)
    ensures SameContents(Apply(Apply(v, op, Backward), op, Forward), v)
  {
    if op.Swap? {
      var a, b := op.first, op.second;
      var once := V.Focus(V.ClearFocus(v), [a, b]);
      V.SwapTwiceRestores(once, a, b);
      assert Apply(v, op, Forward) == V.Swap(once, a, b);
      assert Apply(v, op, Backward) == V.Swap(once, a, b);
      assert Apply(V.Swap(once, a, b), op, Forward).data == V.Swap(V.Swap(once, a, b), a, b).data;
    }
  }

  /** A log the model can replay: non-empty, starting with `init` (the
      constructor reads `operationsList[0].data`), every later `init` of the
      same width and every swap addressing existing cells. */
  predicate ValidLog(log: seq<Op>)
  {
    && |log| > 0
    && log[0].Init?
    && (forall i :: 0 <= i < |log| && log[i].Init? ==> |log[i].values| == |log[0].values|)
    && (forall i :: 0 <= i < |log| && log[i].Swap? ==>
          0 <= log[i].first < |log[0].values| && 0 <= log[i].second < |log[0].values|)
  }

  /** Number of cells every state of a valid log has. */
  function Width(log: seq<Op>): nat
    requires |log| > 0 && log[0].Init?
  {
    |log[0].values|
  }

  /** `init` appears only at index 0, as in the example log at the bottom
      of src/index.js. */
  predicate InitOnlyAtStart(log: seq<Op>)
  {
    forall i :: 0 < i < |log| ==> !log[i].Init?
  }

  /** The state the controller's constructor builds from `init`: fresh cells,
      all of them active, nothing highlighted. */
  function Start(values: seq<int>): (r: V.Visual)
    ensures r.data == V.Fresh(values)
    ensures V.Values(r.data) == values && V.KeysArePermutation(r.data)
    ensures r.activeLength == |values| && r.focused == {}
  {
    V.Visual(V.Fresh(values), |values|, {})
  }

  /** Reference meaning of log position `p`: the state after applying
      `log[0..p]` forward, in order, starting from the constructor's state. */
  function Replay(log: seq<Op>, p: int): (r: V.Visual)
    requires ValidLog(log) && 0 <= p < |log|
    ensures |r.data| == Width(log)
    ensures r.focused == HighlightAfter(log[p], Forward)
    decreases p
  {
    if p == 0 then Start(log[0].values)
    else Apply(Replay(log, p - 1), log[p], Forward)
  }

  /** Every replayed state keeps the keys a permutation of 0 .. n-1. */
  lemma {:induction false} ReplayKeysArePermutation(log: seq<Op>, p: int)
    requires ValidLog(log) && 0 <= p < |log|
    ensures V.KeysArePermutation(Replay(log, p).data)
  {
    if p > 0 {
      ReplayKeysArePermutation(log, p - 1);
      if log[p].Swap? {
        V.SwapPermutes(V.Focus(V.ClearFocus(Replay(log, p - 1)), [log[p].first, log[p].second]),
                       log[p].first, log[p].second);
      }
    }
  }

  /** With `init` only at index 0, every replayed state shows a
      rearrangement of the initial values: swaps only move them around. */
  lemma {:induction false} ReplayPermutesInitialValues(log: seq<Op>, p: int)
    requires ValidLog(log) && InitOnlyAtStart(log) && 0 <= p < |log|
    ensures multiset(V.Values(Replay(log, p).data)) == multiset(log[0].values)
  {
    if p > 0 {
      ReplayPermutesInitialValues(log, p - 1);
      var prev := Replay(log, p - 1);
      if log[p].Swap? {
        var a, b := log[p].first, log[p].second;
        var focused := V.Focus(V.ClearFocus(prev), [a, b]);
        V.SwapPermutes(focused, a, b);
        assert Replay(log, p) == V.Swap(focused, a, b);
      } else {
        assert Replay(log, p).data == prev.data;
      }
    }
  }
}
