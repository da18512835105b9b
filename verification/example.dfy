/**
 * The usage example at the bottom of src/index.js: a heap-sort trace of
 * [1, 3, 4, 0, 2, 5] in 35 operations.
 */
module Example {
  import V = Visualizer
  import opened Operations
  import opened VisualizationController

  const ExampleLog: seq<Op> := [
    Init([1, 3, 4, 0, 2, 5]),
    Focus(5, 6), Focus(2, 5), Swap(2, 5), Focus(3, 4), Focus(1, 4),
    Focus(1, 2), Focus(0, 2), Swap(0, 2), Focus(5, 6), Focus(2, 5),
    Swap(2, 5), Swap(0, 5), ChangeActiveLength(-1), Focus(1, 2), Focus(0, 2),
    Swap(0, 2), Swap(0, 4), ChangeActiveLength(-1), Focus(1, 2), Focus(0, 1),
    Swap(0, 1), Focus(3, 4), Focus(1, 3), Swap(0, 3), ChangeActiveLength(-1),
    Focus(1, 2), Focus(0, 1), Swap(0, 1), Swap(0, 2), ChangeActiveLength(-1),
    Focus(1, 2), Focus(0, 1), Swap(0, 1), ChangeActiveLength(-2)
  ]

  /** The example log is replayable and starts with its only `init`. */
  lemma ExampleLogIsWellFormed()
    ensures |ExampleLog| == 35
    ensures ValidLog(ExampleLog) && InitOnlyAtStart(ExampleLog)
  {
  }

  /** The cells `setInitialData` builds for the example's data. */
  lemma ExampleStart()
    ensures V.Fresh([1, 3, 4, 0, 2, 5]) == InitialCells()
  {
    var d := V.Fresh([1, 3, 4, 0, 2, 5]);
    assert d[0] == V.Element(1, 0) && d[1] == V.Element(3, 1) && d[2] == V.Element(4, 2);
    assert d[3] == V.Element(0, 3) && d[4] == V.Element(2, 4) && d[5] == V.Element(5, 5);
  }

  /** The focus steps at indexes 1 and 2 leave the cells alone; the second
      one highlights cells 2 and 5. */
  lemma ExampleFocusSteps()
    ensures ValidLog(ExampleLog)
    ensures Replay(ExampleLog, 2).data == InitialCells()
    ensures Replay(ExampleLog, 2).focused == {2, 5}
  {
    ExampleLogIsWellFormed();
    ExampleStart();
    assert Replay(ExampleLog, 0).data == InitialCells();
    assert ExampleLog[1].Focus? && ExampleLog[2] == Focus(2, 5);
    assert Replay(ExampleLog, 1).data == InitialCells();
  }

  /** The swap at index 3 exchanges cells 2 and 5, keys travelling with
      their values. */
  lemma ExampleSwapStep()
    ensures ValidLog(ExampleLog)
    ensures Replay(ExampleLog, 3).data == SwappedCells()
  {
    ExampleFocusSteps();
    var r2 := Replay(ExampleLog, 2);
    var r3 := Replay(ExampleLog, 3);
    assert ExampleLog[3] == Swap(2, 5);
    assert r3 == Apply(r2, Swap(2, 5), Forward);
    var e := SwappedCells();
    assert r3.data[0] == e[0] && r3.data[1] == e[1] && r3.data[2] == e[2];
    assert r3.data[3] == e[3] && r3.data[4] == e[4] && r3.data[5] == e[5];
  }

  function SwappedCells(): seq<V.Element>
  {
    [V.Element(1, 0), V.Element(3, 1), V.Element(5, 5), V.Element(0, 3), V.Element(2, 4), V.Element(4, 2)]
  }

  function InitialCells(): seq<V.Element>
  {
    [V.Element(1, 0), V.Element(3, 1), V.Element(4, 2), V.Element(0, 3), V.Element(2, 4), V.Element(5, 5)]
  }

  /** The values the two cell layouts show. */
  lemma ExampleValues()
    ensures V.Values(InitialCells()) == [1, 3, 4, 0, 2, 5]
    ensures V.Values(SwappedCells()) == [1, 3, 5, 0, 2, 4]
  {
  }

  /** Seeking to 2 highlights cells 2 and 5, to 3 swaps them, and seeking
      back to 0 restores the initial cells with nothing highlighted. */
  lemma ExampleSeeks()
    ensures Construct(ExampleLog).Success?
    ensures var c0 := Construct(ExampleLog).value;
            var c2 := SelectOperation(c0, 2);
            var c3 := SelectOperation(c2, 3);
            var back := SelectOperation(c3, 0);
            && V.Values(c2.vis.data) == [1, 3, 4, 0, 2, 5] && c2.vis.focused == {2, 5}
            && V.Values(c3.vis.data) == [1, 3, 5, 0, 2, 4] && c3.vis.focused == {2, 5}
            && V.Values(back.vis.data) == [1, 3, 4, 0, 2, 5] && back.vis.focused == {}
            && back.cursor == 0
  {
    ExampleLogIsWellFormed();
    ExampleFocusSteps();
    ExampleSwapStep();
    ExampleValues();
    var c0 := Construct(ExampleLog).value;
    var c2 := SelectOperation(c0, 2);
    JumpToReplays(c0, 2);
    var c3 := SelectOperation(c2, 3);
    JumpToReplays(c2, 3);
    var back := SelectOperation(c3, 0);
    JumpToReplays(c3, 0);
    ExampleStart();
    assert back.vis.data == Replay(ExampleLog, 0).data == InitialCells();
    assert back.vis.focused == HighlightAfter(ExampleLog[1], Backward) == {};
  }
}
