# Operation-replay engine of the heap-sort visualization

This project models the core of `src/index.js` in Dafny. That file animates a heap sort by replaying a recorded operation log. A `VisualizationController` keeps a cursor `currentOpIndex` into the log. Seeking (`_selectOperation`) clamps the requested index into the log. `_jumpTo` then walks from the cursor to the target: forward it applies each operation, backward it undoes each one. Each step goes through `_makeOp`, which drives the `Visualizer`'s data state:

- the cells `{val, key}`;
- `activeLength`;
- the set of focused (highlighted) indexes.

The play button adds a two-state play/pause machine whose timer advances one step per tick.

Modules:

- `Wrappers`: `Option` and `Result`.
- `Visualizer`: the data state (`Visual`) and the primitive mutators `setInitialData`, `clearFocus`, `focus`, `swap` and `setActiveLength`.
- `Operations`: the four operation kinds and `Apply`, which is `_makeOp`'s effect in either direction. It also defines the reference meaning of a log position, `Replay(log, p)`: a forward replay of `log[0..p]` from the constructor's state.
- `VisualizationController`: the controller record, the forward and backward walks, `_jumpTo`, `_selectOperation` and the prev/next/reset buttons. The central theorem is that after any sequence of seeks, the cells and the active length equal `Replay(log, cursor)`. `Seek` is a loop-based version that is proved equal to the functional one.
- `Playback`: the play toggle, the timer tick and the swap-highlight auto-clear.
- `Example`: the usage log at the bottom of the file.

Four behaviours of the code are easy to expect otherwise, and the model keeps them as written:

- A backward `swap` highlights its two indexes, as a forward one does. `_makeOp` does not look at the direction for swaps.
- `change-active-length` never fails. The code performs no range check, so `activeLength` can leave `[0, n]`.
- Going backward across an `init` re-runs `setInitialData` instead of raising an error. `BackwardAcrossInitIsNotUndo` shows that this does not undo anything. For that reason the consistency theorems assume `init` occurs only at index 0.
- An empty log, or one that does not start with `init`, makes the constructor throw. On an empty log, reading `operationsList[0].data` throws. On a log whose first entry is not `init`, that read yields `undefined`, and `setInitialData` then throws when it calls `map` (src/index.js:28, reached from src/index.js:195-196). `Construct` models both cases as the `MissingInitialData` failure.

## Model

| member | source | states |
|---|---|---|
| Visualizer.Fresh | src/index.js:28 | initial cells carry the given values in order, and key `i` sits at slot `i`, so the keys are a permutation of 0..n-1 |
| Visualizer.SetInitialData | src/index.js:27-30 | the cells are the fresh cells of the given values (value `values[i]` with key `i` at slot `i`), so the keys form a permutation of 0..n-1; all cells are active; focus is untouched |
| Visualizer.ClearFocus | src/index.js:46-48 | nothing is focused afterwards; cells and active length are unchanged |
| Visualizer.Focus | src/index.js:54-56 | an index is focused afterwards iff it was focused before or is listed; no range check; cells unchanged |
| Visualizer.Swap | src/index.js:58-63 | slots a and b exchange their cells (value and key together), every other slot is unchanged, and the length, active length and focus are kept |
| Visualizer.SetActiveLength | src/index.js:65-67 | the active length becomes the given value, unchecked; nothing else changes |
| Visualizer.SwapTwiceRestores | src/index.js:58-63 | swapping the same two slots twice restores the state exactly |
| Visualizer.SwapPermutes | src/index.js:58-63 | a swap keeps the keys a permutation of 0..n-1 and the multiset of values unchanged |
| Operations.Apply | src/index.js:316-342 | focus after one op: swap gives {a,b} both ways, focus gives {a,b} forward and {} backward, init and change-active-length give {}; change-active-length adds step forward and subtracts it backward; init installs the fresh cells of its data (key `i` at slot `i`) and makes them all active; swap exchanges the two slots; focus leaves the cells alone |
| Operations.ApplyForgetsFocus | src/index.js:316-339 | every op clears the focus first, so its result depends only on the prior cells and active length |
| Operations.ApplyThenUndo | src/index.js:316-339 | for every non-init op, forward then backward (and backward then forward) restores the cells and the active length |
| Operations.Start | src/index.js:185-198 | the constructor's state holds the fresh cells of the first op's data (key `i` at slot `i`), all cells active, nothing focused |
| Operations.Replay | src/index.js:348-351 | replaying a valid log forward keeps its width, and the focus at position p is the forward highlight of log[p] |
| Operations.ReplayKeysArePermutation | src/index.js:27-30 | at every log position the keys are a permutation of 0..n-1 |
| Operations.ReplayPermutesInitialValues | src/index.js:344-355 | with init only at index 0, every position shows a rearrangement of the initial values |
| VisualizationController.Construct | src/index.js:185-198 | construction fails iff the log is empty or does not start with init; otherwise cursor 0, no last op, not playing, and the state equals the replay at 0 |
| VisualizationController.MakeOp | src/index.js:316-342 | one step applies the operation's effect to the visualizer and records the operation as the last one; the log, cursor and play flag are kept |
| VisualizationController.ForwardWalk | src/index.js:348-351 | the ascending walk keeps the log, cursor, play flag and width |
| VisualizationController.BackwardWalk | src/index.js:352-355 | the descending walk keeps the log, cursor, play flag and width |
| VisualizationController.JumpTo | src/index.js:344-362 | afterwards the cursor is the target and the controller is still valid |
| VisualizationController.Clamp | src/index.js:364-370 | the result lies in [0, len-1]; it equals the target when in range, 0 below, len-1 above |
| VisualizationController.SelectOperation | src/index.js:364-375 | afterwards currentOpIndex is the clamped target; the log and play flag are kept |
| VisualizationController.Next | src/index.js:271-273 | the cursor advances by one unless already at the last index |
| VisualizationController.Prev | src/index.js:275-277 | the cursor moves back by one unless already at 0 |
| VisualizationController.Reset | src/index.js:267-269 | the cursor becomes 0 |
| VisualizationController.ForwardWalkReplays | src/index.js:348-351 | applying log[cur+1..t] in ascending order from a state consistent with cur reaches exactly the replay at t, focus included, with log[t] as last op |
| VisualizationController.BackwardWalkReplays | src/index.js:352-355 | undoing log[cur..t+1] in descending order reaches the replay at t in cells and active length, never undoing index t; focus is the backward highlight of log[t+1] |
| VisualizationController.JumpToReplays | src/index.js:344-362 | _jumpTo keeps cells and active length equal to the replay at the target; a backward or same-index jump that lands on a focus op shows exactly its two indices; a same-index jump onto any other op changes nothing |
| VisualizationController.SelectOperationReplays | src/index.js:364-375 | a seek keeps the central invariant, and it depends on the target only through the clamped value (seek(-5) is seek(0), seek(len+5) is seek(len-1)) |
| VisualizationController.SeekAll | src/index.js:364-375 | after a sequence of seeks the cursor is the clamp of the last target |
| VisualizationController.SeekAllReplays | src/index.js:364-375 | after any sequence of seeks the cells and active length equal the forward replay of log[0..currentOpIndex] |
| VisualizationController.SeekRoundTrip | src/index.js:364-375 | seek(p); seek(q); seek(p) shows the same cells and active length as seek(p) |
| VisualizationController.ResetRestoresStart | src/index.js:267-269 | reset restores the constructor's cells and active length |
| VisualizationController.WalkForward | src/index.js:349-351 | the counting loop equals the ascending walk |
| VisualizationController.WalkBackward | src/index.js:353-355 | the counting loop equals the descending walk |
| VisualizationController.Seek | src/index.js:364-375 | the imperative clamp-and-loop seek computes the same controller as the functional one |
| VisualizationController.BackwardAcrossInitIsNotUndo | src/index.js:328-331 | for the log [init [1,2], swap(0,1), init [1,2]], seeking from 2 back to 1 does not give the replay at 1 |
| Playback.Toggle | src/index.js:281-292 | a click flips the playing flag and changes nothing else |
| Playback.Tick | src/index.js:293-299 | a tick when stopped or at the last index stops playback with the state untouched; otherwise it advances the cursor by one and keeps playing |
| Playback.TickReplays | src/index.js:293-299 | a tick keeps the central invariant, and an advancing tick lands exactly on the replay of the next position |
| Playback.StoppedTicksAreIdle | src/index.js:294-297 | ticks on a stopped controller change nothing |
| Playback.PlayRunsToEnd | src/index.js:293-299 | started at p, after k ticks the cursor is min(p+k, len-1), and playback is still on exactly when p+k < len |
| Playback.PlayKeepsConsistent | src/index.js:293-299 | any number of ticks keeps the central invariant |
| Playback.PlayReachesFinalState | src/index.js:293-299 | once playback has run past the end, the state is exactly the replay of the whole log |
| Playback.StoppedOrAtEnd | src/index.js:294-297 | ticks at the last index never change the visual state |
| Playback.AfterLastOperation | src/index.js:304-314 | the poller clears the focus iff the last op was a swap and an animation time has elapsed; cells, active length and cursor are untouched, so consistency survives |
| Example.ExampleLogIsWellFormed | src/index.js:390-430 | the example log has 35 entries, is replayable, and has init only at index 0 |
| Example.ExampleStart | src/index.js:394 | the example's initial cells are (1,0),(3,1),(4,2),(0,3),(2,4),(5,5) |
| Example.ExampleFocusSteps | src/index.js:396-397 | positions 1 and 2 leave the cells alone, and position 2 focuses {2,5} |
| Example.ExampleSwapStep | src/index.js:398 | position 3 exchanges cells 2 and 5 |
| Example.ExampleSeeks | src/index.js:390-398 | seek(2) shows [1,3,4,0,2,5] with focus {2,5}; seek(3) shows [1,3,5,0,2,4] with focus {2,5}; seeking back to 0 restores [1,3,4,0,2,5] with focus {} |

## Left out

- Rendering (src/index.js:69-179) is left out. It is presentation only, using D3/SVG and floating-point tree layout.
- DOM construction, event binding and operation labels (src/index.js:207-279) are left out. They are UI plumbing. The buttons are modelled as `Next`, `Prev` and `Reset`.
- The animate-versus-instant render choice (src/index.js:372-383) is left out. It depends on the wall clock and only picks an animation duration.
- `_lastOperationTime` and the 100 ms poller's scheduling are left out. `AfterLastOperation` takes the elapsed milliseconds as a parameter instead.
- `setInterval` and `clearInterval` are left out. The timer is modelled by the `playing` flag, and each tick is an explicit `Tick` call.
- Operation kinds other than the four known ones are left out. For such an op, `_makeOp` would only record it as the last operation.
- Values are modelled as integers. JavaScript numbers are floating point.
- Focus indexes are modelled as integers. JavaScript stores them as string object keys.
- Visualizer.Swap: requires both indexes to address existing cells. The source does not check them: an index past the end grows the JavaScript array, and a negative one adds a stray property while leaving `undefined` in the other slot. `ValidLog` demands in-range swap indexes, and it demands that every `init` has the width of the first one.
- VisualizationController.JumpToReplays: assumes `init` occurs only at index 0. Without that assumption a backward seek across a later `init` is not an undo, as `BackwardAcrossInitIsNotUndo` shows.
- The replay of the full 35-step example log to its end is not proved. Only positions 0 to 3 are proved.
