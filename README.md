# Line swimmer: a verified model of the tap-driven animation sequencer

The line swimmer draws an animated "swimmer" made of two lines. The
animation steps through a fixed palette of five colours, one node per colour.
Each tap (mouse-down) animates the active node from one checkpoint to the
other. When that run completes, the swimmer moves to the neighbouring node.
At either end of the chain of nodes the direction of travel reverses.

This project models the logic behind that animation and proves its
properties in Dafny:

- `ScaleUtil` (`scale_util.dfy`): the progress arithmetic `maxScale` and
  `divideScale`, as pure `real` functions.
- `AnimState` (`state.dfy`): the per-node state machine. `State` is a class
  whose `Update` (one tick) and `StartUpdating` methods change `scale`, `dir`
  and `prevScale` in place. Each method is proved against a pure step function
  on the `Snapshot` value.
- `Ticker` (`animator.dfy`): the `animated` flag of the animator and its
  idempotent `Start`/`Stop`.
- `NodeChain` (`chain.dfy`): the chain that `new LSNode(0)` builds. Nodes are
  a sequence of `State` objects. The `prev`/`next` fields are two arrays of
  optional node indices, written by the recursive construction. `GetNext` is
  proved equal to plain index arithmetic (`Traverse`).
- `Swimmer` (`swimmer.dfy`): the `LineSwimmer` class holds the active node
  index `curr` and the travel direction `dir`.
- `Render` (`renderer.dfy`): the `Renderer` class with its tap handler and the
  animator's tick. It also holds the whole-gesture lemmas.

Callbacks become returned flags. `Stepped<T>` pairs the new value with
whether the callback fired. Each timer tick is an explicit call of
`Renderer.Tick`.

Main results:
- `prevScale` only ever takes the values 0 and 1.
- In exact real arithmetic, a run started from rest completes on exactly
  its 351st tick and lands on the other checkpoint. The program itself,
  working in doubles, completes on tick 350 (see "Left out").
- The active index never leaves the chain.
- The direction stays 1 or -1.
- The animator runs exactly while the active node is moving.
- A tap during a run changes nothing.
- Five gestures from the start leave node 4 active with the direction
  flipped.
- Ten gestures restore the initial state.

## Model

| member | source | states |
|---|---|---|
| `ScaleUtil.MaxScale` | index.ts:21-23 | the result is the larger of 0 and `scale - i/n`: never negative, at least the shifted scale, and equal to one of the two |
| `ScaleUtil.DivideScale` | index.ts:25-27 | for `n > 0` the sub-progress always lies in [0, 1], whatever `scale` is |
| `ScaleUtil.DivideScaleBefore` | index.ts:21-27 | the sub-progress is 0 while `scale <= i/n`, because `maxScale` clamps to 0 |
| `ScaleUtil.DivideScaleAfter` | index.ts:25-27 | the sub-progress is 1 once `scale >= (i+1)/n` |
| `ScaleUtil.DivideScaleWithin` | index.ts:21-27 | inside its sub-range the sub-progress is the linear interpolation `scale*n - i` |
| `ScaleUtil.DivideScaleMonotone` | index.ts:21-27 | the sub-progress never decreases as `scale` grows |
| `ScaleUtil.DivideScaleStaggered` | index.ts:21-27 | sub-range i+1 is active only once sub-range i is complete |
| `AnimState.UpdateStep` | index.ts:112-120 | a tick that completes leaves the node idle with `scale == prevScale`; a tick that does not complete keeps `dir` and `prevScale` |
| `AnimState.StartStep` | index.ts:122-127 | the start callback fires iff the node is idle; otherwise nothing changes; a start from checkpoint 0 heads forward (+1), from 1 backward (-1), keeping scale and checkpoint |
| `AnimState.ScGapValue` | index.ts:3-5 | the tick step `0.02 / (parts + kParts)` is exactly 1/350 |
| `AnimState.InitialSettled` | index.ts:106-110 | a new State is at rest on checkpoint 0 |
| `AnimState.StepsKeepConsistent` | index.ts:112-127 | ticks and starts keep a node either at rest on a checkpoint or moving within [0, 1] away from one, so `prevScale` stays in {0, 1} |
| `AnimState.SettledTickInert` | index.ts:112-120 | a tick on a node at rest changes nothing and fires nothing |
| `AnimState.CompletionToggles` | index.ts:114-118 | a moving node that completes comes to rest on the other checkpoint (`prevScale` becomes `1 - prevScale`) |
| `AnimState.ElapsedInRun` | index.ts:112-120 | after k < 351 ticks of a run the scale is exactly k steps from the checkpoint and no tick so far completed |
| `AnimState.RunCompletes` | index.ts:112-127 | in exact arithmetic, a run started at rest completes on exactly its 351st tick, ending with `scale == prevScale == 1 - old prevScale` and `dir == 0` |
| `AnimState.State.constructor` | index.ts:106-110 | a new state holds scale 0, dir 0, prevScale 0 |
| `AnimState.State.Update` | index.ts:112-120 | the new fields and the completion flag are those of `UpdateStep` on the old fields |
| `AnimState.State.StartUpdating` | index.ts:122-127 | the new fields and the start flag are those of `StartStep` on the old fields |
| `Ticker.Animator.constructor` | index.ts:132 | a new animator is not running |
| `Ticker.Animator.Start` | index.ts:135-140 | afterwards the animator runs; a timer is set up only if it was not already running, so Start is idempotent |
| `Ticker.Animator.Stop` | index.ts:142-147 | afterwards the animator is stopped; a timer is cleared only if it was running, so Stop is idempotent |
| `NodeChain.Traverse` | index.ts:179-189 | `dir == 1` goes to i+1 and any other `dir` to i-1; the boundary signal fires exactly when that neighbour is missing, and then the step stays on i; the result never leaves [0, n) |
| `NodeChain.Chain.constructor` | index.ts:156-165 | `new LSNode(0)` gives exactly `colors.length` distinct nodes, each with a fresh state, next of i is i+1 and prev of i+1 is i, node 0 has no prev and the last node no next |
| `NodeChain.Chain.Build` | index.ts:156-165 | building from node i creates fresh distinct states for nodes i..N-1, links each to its successor in both directions, and leaves earlier links alone |
| `NodeChain.Chain.GetNext` | index.ts:179-189 | following `next` when `dir == 1` and `prev` otherwise, with reflection at a missing neighbour, is exactly the index arithmetic `Traverse` |
| `Swimmer.SwimStart` | index.ts:211-213 | a start fires iff the active node is idle; it touches only the active node's state and never moves `curr` or `dir` |
| `Swimmer.SwimUpdate` | index.ts:202-209 | a tick touches only the active node's state; on completion `curr` moves one step in `dir`, or stays and `dir` flips, and `dir` flips exactly when `curr + dir` would leave the chain; without completion `curr` and `dir` stay |
| `Swimmer.InitialSwimmerOk` | index.ts:195-196 | the initial swimmer satisfies the invariant |
| `Swimmer.SwimmerOkPreserved` | index.ts:193-214 | starts and ticks keep `curr` in [0, N), `dir` in {1, -1}, every node consistent and every node other than the active one at rest |
| `Swimmer.CompletionOrSettled` | index.ts:112-120 | a consistent node whose tick completes is at rest afterwards |
| `Swimmer.LineSwimmer.constructor` | index.ts:195-196 | a new swimmer holds five fresh nodes, node 0 active, direction 1 |
| `Swimmer.LineSwimmer.StartUpdating` | index.ts:211-213 | the new view and the start flag are those of `SwimStart`, and the invariant is kept |
| `Swimmer.LineSwimmer.Update` | index.ts:202-209 | the new view and the completion flag are those of `SwimUpdate`, and the invariant is kept |
| `Render.TapStep` | index.ts:225-235 | a tap begins a gesture iff the active node is idle, and then the animator runs; otherwise nothing changes |
| `Render.TickStep` | index.ts:227-233 | a tick that completes the run stops the animator; any other tick leaves the animator flag alone |
| `Render.Ticks` | index.ts:138 | repeated ticks keep the swimmer invariant |
| `Render.InitialViewQuiet` | index.ts:218-219 | the initial renderer is at rest with the animator stopped |
| `Render.RendererOkPreserved` | index.ts:225-235 | taps and ticks keep the animator running exactly while the active node is moving |
| `Render.TapWhileAnimated` | index.ts:225-235 | a tap while the animator runs changes nothing; a tap at rest always begins a gesture and starts the animator |
| `Render.TickWhileQuiet` | index.ts:227-233 | a tick at rest changes nothing and completes nothing |
| `Render.GestureResult` | index.ts:202-209 | one gesture leaves the renderer at rest again, with the node it ran toggled to the other checkpoint |
| `Render.TicksInRun` | index.ts:225-235 | during the first 350 ticks after a tap only the active node's scale moves, and no tick completes |
| `Render.LastTick` | index.ts:225-235 | the 351st tick after a tap completes the gesture with the outcome `GestureResult` |
| `Render.GestureCompletes` | index.ts:225-235 | a tap at rest begins a gesture that completes on the 351st tick and on no earlier one |
| `Render.Gestures` | index.ts:216-235 | any number of gestures leaves the renderer at rest |
| `Render.FiveGestures` | index.ts:195-209 | from the initial state, five gestures leave every node on checkpoint 1, `curr = 4` and `dir = -1` |
| `Render.TenGestures` | index.ts:195-209 | ten gestures from the initial state return exactly to the initial state |
| `Render.Renderer.constructor` | index.ts:216-219 | a new renderer holds the initial view |
| `Render.Renderer.HandleTap` | index.ts:225-235 | the new view and the start flag are those of `TapStep`, and the invariant is kept |
| `Render.Renderer.Tick` | index.ts:227-233 | the new view and the completion flag are those of `TickStep`, and the invariant is kept |

## Left out

- `ScaleUtil.sinify` (index.ts:29-31): it uses the transcendental `Math.sin` and only shapes the drawing.
- Drawing: `DrawingUtil` (index.ts:34-69), `Stage` (index.ts:71-104), `LSNode.draw`, `LineSwimmer.draw`, `Renderer.render` and the render callback `cb()` in `handleTap`. They are calls into the canvas and the DOM.
- Timers: `setInterval`/`clearInterval` and `delay` (index.ts:8, 138, 145). The animator keeps only its `animated` flag. Each timer firing is an explicit call of `Render.Renderer.Tick`.
- Window size, sizing factors, colour strings and background colour (index.ts:1-2, 6-7, 9-16). Only the number of colours, 5, enters the logic.
- IEEE floating-point rounding of `scale`. Every quantity is an exact `real`. In doubles, 350 additions of `0.02/7` end just past one unit away from the checkpoint, in both directions, so the program as written completes a run on its 350th tick. `TicksPerRun = 351` holds only in the real-valued model. The final snap (index.ts:115) makes the settled values exact either way.
- AnimState.RunCompletes: the tick count 351 is that of exact arithmetic; the double-precision program completes on tick 350. The same holds for `AnimState.ElapsedInRun`, `Render.TicksInRun`, `Render.LastTick` and `Render.GestureCompletes`.
- `LSNode.update` and `LSNode.startUpdating` (index.ts:171-177) only forward to the node's `State`. The model calls the `State` methods directly.
- Object identity of `LSNode`: nodes are indices into the chain's sequence, so the model does not capture references to nodes held elsewhere. After construction, the private index `i` of a node is read only by `draw` (index.ts:168). During construction it bounds the chain and numbers the next node (index.ts:161-162), which the parameter `i` of `NodeChain.Chain.Build` models.
- ScaleUtil.MaxScale: requires `n > 0` and takes `i` and `n` as natural numbers. The source divides by any number, but it is only ever called with `n` equal to 3 or 4, and `i` is 0, 1 or 2 (index.ts:44-46) or the loop index `j` (index.ts:50).
- ScaleUtil.DivideScale: same restriction on `n` and `i` as `MaxScale`.
