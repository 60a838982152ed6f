# Conway's Life board: a Dafny model

This project models the engine and the drawing rules of a browser Game of
Life (`mvp/src/Game.js`): a board of `widthInCells` by `heightInCells`
cells stored as one flat row-major array of 0s and 1s, the B3/S23
generation step with a hard (non-wrapping) board edge, the brush and its
four-way mirrored variant, and the session state (`cells`, `running`,
`drawing`, `mirroring`, the board width) that mouse events, animation
frames, buttons and window resizes update.

- `grid.dfy`, module `Grid`: `getIndexForGridCoords` (`GridIndex`), the
  unchecked index of the drawing handler (`FlatIndex`), the index/coordinate
  round trip.
- `life.dfy`, module `Life`: the neighbour count, the rule, and
  `calculateNextState` as a method with the source's loops, proved equal to
  the functional specification `Step`/`NextGen`/`LiveNeighbours`.
- `brush.dfy`, module `Drawing`: the brush stroke as a method over a copied
  array with the source's four quadrant branches (`Paint`,
  `PaintReflections`), proved equal to `Brush`, stated with the single
  reflection `2 * floor(n / 2) - x` (`Mirror`).
- `session.dfy`, module `Game`: the `Session` class with one method per
  event or button.
- `aswritten.dfy`, module `AsWritten`: the brush and the step with
  JavaScript's `null` property key, for the finding below.

Points where the model follows the code rather than a simpler reading:

- The reflection of column `c` is `2 * floor(w / 2) - c`, so on an even
  width column `c` goes to `w - c` (column 0 goes off the board and column 1
  to `w - 1`), not to `w - 1 - c` (`Drawing.MirrorInBounds`).
- `clear` restores `initialCells`, built once from the initial 80 by 80
  parameters, even after a resize has changed `widthInCells`; the session
  invariant therefore allows either length (`Game.Session.Valid`,
  `Game.ClearedBoardMismatch`).
- There is no frame-delay throttle: the animation frame steps whenever
  `running` is set (the timestamp written with `setTime` is never read).
- With a zero width (a page narrower than one cell) every lookup is off the
  board, so every count is 0; `RowOf`/`ColOf` return 0 there in place of
  JavaScript's NaN and Infinity.

## Model

| member | source | states |
|---|---|---|
| `Grid.GridIndex` | mvp/src/Game.js:50-60 | no index exactly when the row is outside `[0, h)` or the column outside `[0, w)`; otherwise `row * w + col`, below `w * h` |
| `Grid.FlatIndex` | mvp/src/Game.js:247 | the handler's unchecked `widthInCells * row + column` is, for an on-board cell, below `w * h` and equal to what GridIndex gives |
| `Grid.IndexRoundTrip` | mvp/src/Game.js:82-83 | splitting a board index into `floor(i / w)` and `i % w` and indexing again gives the index back |
| `Grid.IndexInjective` | mvp/src/Game.js:50-60 | an index determines its coordinate: no two on-board cells share an index, and there is no wrapping |
| `Grid.Zeros` | mvp/src/Game.js:33 | `Array(n).fill(0)` has length `n` and only dead cells |
| `Life.LiveNeighbours` | mvp/src/Game.js:80-107 | the count over the eight Moore neighbours, off-board ones dead, lies in `[0, 8]` |
| `Life.CountLiveNeighbours` | mvp/src/Game.js:80-107 | the row-above loop, the guarded left and right lookups and the row-below loop add up to exactly the Moore count |
| `Life.NextCell` | mvp/src/Game.js:109-115 | a live cell lives on with 2 or 3 live neighbours, a dead cell is born with exactly 3, everything else is 0; the result is 0 or 1 |
| `Life.NextGen` | mvp/src/Game.js:73-121 | the next generation has the input's length and holds only 0s and 1s |
| `Life.Step` | mvp/src/Game.js:117-128 | the result is "no change" exactly when every new cell equals its old value; a change carries a 0/1 board of the same length that differs from the old one |
| `Life.CalculateNextState` | mvp/src/Game.js:73-129 | the loop over all cells, counting in the unchanged input and writing into a fresh array, returns exactly `Step` of the input |
| `Life.AllDeadIsUnchanged` | mvp/src/Game.js:117-128 | a board with no live cell, of any size, gives "no change" |
| `Life.NeighboursAreLocal` | mvp/src/Game.js:85-107 | a cell's count depends only on its adjacent on-board cells: nothing past an edge is read and nothing wraps to the opposite edge |
| `Life.CornerCellNeighbours` | mvp/src/Game.js:85-107 | with only the corner (0, 0) alive, exactly the three on-board cells touching it count one neighbour and all others, the far edges included, count none |
| `Drawing.MirrorInBounds` | mvp/src/Game.js:258-261 | the reflection is `n - 1 - x` on an odd axis and `n - x` on an even one, and it stays on the axis unless the axis is even and `x` is 0 |
| `Drawing.MirrorInvolutive` | mvp/src/Game.js:258-322 | reflecting a coordinate twice gives it back |
| `Drawing.Brush` | mvp/src/Game.js:247-322 | a stroke leaves the board's length unchanged and the target cell alive, and a stroke on a live target returns the board unchanged |
| `Drawing.Paint` | mvp/src/Game.js:247-324 | the drawing handler returns the board unchanged on a live target; otherwise exactly the target and, when mirroring, its on-board reflections become 1 and no other cell changes |
| `Drawing.PaintReflections` | mvp/src/Game.js:257-322 | each of the four quadrant branches writes the same three cells, `(row, 2*floor(w/2) - col)`, `(2*floor(h/2) - row, col)` and both reflected, through GridIndex, so an off-board one writes nothing |
| `Drawing.MirrorWritesTargets` | mvp/src/Game.js:265-320 | setting the target and the three GridIndex reflections alive gives exactly the mirrored stroke's board |
| `Drawing.BrushIdempotent` | mvp/src/Game.js:248-250 | repeating a stroke changes nothing |
| `Drawing.BrushMonotone` | mvp/src/Game.js:252-322 | a stroke never erases: every cell keeps its value or becomes 1, and a 0/1 board stays 0/1 |
| `Drawing.MirroredStrokeOnOddGrid` | mvp/src/Game.js:257-322 | on a board of odd width and height a mirrored stroke on a dead cell makes all four symmetric cells `(r, c)`, `(r, w-1-c)`, `(h-1-r, c)`, `(h-1-r, w-1-c)` alive |
| `Game.WidthForPaper` | mvp/src/Game.js:171 | the new width is the largest number of whole cells that fit across the paper |
| `Game.ClearedBoardMismatch` | mvp/src/Game.js:33 | after a resize to any other width, the board that `clear` restores is not sized for the current width |
| `Game.Session.constructor` | mvp/src/Game.js:178-182 | a session starts with the initial empty 80 by 80 board and every flag off |
| `Game.Session.MouseDown` | mvp/src/Game.js:210-231 | mouse-down starts drawing, stops running and applies one brush stroke at the cell, also on the 6400-cell board `clear` leaves after a widening resize, wherever the stroke writes inside the array |
| `Game.Session.MouseMove` | mvp/src/Game.js:329-339 | a mouse move paints only while drawing and otherwise changes nothing |
| `Game.Session.MouseUp` | mvp/src/Game.js:379-380 | mouse-up or mouse-out ends drawing |
| `Game.Session.Tick` | mvp/src/Game.js:359-369 | a frame with `running` off changes nothing; otherwise it adopts the new generation, or stops running and keeps the board when the step reports no change |
| `Game.Session.StepOnce` | mvp/src/Game.js:389-395 | the step button adopts a changed generation, keeps the board on "no change", and never touches `running` |
| `Game.Session.Clear` | mvp/src/Game.js:383 | clear restores the initial 80 by 80 board |
| `Game.Session.ToggleMirroring` | mvp/src/Game.js:384-385 | the mirror button flips `mirroring` |
| `Game.Session.ToggleRunning` | mvp/src/Game.js:400 | the continuous/pause button flips `running` |
| `Game.Session.Randomize` | mvp/src/Game.js:399 | the randomize button replaces the board with host-drawn bits of the same length |
| `Game.Session.Resize` | mvp/src/Game.js:171-173 | resize sets the width to `floor(paperWidth / cellWidth)` and replaces the board with an all-dead one of `width * height` cells |
| `AsWritten.PutAsWritten` | mvp/src/Game.js:265-276 | `nextCells[index] = 1` writes the element for an index and marks the "null" key for a missing one |
| `AsWritten.BrushAsWritten` | mvp/src/Game.js:247-324 | the stroke as written has the same elements as `Brush`, and on a dead target its "null" key is set exactly when mirroring and a reflection is off the board |
| `AsWritten.LiveNeighboursAsWritten` | mvp/src/Game.js:85-107 | the count as written lies in `[0, 8]` and equals the corrected count when no "null" key is set |
| `AsWritten.NextGenAsWritten` | mvp/src/Game.js:73-121 | the generation as written equals the corrected one when no "null" key is set |
| `AsWritten.PhantomEdgeCounterexample` | mvp/src/Game.js:86-91 | after a mirrored stroke at (0, 0) of an empty 4 by 4 board, the step as written brings cell (0, 2) to life though it has no live neighbour |

## Findings

| source | as written | input that shows it | evidently intended | confidence | as-written member | corrected member |
|---|---|---|---|---|---|---|
| mvp/src/Game.js:86-107 | the row loops test `cells[index] === 1` with no null check, and the mirrored brush stores `nextCells[null] = 1` for an off-board reflection, so on the next step every off-board neighbour above or below a cell counts as alive | empty 4 by 4 board, mirror on, stroke at (0, 0), then step: cell (0, 2) is born with three phantom neighbours | off-board neighbours are always dead, as the guarded left and right lookups already assume | high — not executed | `AsWritten.PhantomEdgeCounterexample` | `Life.NeighboursAreLocal` |

The rest of the model (the session included) uses the corrected engine.

## Left out

- Canvas drawing (`drawForeground`, `drawBackground`): pixel output through a browser API.
- DOM measurement in `resizeCanvas` (computed padding, `clientWidth`, canvas and wrapper sizes): browser I/O in floating point; `Session.Resize` takes the paper width as a whole number of pixels.
- Conversion of a mouse event's client coordinates to a cell (`getBoundingClientRect`, `Math.floor(canvasY / cellHeight)`): floating-point browser input; the mouse methods take the cell's row and column.
- `Drawing.Brush`, `Drawing.Paint`, `Game.Session.MouseDown`, `Game.Session.MouseMove`: require an on-board cell (`Drawing.WritesWithin`) whose index, and, for a mirrored stroke on a dead cell, whose on-board reflections' indices, lie below the array's length. A stroke that writes at or past the end grows a sparse JavaScript array (possible after `clear` once a resize has widened the board, for cells beyond index 6399); such arrays are not modelled. Strokes inside the shorter cleared board are modelled as ordinary strokes.
- Listener attach/detach and the React hooks (`useEffect`, `useRef`, `useState`): modelled as the `drawing` flag gating `MouseMove`.
- `Game.Session.Tick`, `Game.Session.StepOnce`: step with the corrected engine (`Life.CalculateNextState`). After a mirrored stroke with an off-board reflection (on the 80-row board, any mirrored stroke in row 0, whose reflection is row 80) the source's next step counts the off-board cells above and below as alive (see Findings); the session does not carry that "null" key.
- `randomizeCells`: `Math.random` is not modelled; `Session.Randomize` takes the random 0/1 draws as a parameter.
- `useAnimationFrame.js`: the frame scheduler; a frame is a call of `Session.Tick`.
- `Date.now()` / `setTime`: a timestamp that is written and never read.
- `App.js`, `index.js`: page layout, theming and static text.
- The resize on mount: the component runs `resizeHandler` once when it appears (mvp/src/Game.js:207), so the first board a user sees is already `floor(paperWidth / 10)` wide; `Game.Session.constructor` gives the `useState` values before that, and a following `Game.Session.Resize` call is that first resize.
- A 5 by 5 blinker scenario is not proved; the per-cell rule and the step are proved for every board instead.
