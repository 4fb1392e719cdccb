# Life world: a verified model of the Game-of-Life engine

This project models the cellular-automaton engine of the "project3" page: the
class `LifeWorld` (`project3/js/lifeWorld.js`) and the two places where the page
writes into the running world directly, the wipe button's `wipeSlime` and the
paint write of `fillCell` (`project3/js/main.js`).

A `LifeWorld` holds `numRows x numCols` integer cells in two grids, `world`
(the current generation) and `worldBuffer`. A generation step writes every cell
of the buffer from the current grid and then swaps the two references. The
rules are not classic Conway:

- a cell holding 1 survives with 2 to 4 live neighbours;
- any other cell becomes 1 with exactly 3;
- every cell on the outer border reports 0 neighbours, so it is always dead
  after a step.

The model is in five modules:

- `Grids` (`grids.dfy`): grids as values (`seq<seq<int>>`), shape and 0/1
  predicates.
- `LifeRules` (`life_rules.dfy`): the rules stated on values. This covers the
  neighbour count with its border guard, the per-cell rule, the next generation,
  the random seeding rule, the toggle and the paint write, with the lemmas about
  them.
- `World` (`life_world.dfy`): the class `LifeWorld`. Its two grids are
  `array2<int>` fields, and its methods are proved against `LifeRules`.
  `Valid()` says that the two arrays are distinct and both have the world's
  shape. `Cells()` is the current generation as a value.
- `Controls` (`controls.dfy`): `WipeSlime` and `FillCell`, in-place writes into
  `lifeWorld.world`.
- `Scenarios` (`scenarios.dfy`): the blinker on a 5 x 5 world. It has a
  client method that paints, steps twice and reads the engine's grids back.

## Model

| member | source | states |
|---|---|---|
| `World.LifeWorld.constructor` | project3/js/lifeWorld.js:2-7 | Takes `(numCols, numRows)` in the source's order. Both grids are freshly allocated, distinct arrays of shape `numRows x numCols`, and every cell is 0. |
| `World.LifeWorld.BuildArray` | project3/js/lifeWorld.js:13-23 | Returns a fresh `rows x cols` array whose every cell is 0. |
| `World.LifeWorld.Init` | project3/js/lifeWorld.js:9-11 | The current grid becomes `Seed(draws)`. The buffer's contents, both array references and the dimensions are unchanged. |
| `World.LifeWorld.RandomSetup` | project3/js/lifeWorld.js:25-31 | The new current grid is `Seed(draws)`: a cell is 1 exactly when its draw is below 0.1, and 0 otherwise. The buffer's contents, both array references and the dimensions are unchanged. |
| `LifeRules.Seed` | project3/js/lifeWorld.js:28 | A seeded grid has the world's shape and holds only 0/1. A cell is 1 iff its draw is below `Density` (0.1). |
| `World.LifeWorld.GetLivingNeighbors` | project3/js/lifeWorld.js:33-49 | For any integer `row` and `col`, the result equals `LivingNeighbors` of the current generation. Every array read stays in range. |
| `LifeRules.LivingNeighbors` | project3/js/lifeWorld.js:33-36 | The count is at most 8. It is 0 whenever `row <= 0`, `col <= 0`, `row >= numRows-1` or `col >= numCols-1`. |
| `LifeRules.CountFirst` | project3/js/lifeWorld.js:42-47 | Counting the live cells at the first `k` directions yields at most `k`. |
| `LifeRules.DirectionsEnumerateNeighbours` | project3/js/lifeWorld.js:38-41 | The eight direction pairs are exactly the eight adjacent offsets, with no duplicates. |
| `LifeRules.CountIsCardinality` | project3/js/lifeWorld.js:42-47 | The count over the first `k` directions equals the size of the set of those offsets whose cell holds exactly 1. |
| `LifeRules.LivingNeighborsIsAdjacentLiveCount` | project3/js/lifeWorld.js:38-48 | At an interior cell, the count equals the number of adjacent positions whose value is exactly 1. |
| `LifeRules.NeighbourSum` | project3/js/lifeWorld.js:38-48 | At an interior cell, the count equals the written-out sum of the eight adjacent cells' indicators. |
| `LifeRules.NextCell` | project3/js/lifeWorld.js:56-62 | The next value is 0 or 1. A cell holding 1 gives 1 iff `2 <= n <= 4`. Any other cell gives 1 iff `n == 3`. |
| `LifeRules.Next` | project3/js/lifeWorld.js:51-64 | The next generation has the same `numRows x numCols` shape. It is a function of the pre-step grid alone. |
| `LifeRules.NextCellRule` | project3/js/lifeWorld.js:54-62 | At each cell of the next generation, the survival band and the birth rule hold, both as iff. The value is 0/1, and a border cell is 0. |
| `LifeRules.NextIsBinaryWithDeadBorder` | project3/js/lifeWorld.js:33-62 | Every generation produced by a step holds only 0/1, and its whole border is 0. |
| `LifeRules.NextCellVersusConway` | project3/js/lifeWorld.js:56-58 | The rule differs from classic B3/S23 exactly for a live cell with 4 neighbours. |
| `World.LifeWorld.Step` | project3/js/lifeWorld.js:51-68 | After the step, `world` is the old `worldBuffer` and `worldBuffer` is the old `world`; the two stay distinct with unchanged dimensions. The new generation is `Next` of the pre-step grid. The old grid's contents are intact in the buffer, so no cell was read after being overwritten. |
| `LifeRules.FullGridDies` | project3/js/lifeWorld.js:51-64 | A grid of all 1s of any shape is all 0s after one step. The 3 x 3 world is one case: its centre has 8 neighbours, and its border cells have 0. |
| `LifeRules.EmptyGridStaysEmpty` | project3/js/lifeWorld.js:51-64 | An all-0 grid stays all 0. |
| `LifeRules.ThinGridDies` | project3/js/lifeWorld.js:34-36 | A grid with at most two rows or columns has no interior cell, so any grid of that shape is all 0 after one step. |
| `Scenarios.BlinkerTurns` | project3/js/lifeWorld.js:51-68 | On a 5 x 5 world, the live row (2,1),(2,2),(2,3) becomes the live column (1,2),(2,2),(3,2) in one step. |
| `Scenarios.BlinkerReturns` | project3/js/lifeWorld.js:51-68 | The upright blinker becomes horizontal again in the next step, so the pattern has period 2. |
| `Controls.WipeSlime` | project3/js/main.js:135-141 | Every cell of `lifeWorld.world` is toggled in place, with all `numRows x numCols` cells visited. The buffer, both references and the dimensions are unchanged. |
| `LifeRules.Toggle` | project3/js/main.js:138 | A toggled grid keeps its shape and holds only 0/1. A cell becomes 0 iff it held 1. |
| `LifeRules.ToggleComplements` | project3/js/main.js:138 | On a 0/1 grid, the toggle is `1 - cell`: a genuine inversion. |
| `LifeRules.ToggleTwice` | project3/js/main.js:138 | On a 0/1 grid, wiping twice restores the grid. |
| `LifeRules.ToggleTwiceLosesOtherValues` | project3/js/main.js:138 | Off 0/1 grids, which the program never builds, wiping twice is not the identity: a cell holding 2 ends as 0. |
| `LifeRules.WipeEmptyThenStepIsEmpty` | project3/js/main.js:134-138 | Wiping an empty world makes every cell 1, and the next step kills them all. This is one way the wipe ends up killing most cells, as the comment beside it reports. |
| `Controls.FillCell` | project3/js/main.js:42-44 | Sets `world[row][col]` to 1 for in-range `row`/`col` and changes no other cell. The buffer, both references and the dimensions are unchanged. |
| `LifeRules.Paint` | project3/js/main.js:44 | The painted grid keeps its shape, holds 1 at `(row, col)`, and equals the old grid everywhere else. |
| `LifeRules.PaintIdempotent` | project3/js/main.js:44 | Painting the same cell twice is the same as painting it once. |
| `LifeRules.PaintKeepsBinary` | project3/js/main.js:44 | Painting a 0/1 grid gives a 0/1 grid. |
| `Scenarios.PaintBlinker` | project3/js/main.js:44 | Painting (2,1), (2,2) and (2,3) of an empty 5 x 5 world gives the horizontal blinker. |

## Left out

- `World.LifeWorld.RandomSetup`: `Math.random()` is replaced by an oracle. `draws[r][c]` is the value it returns when cell (r, c) is visited. The model states the threshold rule, not a probability.
- `World.LifeWorld.constructor`: the dimensions are `nat`. With negative dimensions the source would build empty grids and keep the negative counts; that case is not modelled. `numRows` and `numCols` are constants, because no code reassigns them.
- `Controls.FillCell`: the coordinates must be in range. The source does not check them. A row outside the grid makes the write throw, and a column outside it grows that row's array; neither case is modelled.
- The rows of the source's nested arrays are one `array2<int>` here. `buildArray` creates every row fresh, so no row is ever shared, but the model does not represent rows as separate objects.
- Cells are integers, as in the source. Only exactly 1 counts as alive, so any other value behaves like 0, which is why `Toggle` turns it into 1. The program itself only ever writes 0 or 1 into a cell: `buildArray` writes 0, `randomSetup`, `step` and `wipeSlime` write 0 or 1, and `fillCell` writes 1. So every world it reaches holds only 0/1 (`Seed`, `Toggle` and `NextIsBinaryWithDeadBorder` give 0/1 grids, and `PaintKeepsBinary` shows painting keeps them so), and `ToggleTwice` applies to all of them. `ToggleTwiceLosesOtherValues` is about grids the program never builds.
- The code has none of these: bounds-checked `setCell`/`cellState` with an out-of-bounds error, a density parameter, and a dimension check at construction. The model follows the code.
- The startup sequence in `project3/js/main.js:82-86` (construct a 40 x 70 (`numRows x numCols`) world, `init()`, one `step()`, log) is not modelled on its own. Each call in it is modelled.
- Everything else in `project3/js/main.js` is left out because it is rendering or I/O: cell span creation, mouse handlers, the frame-throttled `requestAnimationFrame` loop, `updateGrid` colouring, button wiring, and the pixel-to-cell arithmetic of `fillCell`.
- The audio-visualizer and AV-ultimate sources are left out: Web Audio node graphs, canvas drawing, floating-point sprite motion and JSON loading. None of them is part of the Life engine.
