# Reverse Game of Life — a Dafny model

This project models `cmd/game-of-life/main.go`, a Conway's Game of Life
toy that can also run backwards. Given a target grid it searches, by
backtracking, for a predecessor grid: one whose next generation under the
B3/S23 rule is the target and that is not the target itself. The model
keeps the Go code's imperative shape. Grids are `array<bool>` in row-major
order and are updated in place. The search's undo helpers are methods
that flip entries back. The world is a class whose fields a tick
reassigns.

The project has five modules:

- `Life` (`life.dfy`) is the specification. It defines:
  - the clipped Moore neighbour count `Count`;
  - the rule `Rule` and the whole-grid step `Step`;
  - `IsPredecessor` (*steps to the target and is not a fixed point*);
  - `HasChain` (*has `d` generations of predecessors*);
  - the settled-region predicate that `fixedok` checks.

  Lemmas prove what the solver relies on:
  - counts lie in 0..8;
  - an all-dead grid is a fixed point, so it is nobody's predecessor;
  - over-population cannot be undone by adding live cells;
  - the conditions of `fixedok` and `ok` are the rule restated.
- `GridChecks` (`checks.dfy`) holds the loops `neighbourCount`, `allok`,
  `fixedok` and `ok`, each proved equal to its specification.
- `Neighbourhood` (`masks.dfy`) holds the in-place helpers:
  - `addNeighbor` and `undoAddNeighbor`;
  - `fixNeighborhoodUpTo`, `setFixedNeighborhood` and
    `undoFixedNeighborhood`;
  - `undoChange`.

  A neighbourhood is visited column-outer, row-inner, and an in-bounds
  counter skips the first `fixedUpTo` neighbours. Each helper is modelled
  as that exact scan (`Rest`, `AddScan`, `FixScan`), proved equal to a
  list function over the scan-ordered neighbour list (`FirstFree`,
  `FixList`, `NewlyFixed`). The meaning of those list functions is proved
  as lemmas, including exact undo.
- `Solver` (`solver.dfy`) holds `solve2`, `solve2inner` and the older row
  scanner `solve`, with their soundness proved:
  - a `true` result leaves a genuine predecessor in `prev`;
  - when the target has a live cell, that predecessor itself has
    `depth - 1` generations of ancestry.
- `WorldState` (`world.dfy`) holds the `World` class: `NewWorld`,
  `gameOfLife`, `reverseGameOfLife` and `Update`.

Behaviours of the original that are kept as written:

- **Cursor advance.** After an added neighbour fails, the next try uses
  cursor `z + 1`, whatever slot was actually filled.
- **Early exit.** When no neighbour can be added in the alive branch, the
  call returns `false` without trying the dead branch.
- **`prev` not restored.** `changed` is never reset after the first
  `undoChange`, so a failing exit can leave `prev[l]` flipped. No contract
  claims that `prev` is restored on failure.
- **Deeper edits kept.** When depth is above 1, a frame whose inner call
  succeeded but whose deeper check failed undoes only its own edit.
- **Ancestor discarded.** The grid found one generation further back is
  thrown away.
- **No deeper check for an all-dead target.** An all-dead target has no
  live cells, so no deeper search is made for it. Hence the ancestry
  clause of `Solve2` is conditional on the target having a live cell.
- **Transposed check in `ok`.** It counts at `x = r, y = c` but reads the
  target at row `r`, column `c`.
- **`fixedok` mask test.** It accepts a cell through the mask only when
  all 8 of its neighbours are fixed. `Life.FullCountIsInterior` shows that
  only interior cells can pass this.

The model refactors the original in three places. The three identical
neighbour-adding loops of `solve2inner` are the method
`Solver.TryNeighbours`. The three identical "fix the neighbourhood and go
on" blocks are `Solver.TryFixedNeighbourhood`. The six identical "solve
one generation further back on a fresh grid" blocks are
`Solver.SolveDeeper`. The width and height that the Go methods read from
their `World` receiver are parameters.

Termination is proved with the measure below, where `D = max(depth, 0)`:

- the first three components are `(D, phase, |live| - i)`;
- then `8 - fixedUpTo`, floored at 0;
- then a tie-break between `solve2inner` and its loop helper.

## Model

| member | source | states |
|---|---|---|
| Life.CountBounds | cmd/game-of-life/main.go:536-554 | a neighbour count is between 0 and 8 |
| Life.CountAllDead | cmd/game-of-life/main.go:536-554 | every count in an all-dead grid is 0 |
| Life.CountMonotone | cmd/game-of-life/main.go:536-554 | making more cells live never lowers a count |
| Life.FullCountIsInterior | cmd/game-of-life/main.go:428 | a cell with 8 counted neighbours is an interior cell, not on any edge |
| Life.LifeRules | cmd/game-of-life/main.go:67-74 | the rule is the four stated rules: under-population, survival, over-population, reproduction |
| Life.StepAt | cmd/game-of-life/main.go:75-98 | cell (x, y) of the next generation is the rule applied to the old cell and its count in the old grid |
| Life.StepAllDead | cmd/game-of-life/main.go:75-98 | the all-dead grid steps to itself |
| Life.OverpopulationIsFinal | cmd/game-of-life/main.go:177-180 | once a cell has 4 or more live neighbours, any grid with more live cells keeps it dead in the next generation, whatever its own value |
| Life.PredecessorIsNotEmpty | cmd/game-of-life/main.go:451-479 | every grid accepted by the terminal check has a live cell |
| Life.AllDeadIsNoPredecessor | cmd/game-of-life/main.go:148-149 | the all-dead grid is never a predecessor, so an empty live list with a zeroed `prev` is rejected |
| Life.ChainExtends | cmd/game-of-life/main.go:206-210 | a predecessor with `d - 1` generations of ancestry gives its successor `d` generations |
| Life.CompatibleIsRule | cmd/game-of-life/main.go:432-444 | the alive and dead acceptance tests of `fixedok` hold exactly when the rule gives the wanted value |
| Life.PredecessorPassesFixedRegion | cmd/game-of-life/main.go:421-449 | a complete predecessor satisfies the fixed-region predicate for every mask and index |
| Life.PlausibleIsSomeRule | cmd/game-of-life/main.go:485-491 | `ok` accepts exactly when some value of the cell makes the rule give the wanted value |
| GridChecks.NeighbourCount | cmd/game-of-life/main.go:536-554 | the loop returns the number of live in-bounds cells among the eight around (x, y), a value in 0..8 |
| GridChecks.NextState | cmd/game-of-life/main.go:459-469 | the switch with no default case computes the rule for the cell |
| GridChecks.AllOk | cmd/game-of-life/main.go:451-479 | true exactly when the step of `prev` equals the target and `prev` is not a fixed point |
| GridChecks.FixedOk | cmd/game-of-life/main.go:421-449 | true exactly when every cell before `currentIndex - width - 1`, and every fixed cell with 8 fixed neighbours, steps to its wanted value |
| GridChecks.Ok | cmd/game-of-life/main.go:481-494 | true exactly when (r, c) is off the grid or the count at `x = r, y = c` is plausible for the target cell at row r, column c |
| Neighbourhood.RestExact | cmd/game-of-life/main.go:351-355 | the scan from any point visits exactly the in-bounds neighbours not yet passed |
| Neighbourhood.Neighbours | cmd/game-of-life/main.go:323-327 | the scan-ordered neighbour list holds at most 8 indices, exactly the in-bounds neighbours of (x, y) |
| Neighbourhood.FirstFreeMeaning | cmd/game-of-life/main.go:356-369 | the pick is -1 exactly when every neighbour past the first `skip` is live or fixed; otherwise it is the first one that is neither |
| Neighbourhood.AddScanIsFirstFree | cmd/game-of-life/main.go:351-372 | the column-outer, row-inner scan with the in-bounds counter picks the same cell as the list function |
| Neighbourhood.AddNeighbor | cmd/game-of-life/main.go:349-373 | returns the first free neighbour after the first `fixedUpTo`, or -1; sets only that cell and never writes `fixed` |
| Neighbourhood.AddedIsFreeNeighbour | cmd/game-of-life/main.go:349-373 | an added cell is a dead, unfixed, in-bounds neighbour; none is added exactly when all later neighbours are live or fixed |
| Neighbourhood.UndoAddNeighbor | cmd/game-of-life/main.go:375-377 | clears exactly cell `l` |
| Neighbourhood.AddThenUndoRestores | cmd/game-of-life/main.go:349-377 | adding a neighbour and then undoing it gives back the original grid |
| Neighbourhood.UndoChange | cmd/game-of-life/main.go:313-318 | does nothing for -1 and otherwise flips exactly cell `l` |
| Neighbourhood.FixListMeaning | cmd/game-of-life/main.go:320-337 | after fixing, a cell is fixed exactly when it was fixed before or is among the first `i` neighbours |
| Neighbourhood.NewlyFixedMeaning | cmd/game-of-life/main.go:329-332 | the change set is exactly the cells among the first `i` neighbours that were not fixed before |
| Neighbourhood.FixThenUndoRestores | cmd/game-of-life/main.go:320-347 | clearing the reported change set restores the mask exactly |
| Neighbourhood.FixScanIsFixList | cmd/game-of-life/main.go:323-335 | the scan with the in-bounds counter produces the mask and change set of the list functions |
| Neighbourhood.FixNeighborhoodUpTo | cmd/game-of-life/main.go:320-337 | fixes the first `i` in-bounds neighbours in scan order and returns those that were not fixed before |
| Neighbourhood.SetFixedNeighborhood | cmd/game-of-life/main.go:339-341 | the same with all eight neighbours |
| Neighbourhood.FixAllNeighbours | cmd/game-of-life/main.go:339-341 | sets every in-bounds neighbour, leaves the centre and all other cells alone, and reports exactly the neighbours not fixed before |
| Neighbourhood.AlreadyFixedIsNotReported | cmd/game-of-life/main_test.go:17-22 | on a 3 x 3 grid with cell 2 fixed, neither cell 2 nor the centre is in the change set |
| Neighbourhood.UndoFixedNeighborhood | cmd/game-of-life/main.go:343-347 | clears exactly the cells of the change set |
| Solver.LiveIndicesExact | cmd/game-of-life/main.go:133-142 | the live list holds exactly the live cells, strictly increasing (row-major) |
| Solver.LiveCells | cmd/game-of-life/main.go:133-142 | the nested loop builds that list |
| Solver.Solve2 | cmd/game-of-life/main.go:114-145 | depth <= 0 returns true with `prev` untouched; otherwise true leaves a predecessor of `next` in `prev`; when `next` has a live cell, `prev` then has a `depth - 1` generation chain and `next` a `depth` generation one; an all-dead target with an all-dead `prev` is rejected |
| Solver.Solve2Inner | cmd/game-of-life/main.go:147-311 | true leaves a predecessor in `prev`, with ancestry while live cells remain; the `pop >= 4` gate and the `fixedok` gate return false with `prev` and `fixed` untouched; at depth 1 every false return leaves `fixed` as it was |
| Solver.TryNeighbours | cmd/game-of-life/main.go:197-214 | a reported success leaves a predecessor with `depth - 1` generations of ancestry; at depth 1 `fixed` is unchanged otherwise |
| Solver.TryFixedNeighbourhood | cmd/game-of-life/main.go:217-226 | the same for the fix-and-continue attempt; at depth 1 a failure leaves `fixed` exactly as it was, because its undo restores the mask |
| Solver.SolveDeeper | cmd/game-of-life/main.go:206-210 | always true for depth <= 1; true on a grid with a live cell means that grid has `depth - 1` generations of ancestry |
| Solver.Solve | cmd/game-of-life/main.go:380-417 | true leaves a predecessor of `next` in `prev`; cells before (r, c) are not written |
| WorldState.NextGeneration | cmd/game-of-life/main.go:75-97 | fills a fresh buffer with the next generation of the grid |
| WorldState.World.constructor | cmd/game-of-life/main.go:33-43 | an all-dead grid of `width * height` cells, paused, in reverse mode |
| WorldState.World.GameOfLife | cmd/game-of-life/main.go:75-98 | `area` becomes a fresh grid holding the step of the old one |
| WorldState.World.ReverseGameOfLife | cmd/game-of-life/main.go:100-111 | `area` is replaced only by a genuine predecessor of the old grid, and an all-dead grid stays in place |
| WorldState.World.Update | cmd/game-of-life/main.go:55-65 | nothing changes while paused; forward mode steps; reverse mode installs a predecessor or keeps the grid; the flags are unchanged |

## Left out

- Logging and grid printing inside the solvers (`log.Println`, `fmt.Printf`) have no effect on state and are left out.
- The random initial state (`init`, `World.init`) uses `math/rand` seeded from the clock. `NewWorld` never calls it, so its third parameter `maxInitLiveCells`, used only by that call, is not a constructor parameter.
- The windowing and input layer is not modelled: `Game.Update`, `Game.Draw`, `Game.Layout`, `repeatingKeyPressed`, `main`, and the mouse clamping with `min`/`max`. The paused and forward flags are plain `var` fields that this layer toggles.
- `World.Draw` fills a pixel buffer for rendering and is not modelled.
- `sum` is unused and is not modelled.
- The fractal explorer in the top-level `main.go` and the floating-point vectors of `linalg/vec3.go` are not part of this model.
- The test file `cmd/game-of-life/main_test.go` does not compile, because it sets a `mem` field that `World` lacks. Only its assertion is used, as `Neighbourhood.AlreadyFixedIsNotReported`.
- Go `int` is unbounded here. Grid dimensions are `nat`, and an index such as `y * width + x` cannot overflow.
- Neither solver is complete: `false` does not mean there is no predecessor.
- Solver.Solve2Inner: does not promise that `prev` is restored on failure, because the original does not restore it (see above).
- `undoFixedNeighborhood` ranges over a Go map in an unspecified order. `Neighbourhood.UndoFixedNeighborhood` visits the cells in ascending index order. Every visit writes `false`, so the order does not matter.
- A change set is a `set<int>`, where the original uses `map[int]struct{}`.
- The model does not show the panics of `solve2inner` and `solve` when they index outside the grid (for `solve`, a grid of width 0 and positive height makes it index `prev[0]`). Every caller in the original passes in-range indices and a non-degenerate grid, so the model requires them.
- Solver.SolveDeeper: `solve2` is called at `depth - 1` on a fresh grid, and the ancestor it finds is discarded. Its contract says only whether that call succeeded.
