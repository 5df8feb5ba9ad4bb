# Game of Life grid engine, in Dafny

This project models the engine of a terminal Game of Life written in Rust
(`src/lib.rs`). The model has two parts:

- **`Grid`** is a `width` x `height` rectangle of cells, stored as a map from
  `(x, y)` to `Cell`.
- **`Cell`** knows its own coordinate and whether it is alive. It carries the
  survival and birth rule.

The functions, the class and its contracts prove four things:

- the grid's shape invariant is kept;
- lookups and neighbourhoods behave as described;
- the rule table is Conway's;
- the behaviour of the in-place `Grid::next_state`.

Modules:

- `Wrappers` holds the `Option` returned by lookups.
- `Cells` holds the `Cell` datatype (its constructor is `Cell::new`), `Cell::toggle` and `Cell::next_state`.
- `Grids` models the read side of a grid as functions on its cell map:
  - the shape invariant `WellFormed`: the keys are exactly the rectangle, and each cell stores its own key;
  - `Grid::cell` and `Grid::cell_neighbors`;
  - `Cell::neighbours` (the eight Moore offsets in source order, kept only where a cell is stored);
  - `Cell::live_neighbours_count`;
  - the map update of `toggle_cell`.
- `Generations` holds the two kinds of generation:
  - **The as-written generation, `Sweep`.** `Grid::next_state` copies the grid and visits the original cells in HashMap order. Each cell's count is read from the copy, which already holds the cells visited before it. `Sweep` is that computation for a given visiting order.
  - **The synchronous generation, `Step`.** Every count is read from the previous generation.
- `Patterns` proves facts about concrete boards:
  - the 2 x 2 block is a still life under both generations;
  - the blinker oscillates under `Step`;
  - the blinker is broken by `Sweep` for some visiting orders.
- `LifeGrid` holds the `Grid` class. It has:
  - constants `width` and `height`, and a `cells` map that the methods update;
  - constructors for `Grid::new`, `Grid::random` and `Grid::from_seed`;
  - methods `ToggleCell`, `NextState` (the as-written loop, returning the visiting order it used as a ghost value), `Advance` (the double-buffered generation) and `Render` (the frame string).

The HashMap's iteration order is not fixed by Rust. `NextState` picks each
next key with `:|`, so its contract holds for whichever order the map uses.

A Game of Life generation is meant to be simultaneous: every cell sees one
snapshot of the previous generation. The code does not do that (see
Findings). The model follows the code in `LifeGrid.Grid.NextState` and
`Generations.Sweep`. It models the intended behaviour in `Generations.Step`
and `LifeGrid.Grid.Advance`.

## Model

| member | source | states |
|---|---|---|
| Cells.Toggle | src/lib.rs:196-199 | the toggled cell keeps its coordinate and has the opposite liveness |
| Cells.ToggleInvolutive | src/lib.rs:196-199 | toggling a cell twice gives the same cell back |
| Cells.NextState | src/lib.rs:201-223 | the coordinate is kept; a live cell with fewer than 2 or more than 3 live neighbours dies; a live cell with 2 or 3 survives; a dead cell is born iff it has exactly 3 |
| Cells.NextStateIff | src/lib.rs:214-220 | the next state is alive iff the count is 3, or the cell is alive and the count is 2 |
| Cells.LegacyRuleAgrees | src/grid.rs:175-189 | the rule of the superseded `src/grid.rs` gives the same cell as the current rule for every state and count |
| Grids.RectangleSize | src/lib.rs:22-26 | the rectangle `[0, w) x [0, h)` filled by the nested loops has `w * h` coordinates |
| Grids.GridSize | src/lib.rs:20-32 | a well-formed grid has `width * height` cells, and none when either side is not positive |
| Grids.TenByTenHasHundredCells | tests/grid.rs:4-10 | a 10 x 10 grid holds exactly 100 cells |
| Grids.Lookup | src/lib.rs:56-58 | `cell(x, y)` is `Some` iff `(x, y)` is a key, and then holds the cell stored there |
| Grids.LookupInGrid | src/lib.rs:56-58 | on a well-formed grid, `cell(x, y)` is `Some` iff `(x, y)` is in the rectangle, and the cell found carries coordinate `(x, y)` |
| Grids.OffsetsAreMoore | src/lib.rs:170-179 | the offset list has 8 distinct entries, and they are exactly the coordinates adjacent to the cell |
| Grids.Present | src/lib.rs:181-185 | `filter_map` over the offsets keeps at most as many cells as there are offsets |
| Grids.PresentSpec | src/lib.rs:181-185 | every kept cell is stored at one of the listed keys, and every listed key that is stored is kept |
| Grids.Neighbours | src/lib.rs:169-186 | a cell has at most 8 neighbours |
| Grids.NeighboursAreAdjacent | src/lib.rs:169-186 | every neighbour is the cell stored at an adjacent key, and every cell stored at an adjacent key is a neighbour |
| Grids.CountAlive | src/lib.rs:190-193 | the count of alive cells in a list is at most its length, and is 0 iff none is alive |
| Grids.CountAliveAppend | src/lib.rs:190-193 | counting alive cells adds up over concatenation |
| Grids.LiveNeighboursCount | src/lib.rs:188-194 | the live-neighbour count is at most the number of neighbours, so at most 8 |
| Grids.LiveCountZero | src/lib.rs:188-194 | the live-neighbour count is 0 iff no cell stored at an adjacent key is alive |
| Grids.CountPresent | src/lib.rs:181-193 | counting the alive kept cells of distinct keys gives the number of distinct alive stored keys |
| Grids.LiveCountIsAliveAround | src/lib.rs:188-194 | the live-neighbour count is the number of adjacent keys whose stored cell is alive, so each neighbour counts once |
| Grids.CellNeighbors | src/lib.rs:60-70 | `cell_neighbors(x, y)` is `None` iff no cell is stored at `(x, y)`, and otherwise has at most 8 entries |
| Grids.NeighborsInGrid | src/lib.rs:60-70 | on a well-formed grid, the neighbours of an in-grid cell are in bounds, adjacent to it, not the cell itself, each stored at its own coordinate, and every in-grid adjacent cell is among them |
| Grids.CornerNeighbors | src/lib.rs:60-70 | the corner `(0, 0)` of a well-formed grid has at most 3 neighbours |
| Grids.AllDeadCountsZero | src/lib.rs:188-194 | on a grid with no live cell, every live-neighbour count is 0 |
| Grids.OneLiveNeighbour | src/lib.rs:188-194 | where `(1, 1)` is the only live cell, each cell adjacent to it counts exactly one live neighbour |
| Grids.SingleLiveCellCounts | src/lib.rs:188-194 | on a 5 x 5 grid whose only live cell is `(1, 1)`, the cells `(0, 0)`, `(2, 2)` and `(1, 0)` count one live neighbour and `(1, 1)` counts none |
| Grids.ToggledAt | src/lib.rs:72-84 | toggling at `k` keeps the key set, flips the liveness at `k` only, keeps its coordinate, and leaves every other cell unchanged |
| Grids.ToggledWellFormed | src/lib.rs:72-84 | toggling a cell keeps the grid's shape |
| Grids.ToggleTwice | src/lib.rs:72-84 | toggling the same cell twice restores the grid |
| Generations.Step | src/lib.rs:86-98 | the synchronous generation keeps the key set and every cell's coordinate |
| Generations.StepWellFormed | src/lib.rs:86-98 | the synchronous generation keeps the grid's shape |
| Generations.CollectStep | src/lib.rs:86-98 | adding the successor of one more pending key keeps the double-buffer state |
| Generations.CollectDone | src/lib.rs:86-98 | once no key is pending, the double buffer holds exactly the synchronous generation |
| Generations.Sweep | src/lib.rs:86-98 | for any visiting order, the as-written generation keeps the key set and every coordinate, and leaves unvisited cells unchanged |
| Generations.SweepSnoc | src/lib.rs:89-93 | visiting one more key updates only that cell, with the count read from the working copy so far |
| Generations.VisitStep | src/lib.rs:89-93 | one visit moves a pending key to the end of the visiting order and keeps the working copy equal to the sweep of the order so far |
| Generations.VisitDone | src/lib.rs:89-95 | when nothing is pending, the order lists every key exactly once and the working copy is its sweep |
| Generations.SweepWellFormed | src/lib.rs:86-98 | the as-written generation keeps the grid's shape, whatever the order |
| Generations.SweepVisited | src/lib.rs:89-93 | the `i`-th visited cell becomes the rule applied to its old state and to the count read from the copy after the first `i` visits |
| Generations.SweepAllDead | src/lib.rs:86-98 | for every visiting order, a grid with no live cell stays without live cells |
| Generations.StillLifeIsFixedPoint | src/lib.rs:86-98 | every cell being its own successor is the same as being a fixed point of the synchronous generation |
| Generations.SweepStillLife | src/lib.rs:86-98 | for every visiting order, the as-written generation leaves a still life unchanged |
| Generations.SweepFixedPoint | src/lib.rs:86-98 | for every visiting order, a fixed point of the synchronous generation is left unchanged by the as-written one |
| Generations.StepAllDead | src/lib.rs:86-98 | the synchronous generation leaves a grid with no live cell unchanged |
| Patterns.CountAdjacentIsSize | src/lib.rs:188-194 | counting the adjacent entries of a list of distinct live coordinates gives the size of their set |
| Patterns.BoardCount | src/lib.rs:188-194 | on a board given by its list of live coordinates, an in-grid cell's live-neighbour count is the number of listed coordinates adjacent to it |
| Patterns.BoardSuccessor | src/lib.rs:201-223 | on such a board, a cell is alive next iff 3 listed live coordinates are adjacent to it, or it is listed and 2 are |
| Patterns.BlockIsStill | src/lib.rs:86-98 | the 2 x 2 block on a 4 x 4 grid is a fixed point of the synchronous generation |
| Patterns.BlockSurvivesSweep | src/lib.rs:86-98 | for every visiting order, the as-written generation leaves the block unchanged |
| Patterns.HorizontalAt | src/lib.rs:86-98 | one synchronous generation of the horizontal blinker leaves each cell alive iff it is on the vertical blinker |
| Patterns.VerticalAt | src/lib.rs:86-98 | one synchronous generation of the vertical blinker leaves each cell alive iff it is on the horizontal blinker |
| Patterns.BlinkerTurns | src/lib.rs:86-98 | under the synchronous generation the horizontal blinker becomes the vertical one |
| Patterns.BlinkerTurnsBack | src/lib.rs:86-98 | under the synchronous generation the vertical blinker becomes the horizontal one |
| Patterns.BlinkerOscillates | src/lib.rs:86-98 | two synchronous generations give the horizontal blinker back |
| Patterns.BoardsAgree | src/lib.rs:20-32 | two well-formed grids of the same size with the same live cells are equal |
| Patterns.FirstVisitKills | src/lib.rs:89-92 | visiting `(1, 2)` first kills it, so the working copy is the board of `(2, 2)` and `(3, 2)` |
| Patterns.SecondVisitStaysDead | src/lib.rs:89-92 | in that working copy, `(2, 1)` counts two live neighbours and stays dead |
| Patterns.SweepKillsSecond | src/lib.rs:86-98 | when the order starts with `(1, 2)` and `(2, 1)`, the as-written generation leaves `(2, 1)` dead |
| Patterns.SweepBreaksBlinker | src/lib.rs:86-98 | for such an order, the as-written generation differs from the synchronous one on the blinker |
| LifeGrid.Glyph | src/lib.rs:3-4 | a cell is drawn as the white square iff it is alive, and as the black square iff it is dead |
| LifeGrid.FillRectangle | src/lib.rs:21-26 | the nested loops produce a well-formed grid whose cell at each key is alive as the draw says |
| LifeGrid.RowGlyphs | src/lib.rs:104-107 | a row has `width` glyphs, and the `x`-th is the glyph of the cell at `(x, y)` |
| LifeGrid.FrameLength | src/lib.rs:101-109 | the frame has `height * (width + 1)` characters |
| LifeGrid.FrameAt | src/lib.rs:101-109 | the frame is row-major: position `y * (width + 1) + x` holds the glyph of cell `(x, y)`, and position `y * (width + 1) + width` holds a line break |
| LifeGrid.ToggleSeed | src/lib.rs:36-38 | toggling one more listed seed keeps each cell alive iff its coordinate occurs an odd number of times in the longer list |
| LifeGrid.Grid.constructor | src/lib.rs:20-32 | `Grid::new` gives a well-formed grid of the given size in which every cell is dead |
| LifeGrid.Grid.Random | src/lib.rs:42-54 | `Grid::random` gives a well-formed grid of the given size in which each cell is alive as the draw says |
| LifeGrid.Grid.FromSeed | src/lib.rs:34-40 | with every seed in bounds, `Grid::from_seed` gives a well-formed grid in which a cell is alive iff its coordinate is listed an odd number of times |
| LifeGrid.Grid.ToggleCell | src/lib.rs:72-84 | with `(x, y)` a key, the new cells are the old ones toggled at `(x, y)`, and the grid stays well-formed |
| LifeGrid.Grid.NextState | src/lib.rs:86-98 | the grid stays well-formed, the order used lists every old key once, and the new cells are the as-written sweep of the old cells in that order |
| LifeGrid.Grid.Advance | src/lib.rs:86-98 | the grid stays well-formed and the new cells are the synchronous generation of the old ones |
| LifeGrid.Grid.Render | src/lib.rs:100-109 | the string built is the frame of the current cells: `height` rows of `width` glyphs, each followed by a line break |

## Left out

- `Game`, `Game::run` (src/lib.rs:116-151) and `src/main.rs`: the driver loop, the generation counter printout and the frame delay are I/O and timing.
- The terminal output of `render` (src/lib.rs:111-112): the cursor and clear escapes and the `print!` are I/O. Only the string built at src/lib.rs:101-109 is modelled, and `Render` returns it.
- `rand::random()` (src/lib.rs:46): the random source is replaced by the argument `draw` of `Grid.Random`, so its contract holds for every draw.
- The HashMap's iteration order is not fixed. `NextState` chooses each key with `:|`, and its contract holds for whichever order is chosen.
- `src/grid.rs` is not compiled into the program, since no module declares it. Only its cell rule is modelled, in `Cells.LegacyNextState`, where `LegacyRuleAgrees` shows it agrees with the current rule. Its grid type, its lazy `next_state` and its neighbour ranges are not part of this model.
- Panics are preconditions: the `unwrap` in `from_seed` becomes `FromSeed`'s requirement that every seed is in bounds. The out-of-bounds panic of `toggle_cell` becomes `ToggleCell`'s requirement that `(x, y)` is a key. The `unwrap` in `render` never fails on a well-formed grid. `GridError::UnknownError` is never raised.
- Coordinates are unbounded integers, not `i32`. The offsets `x - 1` and `x + 1` overflow only at the ends of the `i32` range, far from any grid's coordinates.
- `toggle_cell` and `next_state` return `&Grid` for chaining. The methods here return nothing (`NextState` returns only its ghost visiting order), since the result is the same object.
- `Cell::new` (src/lib.rs:161-167) is the datatype constructor `Cells.Cell`, which has no contract of its own.
- The doc-test of the superseded `Cell::next_state` in src/grid.rs:160-172 expects a dead cell with two live neighbours to come back alive. That contradicts the rule it documents (src/grid.rs:179) and is not modelled.

## Findings

| source | as written | input that shows it | evidently intended | confidence | as-written member | corrected member |
|---|---|---|---|---|---|---|
| src/lib.rs:86-98 | `next_state` reads each cell's live-neighbour count from the working copy `this`, which it is updating as it goes, so cells visited later see the new states of cells visited earlier | a 5 x 5 grid holding the horizontal blinker (1, 2), (2, 2), (3, 2), visited in an order starting (1, 2), (2, 1): (1, 2) dies first, so (2, 1) counts 2 live neighbours instead of 3 and is not born | every cell counts its neighbours in the previous generation, so the blinker turns vertical and then back | not executed | Patterns.SweepBreaksBlinker | LifeGrid.Grid.Advance |

`Patterns.BlinkerOscillates` proves the intended property about
`Generations.Step`, which `LifeGrid.Grid.Advance` computes: two generations
give the blinker back. `Patterns.BlockSurvivesSweep` shows that the defect
does not affect still lifes, whatever the visiting order.
