# Toroidal Game of Life, modelled in Dafny

This project models the `Universe` of a small Go program (`main.go`). The
program runs Conway's Game of Life on a square grid whose edges wrap
around, so the grid is a torus.

A `Universe` holds four things:

- the grid `matrix`;
- its side `size`;
- a generation counter;
- a counter of live cells.

The live-cell counter is never recomputed from the grid. It is adjusted by
+1 or -1 each time a cell is born or dies:

- while the grid is populated, one coin flip per cell;
- while `nextGeneration` builds the next grid.

The project has three files:

- `rules.dfy` (module `LifeRules`) holds the rules as pure definitions:
  - wrapped coordinates;
  - neighbour counting;
  - the B3/S23 cell rule (birth with 3 live neighbours, survival with 2 or 3);
  - one synchronous generation (`Step`) and `k` generations (`Generations`);
  - the number of live cells of a grid, both as a row-major count and as a
    full rescan (`LiveCells`).
- `universe.dfy` (module `Life`) holds the class `Universe`, whose methods
  follow the original's loops and switches step by step, and each method is
  proved against the definitions in `rules.dfy`. It also holds the
  construction and generation loop of `main`, without its input and output.
- `patterns.dfy` (module `LifePatterns`) states the rules' behaviour on
  particular grids:
  - neighbour multiplicity on 1-by-1 and 2-by-2 grids;
  - wrapping across both edges;
  - a lone cell dying;
  - the 2-by-2 block as a still life.

Cells are `bool`, where `true` is the original's `"O"` and `false` is `" "`.

The neighbour count follows the code: it counts the eight offsets whose
wrapped cell is alive. On a grid of side 1 every offset reaches the cell
itself, so a live 1-by-1 cell has 8 live neighbours. On a grid of side 2
several offsets reach the same neighbour and each of them is counted, but
none reaches the cell itself. From side 2 on, the cell's own state never
enters its count.

`nextGeneration` is proved to produce exactly `Step` of the old grid. Every
new cell depends only on the old grid, so the result is deterministic. The
counter is proved to end equal to the number of live cells of the new grid,
as a full rescan would find it. The counter's decrement never goes below 0,
because the relation between the counter and the cells scanned so far
shows it is positive whenever a live cell dies.

## Model

| member | source | states |
|---|---|---|
| LifeRules.Wrap | main.go:89-90 | a wrapped coordinate always lies in [0, size); offset 0 leaves the coordinate unchanged |
| LifeRules.WrapIsMod | main.go:89-90 | `(x + d + size) % size` is in [0, size) and equals the torus coordinate: one step off either edge re-enters at the opposite edge, and the dividend is never negative |
| LifeRules.NeighbourCount | main.go:79-99 | the neighbour count is the number of offsets other than (0, 0) whose wrapped cell is alive, and it is at most 8 |
| LifeRules.LiveOffsetsBound | main.go:83-96 | at every point of the dr/dc scan, no more live offsets have been found than offsets other than (0, 0) have been scanned |
| LifeRules.NeighbourCountIsSum | main.go:83-96 | the count equals the sum of the eight per-offset terms, so every offset contributes separately even when several offsets wrap onto one cell |
| Life.Universe.CalculateAliveNeighbors | main.go:79-99 | the double loop returns exactly the neighbour count of the current grid, at most 8, and changes nothing |
| LifeRules.NextState | main.go:59-77 | the switch on the current state is B3/S23: the cell is alive next exactly when it has 3 live neighbours, or has 2 and is alive now |
| Life.Universe.CalculateNewState | main.go:59-77 | returns the rule's next state for the cell; the counter drops by 1 exactly when a live cell dies, rises by 1 exactly when a dead cell is born, and is otherwise unchanged |
| LifeRules.Step | main.go:101-112 | the next generation of a size-by-size grid is again size-by-size |
| LifeRules.StepAt | main.go:103-108 | each cell of the next generation is the rule applied to that cell's state and neighbour count in the old grid, so no new value is read back |
| LifeRules.StepIs | main.go:101-110 | the next generation equals a grid h whenever every cell of h is what the rule makes of the same old cell |
| Life.Universe.NextGeneration | main.go:101-112 | from a valid universe: the new grid is `Step` of the old one; the size is unchanged and the grid stays square; the generation counter rises by exactly 1; the live counter equals the number of live cells in a full rescan, so the object invariant is kept |
| LifeRules.ScannedCountBound | main.go:65-68 | the live cells scanned before a cell, plus that cell, never exceed the grid's live cells, so the counter is positive when a live cell is about to die |
| LifeRules.ScanCounterStep | main.go:67-72 | adjusting the counter by -1 on a death and +1 on a birth keeps "counter plus old cells still to scan equals the old total plus new cells written" true for one more cell |
| LifeRules.LiveCountIsLiveCells | main.go:16-21 | the row-major live count of a grid equals the number of live positions in a full rescan |
| Life.Universe.constructor | main.go:128 | the literal `Universe{make([][]string, size), size, 0, 0}`: size rows that are still empty, and both counters at 0 |
| Life.Universe.CalculateInitialState | main.go:38-47 | the new cell takes its coin's value, and the counter rises by 1 exactly when the cell is alive |
| Life.Universe.Populate | main.go:49-57 | every row is replaced by fresh cells taken from the coins in row-major order; the counter rises by exactly the number of live cells created; size and generation are unchanged |
| Life.NewUniverse | main.go:122-129 | a size of at least 1 and the coins give a valid universe at generation 0 whose grid is the coins and whose counter is the rescanned number of live cells |
| LifeRules.Generations | main.go:132-133 | the grid after k generations is still size-by-size |
| Life.RunGenerations | main.go:132-137 | advancing gens times keeps the universe valid, leaves the grid at `Generations` of the old grid, and raises the generation counter by exactly gens, whatever the grid's size or contents |
| Life.Play | main.go:114-138 | after construction, population and NumGens (10) generations, the universe is valid at generation 10, and its grid is the coins advanced 10 times |
| LifePatterns.OneByOneCountsEightfold | main.go:83-96 | on a 1-by-1 grid all eight offsets wrap back to the cell, so its count is 8 when it is alive and 0 otherwise |
| LifePatterns.WrapMovesOnLargeGrids | main.go:89-90 | from a side of 2 on, a wrapped step returns to its start exactly when the offset is 0 |
| LifePatterns.NeighbourCountIgnoresSelf | main.go:85-87 | from a side of 2 on, changing a cell's own state does not change its neighbour count; only a 1-by-1 grid counts the cell itself |
| LifePatterns.TwoByTwoCountsPerOffset | main.go:83-96 | on the all-live 2-by-2 grid, cell (0, 0) has count 8, although its eight offsets reach only three distinct cells |
| LifePatterns.CornerSeenAcrossBothEdges | main.go:89-92 | on a 3-by-3 grid with only (0, 0) alive, cell (2, 2) sees (0, 0) through offset (1, 1), wrapped in both dimensions, and has exactly 1 live neighbour |
| LifePatterns.CornerNeighbours | main.go:79-99 | on that grid every cell other than (0, 0) has exactly 1 live neighbour, and (0, 0) has none |
| LifePatterns.LoneCellDies | main.go:59-77 | one generation of that grid leaves every cell dead, with live count 0 |
| LifePatterns.BlockNeighbours | main.go:79-99 | in a 2-by-2 block centred on a 4-by-4 grid, each block cell has exactly 3 live neighbours and every other cell has at most 2 |
| LifePatterns.BlockIsStill | main.go:101-112 | one generation leaves the block unchanged (a still life) |

## Left out

- Reading the size with `fmt.Scan` and returning on a read error (main.go:115-120). The size is a parameter of `NewUniverse` and `Play`.
- The fatal error for a size below 1 (main.go:123-125). It is the precondition `n >= 1` of the constructor, `NewUniverse` and `Play`.
- `rand.Intn(2)` in `calculateInitialState` (main.go:39) is randomness. The outcome is supplied as a `coin` argument, and for `populate` as a grid of coins, one per cell in row-major order.
- `String()` (main.go:23-36) and the screen clearing, printing and 500 ms pause in the generation loop (main.go:134-136) are output and timing only, and they do not change the universe. In `String()` the test `i != u.size` is always true, so every row, including the last, ends in a newline.
- Life.Universe.CalculateNewState: the model does not follow the unsigned wrap-around that `u.numAliveCells--` would have at 0. Instead it requires the counter to be at least 1 when the cell is alive. `NextGeneration` proves this requirement at every call, so the wrap never happens.
- Both counters are unbounded naturals. The 64-bit overflow of Go's `uint` is not modelled, because reaching it would take more than 2^64 cells or generations.
- Cells are `bool` rather than the strings `"O"` and `" "`. The original only ever stores these two strings.
- Rows are stored as sequence values. Go stores slices, which share memory. The original never writes to a row after storing it in a grid, so no aliasing is lost.
- Life.Universe.constructor: the rows of `make([][]string, size)` are nil slices, modelled as empty sequences. The object invariant `Valid()` therefore holds only after `Populate`, as in the original, where the grid is not square before `populate`.
