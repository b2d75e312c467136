# Game of Life engine, modelled and proved in Dafny

The program is an SDL3 rendering of Conway's Game of Life. The board is a
torus of 450 rows by 800 columns of 8-bit cells (`0` is dead; any other value
counts as alive). Two global buffers hold it: `Grid`, the generation on
screen, and `NewGrid`, the scratch buffer. `initGrid` seeds every cell from
one `std::rand()` draw, so about one cell in ten starts alive.
`getNeighborCount` counts the live cells among the eight wrapped neighbours
of a cell. `updateGrid` writes the next generation into `NewGrid` from `Grid`
alone, using Conway's rules (a live cell survives with 2 or 3 neighbours, a
dead cell is born with exactly 3), and then copies `NewGrid` back into `Grid`.

The model keeps the engine in its imperative form:

- `rules.dfy` (module `Rules`) is the specification, written over values.
  A generation is a `seq<seq<Byte>>`. The neighbour count is the size of a
  set of live offsets, and the next generation is a function of the grid.
  This module also holds the properties of the rules: the wrap-around index,
  the count in the program's loop order, the rules cell by cell, all-dead
  grids staying dead, and the fact that shifting a grid around the torus
  commutes with stepping it.
- `engine.dfy` (module `Engine`) is the program itself. The two buffers are
  `array2<Byte>`. `initGrid`, `getNeighborCount` and `updateGrid` are
  methods with the source's loops and branches, and each one is proved
  against the functions of `Rules`. Class `World` holds the two globals.
  Its `Step` is one simulation tick and its `Reseed` is the start-up or
  R-key seeding. `RandomSource` stands for `std::rand()`: it is a fixed
  stream of draws plus a counter of the draws taken so far.
- `patterns.dfy` (module `Patterns`) has concrete examples. On a 3x3
  torus, a corner cell is a diagonal neighbour of the opposite corner. On a
  4x4 torus, a 2x2 block of live cells is a still life for any number of
  generations.

## Model

| member | source | states |
|---|---|---|
| Rules.ProgramGridSize | src/main.cpp:9-14 | the program's grid is 450 rows by 800 columns, at least 3 on each axis |
| Rules.Wrap | src/main.cpp:87-89 | the wrapped index lies in [0, n) and equals the starting index exactly when the offset is 0 or the ring has one position |
| Rules.WrapIsRemainder | src/main.cpp:88-89 | `(i + d + n) % n` never has a negative operand, lies in [0, n) and is the wrapped index |
| Rules.UnsignedSumIsExact | src/main.cpp:88-89 | `row + r` is converted to unsigned and the addition of `Rows` wraps modulo 2^32, yet for any size below 2^31 the unsigned sum is the exact sum, which lies in [n - 1, 2n] |
| Rules.WrappedIndex | src/main.cpp:88-89 | the program's remainder expression equals the wrapped index |
| Rules.LiveAt | src/main.cpp:88-91 | the neighbour at offset (dr, dc), wrapped on both axes, is non-zero, which is the cell the program reads at the remainder indices |
| Rules.Tally | src/main.cpp:80-94 | one offset adds 1 exactly when it is not the centre and its wrapped cell is alive, and 0 otherwise |
| Rules.TallyOfNeighbor | src/main.cpp:91-94 | a non-centre offset adds 1 exactly when its wrapped cell is non-zero |
| Rules.RowCount | src/main.cpp:78-96 | the inner loop's partial count is at most the number of column offsets seen so far, and one less in the centre row |
| Rules.BlockCount | src/main.cpp:76-97 | the outer loop's partial count is bounded by the offsets seen so far, never counting the centre |
| Rules.LiveNeighbors | src/main.cpp:76-97 | the set of counted offsets never holds (0, 0) and only holds the eight neighbour offsets |
| Rules.NeighborCount | src/main.cpp:71-99 | the number of live wrapped neighbours is at most 8, so the `Uint8` counter cannot overflow |
| Rules.RowCountIsRowSet | src/main.cpp:78-96 | the inner loop's running count is the size of the set of live offsets it has visited |
| Rules.BlockCountIsBlockSet | src/main.cpp:76-97 | the outer loop's running count is the size of the set of live offsets it has visited |
| Rules.NeighborCountInLoopOrder | src/main.cpp:76-98 | counting row offset outside and column offset inside, skipping the centre, gives exactly the number of live neighbours |
| Rules.WithCell | src/main.cpp:80-84 | helper of `CountIgnoresOwnCell`: the grid with one cell replaced, which changes that cell and no other |
| Rules.CountIgnoresOwnCell | src/main.cpp:80-84 | on a grid of at least 2x2, a cell's own value never changes its neighbour count |
| Rules.NeighborsDistinct | src/main.cpp:87-89 | on a grid of at least 3x3, the eight offsets reach eight different cells |
| Rules.ProgramNeighborsDistinct | src/main.cpp:87-89 | on the program's 450 by 800 grid, the eight offsets of every cell reach eight different cells |
| Rules.SingleCellCountsItself | src/main.cpp:87-93 | on a 1x1 grid every offset wraps onto the cell itself, so a live lone cell has 8 neighbours |
| Rules.NextCell | src/main.cpp:110-133 | the new cell is 0 or 1, and it is 1 exactly when a live cell has 2 or 3 neighbours or a dead cell has exactly 3 |
| Rules.Next | src/main.cpp:102-135 | the next generation has the shape of the current one and holds only 0 and 1 |
| Rules.IsNext | src/main.cpp:104-135 | a grid of the right shape whose every cell follows the rule from the current grid is the next generation |
| Rules.SurvivalRule | src/main.cpp:110-121 | a live cell is 1 in the next generation exactly when its count is 2 or 3 |
| Rules.BirthRule | src/main.cpp:122-133 | a dead cell is 1 in the next generation exactly when its count is 3 |
| Rules.Dead | src/main.cpp:29-32 | the buffers' initial contents: the given shape, every cell 0 |
| Rules.NoLiveNeighbors | src/main.cpp:91-94 | in an all-dead grid every neighbour count is 0 |
| Rules.AllDeadStaysDead | src/main.cpp:122-133 | an all-dead grid is its own next generation |
| Rules.SameCells | src/main.cpp:136 | two grids with the same row lengths and the same cells are equal |
| Rules.Iterate | src/main.cpp:214-217 | any number of generations keeps the grid's shape |
| Rules.FixedPointStays | src/main.cpp:214-217 | a grid that one generation leaves unchanged stays unchanged for any number of generations |
| Rules.AllDeadStaysDeadForever | src/main.cpp:214-217 | an all-dead grid stays all-dead for any number of ticks |
| Rules.Seed | src/main.cpp:41 | a seeded cell is 0 or 1, and it is 1 exactly when its draw modulo 100 is below 10 |
| Rules.DrawIndex | src/main.cpp:37-41 | the number of the draw that seeds cell (r, c) when cells are seeded row by row; for c < cols it lies in the block of draws for row r |
| Rules.DrawIndexDistinct | src/main.cpp:37-41 | different cells are seeded from different draws |
| Rules.ProductMonotone | src/main.cpp:37-41 | helper of `DrawIndexDistinct`: multiplying by the row length keeps order |
| Rules.Shift | src/main.cpp:87-89 | moving a grid around the torus keeps its shape and takes each cell from the wrapped source position |
| Rules.WrapCommutes | src/main.cpp:87-89 | two steps around a ring can be taken in either order |
| Rules.ShiftKeepsNeighbor | src/main.cpp:87-94 | a neighbour of a shifted cell is alive exactly when the matching neighbour of the original cell is alive |
| Rules.ShiftKeepsCounts | src/main.cpp:71-99 | shifting moves each cell's neighbour count along with it |
| Rules.NextCommutesWithShift | src/main.cpp:102-135 | stepping a shifted grid gives the shifted next generation, since the torus has no edge |
| Rules.IterateCommutesWithShift | src/main.cpp:214-217 | the same holds for any number of generations |
| Engine.Cells | src/main.cpp:29 | the generation an array holds: the same dimensions and the same cells |
| Engine.RandomSource.constructor | src/main.cpp:165-166 | seeding the generator picks the stream, and no draw has been taken yet |
| Engine.RandomSource.Rand | src/main.cpp:41 | each call returns the next draw of the stream and advances the counter by one |
| Engine.InitGrid | src/main.cpp:35-44 | cell (r, c) gets `Seed` of draw number first + r*cols + c, and exactly rows*cols draws are taken |
| Engine.GetNeighborCount | src/main.cpp:71-99 | the two offset loops with `continue` and the remainder indices return exactly `NeighborCount` of the grid, which is at most 8 |
| Engine.Assign | src/main.cpp:136 | `grid = newGrid` leaves the destination holding the same cells as the source |
| Engine.WriteNextGeneration | src/main.cpp:104-135 | after the two cell loops, `newGrid` holds exactly `Next` of `grid`, which is left unchanged |
| Engine.UpdateGrid | src/main.cpp:102-137 | `newGrid` holds the next generation of the old `grid`, and after the copy `grid` holds it too |
| Engine.World.constructor | src/main.cpp:28-32 | two distinct buffers of the given shape, both all dead |
| Engine.World.Reseed | src/main.cpp:168-169 | `initGrid(Grid)` seeds only `Grid`, cell by cell from consecutive draws, and keeps the buffers valid |
| Engine.World.Step | src/main.cpp:214-217 | one tick turns `Grid` into the next generation of its old contents, and `NewGrid` ends equal to it |
| Engine.ProgramWorld | src/main.cpp:28-32 | the globals as declared: 450 by 800, both buffers all dead |
| Patterns.Corner | src/main.cpp:29 | a 3x3 grid with one live corner cell |
| Patterns.CornerWrapsDiagonally | src/main.cpp:87-93 | the opposite corner of a 3x3 torus reaches that live cell through a diagonal wrap, and its count is 1 |
| Patterns.Block | src/main.cpp:29 | a 4x4 grid whose top-left 2x2 block is alive |
| Patterns.BlockNeighbors00 | src/main.cpp:71-99 | cell (0, 0) of the block grid has 3 live wrapped neighbours |
| Patterns.BlockNeighbors01 | src/main.cpp:71-99 | cell (0, 1) of the block grid has 3 live wrapped neighbours |
| Patterns.BlockNeighbors02 | src/main.cpp:71-99 | cell (0, 2) of the block grid has 2 live wrapped neighbours |
| Patterns.BlockNeighbors03 | src/main.cpp:71-99 | cell (0, 3) of the block grid has 2 live wrapped neighbours |
| Patterns.BlockNeighbors10 | src/main.cpp:71-99 | cell (1, 0) of the block grid has 3 live wrapped neighbours |
| Patterns.BlockNeighbors11 | src/main.cpp:71-99 | cell (1, 1) of the block grid has 3 live wrapped neighbours |
| Patterns.BlockNeighbors12 | src/main.cpp:71-99 | cell (1, 2) of the block grid has 2 live wrapped neighbours |
| Patterns.BlockNeighbors13 | src/main.cpp:71-99 | cell (1, 3) of the block grid has 2 live wrapped neighbours |
| Patterns.BlockNeighbors20 | src/main.cpp:71-99 | cell (2, 0) of the block grid has 2 live wrapped neighbours |
| Patterns.BlockNeighbors21 | src/main.cpp:71-99 | cell (2, 1) of the block grid has 2 live wrapped neighbours |
| Patterns.BlockNeighbors22 | src/main.cpp:71-99 | cell (2, 2) of the block grid has 1 live wrapped neighbour |
| Patterns.BlockNeighbors23 | src/main.cpp:71-99 | cell (2, 3) of the block grid has 1 live wrapped neighbour |
| Patterns.BlockNeighbors30 | src/main.cpp:71-99 | cell (3, 0) of the block grid has 2 live wrapped neighbours |
| Patterns.BlockNeighbors31 | src/main.cpp:71-99 | cell (3, 1) of the block grid has 2 live wrapped neighbours |
| Patterns.BlockNeighbors32 | src/main.cpp:71-99 | cell (3, 2) of the block grid has 1 live wrapped neighbour |
| Patterns.BlockNeighbors33 | src/main.cpp:71-99 | cell (3, 3) of the block grid has 1 live wrapped neighbour |
| Patterns.BlockIsStill | src/main.cpp:102-135 | the block is its own next generation: a still life |
| Patterns.BlockStaysForever | src/main.cpp:214-217 | the block is unchanged by any number of ticks |

## Left out

- `drawGrid` (lines 47-68) and all rendering: it only reads the grid and draws rectangles through SDL.
- The SDL callbacks `SDL_AppInit`, `SDL_AppEvent`, `SDL_AppIterate` and `SDL_AppQuit`: window creation, event dispatch, error logging and cleanup are foreign calls. The parts that touch the engine are modelled as `World.Reseed` (start-up and the R key) and `World.Step` (one tick).
- The SPACE key's pause toggle (`runSimulation`): it only decides whether a tick calls `updateGrid`, and `Iterate` counts only the ticks that do.
- Frame pacing by `SDL_GetTicks` and `SDL_Delay`: clocks are not modelled.
- `std::srand(std::time(nullptr))` and the generator behind `std::rand()`: `RandomSource` takes an arbitrary stream of non-negative draws. The clock's only effect is to pick that stream. The stream is a sequence of natural numbers with no upper limit, while a real `RAND_MAX` bounds the draws. Only `draw % 100` matters, so the results agree.
- The nested `std::vector<std::vector<Uint8>>` buffers are modelled as `array2<Byte>`. Their rows cannot differ in length or alias one another, which the program never relies on anyway. Copying by `grid = newGrid` is modelled cell by cell in `Assign`. Memory reuse is not modelled.
- Integer widths: `getNeighborCount` adds its `int` offsets to the `Uint32` constants `Rows` and `Columns`. `row + r` (and likewise `column + c`) is converted to unsigned before `Rows` is added; when it is -1 the addition wraps modulo 2^32 to n - 1. The unsigned sum therefore lies in [n - 1, 2n], and its remainder equals the one `WrappedIndex` computes (`UnsignedSumIsExact`). The `Uint8` counter is shown to stay at or below 8 (`NeighborCount`), so no overflow happens.
- Grid sizes are a parameter: every method takes any positive number of rows and columns, while the program fixes them at 450 by 800 (`ProgramGridSize`, `ProgramWorld`).
- Concrete oscillators and gliders: their evolution is not proved step by step. Only the block still life is (`BlockStaysForever`). `NextCommutesWithShift` and `IterateCommutesWithShift` state, for every grid, the property that a glider relies on: a pattern evolves the same wherever it sits on the torus.
- `grid = newGrid` is a full cell-by-cell copy, and `Assign` copies too; nothing swaps the two buffers. The seeding threshold is fixed at 10 in 100. The program has no accessor functions: it indexes the globals directly, and the model reads the arrays.
