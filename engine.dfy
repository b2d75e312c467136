/** The simulation engine in the program's own imperative form: the two
    global buffers `Grid` and `NewGrid` as two-dimensional arrays, and the
    three functions that work on them (`initGrid`, `getNeighborCount`,
    `updateGrid`) as methods proved against module Rules. */
module Engine {
  import opened Rules

  /** The generation an array holds, as a value. */
  ghost function Cells(a: array2<Byte>): (g: Grid)
    reads a
    ensures |g| == a.Length0
    ensures forall r :: 0 <= r < |g| ==> |g[r]| == a.Length1
    ensures forall r, c :: 0 <= r < a.Length0 && 0 <= c < a.Length1 ==> g[r][c] == a[r, c]
  {
    seq(a.Length0, r requires 0 <= r < a.Length0 reads a =>
      seq(a.Length1, c requires 0 <= c < a.Length1 reads a => a[r, c]))
  }

  /** The source of `std::rand()` draws: an arbitrary, fixed stream of
      non-negative numbers and the count of draws taken from it so far.
      Seeding from the clock only picks the stream. */
  class RandomSource {
    const stream: nat -> nat
    var drawn: nat

    constructor (stream: nat -> nat)
      ensures this.stream == stream && drawn == 0
    {
      this.stream := stream;
      drawn := 0;
    }

    /** The next draw. */
    method Rand() returns (x: nat)
      modifies this
      ensures x == stream(old(drawn)) && drawn == old(drawn) + 1
    {
      x := stream(drawn);
      drawn := drawn + 1;
    }
  }

  /** Seeds every cell from one draw each, row by row: a cell is 1 when its
      draw modulo 100 is below 10 and 0 otherwise. */
  method InitGrid(grid: array2<Byte>, rng: RandomSource)
    modifies grid, rng
    ensures forall r, c :: 0 <= r < grid.Length0 && 0 <= c < grid.Length1 ==>
      grid[r, c] == Seed(rng.stream(DrawIndex(old(rng.drawn), grid.Length1, r, c)))
    ensures rng.drawn == old(rng.drawn) + grid.Length0 * grid.Length1
  {
    ghost var first := rng.drawn;
    for r := 0 to grid.Length0
      invariant rng.drawn == first + r * grid.Length1
      invariant forall i, j :: 0 <= i < r && 0 <= j < grid.Length1 ==>
        grid[i, j] == Seed(rng.stream(DrawIndex(first, grid.Length1, i, j)))
    {
      for c := 0 to grid.Length1
        invariant rng.drawn == first + r * grid.Length1 + c
        invariant forall i, j :: 0 <= i < r && 0 <= j < grid.Length1 ==>
          grid[i, j] == Seed(rng.stream(DrawIndex(first, grid.Length1, i, j)))
        invariant forall j :: 0 <= j < c ==>
          grid[r, j] == Seed(rng.stream(DrawIndex(first, grid.Length1, r, j)))
      {
        var draw := rng.Rand();
        grid[r, c] := if draw % 100 < 10 then 1 else 0;
      }
    }
  }

  /** Counts the live cells among the eight neighbours of (row, column),
      wrapping both axes. */
  method GetNeighborCount(grid: array2<Byte>, row: int, column: int) returns (count: nat)
    requires 0 <= row < grid.Length0 && 0 <= column < grid.Length1
    ensures count == NeighborCount(Cells(grid), row, column)
    ensures count <= 8
  {
    ghost var g := Cells(grid);
    assert IsGrid(g);
    count := 0;
    for r := -1 to 2
      invariant count == BlockCount(g, row, column, r)
    {
      for c := -1 to 2
        invariant count == BlockCount(g, row, column, r) + RowCount(g, row, column, r, c)
      {
        if r == 0 && c == 0 {
          assert Tally(g, row, column, r, c) == 0;
          continue;
        }
        var destRow := WrappedIndex(row, r, grid.Length0);
        var destColumn := WrappedIndex(column, c, grid.Length1);
        TallyOfNeighbor(g, row, column, r, c);
        assert g[destRow][destColumn] == grid[destRow, destColumn];
        if grid[destRow, destColumn] != 0 {
          count := count + 1;
        }
      }
    }
    NeighborCountInLoopOrder(g, row, column);
  }

  /** Copies every cell of `src` into `dst`, as assignment between the
      program's equally sized nested vectors does. */
  method Assign(dst: array2<Byte>, src: array2<Byte>)
    requires dst != src
    requires dst.Length0 == src.Length0 && dst.Length1 == src.Length1
    modifies dst
    ensures Cells(dst) == Cells(src)
  {
    for r := 0 to dst.Length0
      invariant forall i, j :: 0 <= i < r && 0 <= j < dst.Length1 ==> dst[i, j] == src[i, j]
    {
      for c := 0 to dst.Length1
        invariant forall i, j :: 0 <= i < r && 0 <= j < dst.Length1 ==> dst[i, j] == src[i, j]
        invariant forall j :: 0 <= j < c ==> dst[r, j] == src[r, j]
      {
        dst[r, c] := src[r, c];
      }
    }
    SameCells(Cells(dst), Cells(src));
  }

  /** The two loops of `updateGrid`: every cell of `newGrid` is written
      from `grid` alone, which is left as it was. */
  method WriteNextGeneration(grid: array2<Byte>, newGrid: array2<Byte>)
    requires grid != newGrid
    requires grid.Length0 > 0 && grid.Length1 > 0
    requires newGrid.Length0 == grid.Length0 && newGrid.Length1 == grid.Length1
    modifies newGrid
    ensures Cells(newGrid) == Next(Cells(grid))
  {
    ghost var g := Cells(grid);
    for r := 0 to grid.Length0
      invariant forall i, j {:trigger newGrid[i, j]} :: 0 <= i < r && 0 <= j < grid.Length1 ==> newGrid[i, j] == NextCell(g[i][j], NeighborCount(g, i, j))
    {
      for c := 0 to grid.Length1
        invariant forall i, j {:trigger newGrid[i, j]} :: 0 <= i < r && 0 <= j < grid.Length1 ==> newGrid[i, j] == NextCell(g[i][j], NeighborCount(g, i, j))
        invariant forall j {:trigger newGrid[r, j]} :: 0 <= j < c ==> newGrid[r, j] == NextCell(g[r][j], NeighborCount(g, r, j))
      {
        var neighborCount := GetNeighborCount(grid, r, c);
        if grid[r, c] != 0 {
          if neighborCount < 2 || neighborCount > 3 {
            newGrid[r, c] := 0;
          } else {
            newGrid[r, c] := 1;
          }
        } else {
          if neighborCount == 3 {
            newGrid[r, c] := 1;
          } else {
            newGrid[r, c] := 0;
          }
        }
      }
    }
    IsNext(g, Cells(newGrid));
  }

  /** Advances one generation: the next generation is written into
      `newGrid` from `grid` alone, then copied back into `grid`, so both
      buffers end holding it. */
  method UpdateGrid(grid: array2<Byte>, newGrid: array2<Byte>)
    requires grid != newGrid
    requires grid.Length0 > 0 && grid.Length1 > 0
    requires newGrid.Length0 == grid.Length0 && newGrid.Length1 == grid.Length1
    modifies grid, newGrid
    ensures Cells(newGrid) == Next(old(Cells(grid)))
    ensures Cells(grid) == Cells(newGrid)
  {
    WriteNextGeneration(grid, newGrid);
    Assign(grid, newGrid);
  }

  /** The program's global state: the buffers `Grid` and `NewGrid`, both
      created with the same dimensions and filled with dead cells.  The
      arrays never change identity; only their cells do. */
  class World {
    const grid: array2<Byte>
    const newGrid: array2<Byte>

    ghost predicate Valid() {
      grid != newGrid &&
      grid.Length0 > 0 && grid.Length1 > 0 &&
      newGrid.Length0 == grid.Length0 && newGrid.Length1 == grid.Length1
    }

    constructor (rows: nat, cols: nat)
      requires rows > 0 && cols > 0
      ensures Valid() && fresh(grid) && fresh(newGrid)
      ensures grid.Length0 == rows && grid.Length1 == cols
      ensures Cells(grid) == Dead(rows, cols) && Cells(newGrid) == Dead(rows, cols)
    {
      grid := new Byte[rows, cols]((_, _) => 0);
      newGrid := new Byte[rows, cols]((_, _) => 0);
      new;
      SameCells(Cells(grid), Dead(rows, cols));
      SameCells(Cells(newGrid), Dead(rows, cols));
    }

    /** Seeding at start-up and on a reseed request: `initGrid(Grid)`. */
    method Reseed(rng: RandomSource)
      requires Valid()
      modifies grid, rng
      ensures Valid()
      ensures forall r, c :: 0 <= r < grid.Length0 && 0 <= c < grid.Length1 ==>
        grid[r, c] == Seed(rng.stream(DrawIndex(old(rng.drawn), grid.Length1, r, c)))
      ensures rng.drawn == old(rng.drawn) + grid.Length0 * grid.Length1
    {
      InitGrid(grid, rng);
    }

    /** One simulation tick: `updateGrid(Grid, NewGrid)`. */
    method Step()
      requires Valid()
      modifies grid, newGrid
      ensures Valid()
      ensures Cells(grid) == Next(old(Cells(grid))) && Cells(newGrid) == Cells(grid)
    {
      UpdateGrid(grid, newGrid);
    }
  }

  /** The program's two globals as it declares them: 450 rows of 800 dead cells each. */
  method ProgramWorld() returns (w: World)
    ensures w.Valid()
    ensures w.grid.Length0 == Rows && w.grid.Length1 == Columns
    ensures Cells(w.grid) == Dead(Rows, Columns) && Cells(w.newGrid) == Dead(Rows, Columns)
  {
    w := new World(Rows, Columns);
  }
}
