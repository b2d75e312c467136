/** The Game of Life on a torus, as values: a generation is a rectangular
    matrix of cells and the next generation is a function of it.  This
    module is the specification the array methods of module Engine are
    proved against. */
module Rules {

  /** A cell as the program stores it: an unsigned 8-bit value.  Zero is a
      dead cell; the program tests cells for truth, so any other value is
      a live one. */
  type Byte = x: int | 0 <= x < 256

  /** One generation, row by row. */
  type Grid = seq<seq<Byte>>

  /** A grid with at least one row, at least one column and rows of equal length. */
  predicate IsGrid(g: Grid) {
    |g| > 0 && |g[0]| > 0 && forall i :: 0 <= i < |g| ==> |g[i]| == |g[0]|
  }

  /** The number of columns of a grid. */
  function Cols(g: Grid): nat
    requires |g| > 0
  {
    |g[0]|
  }

  /** A grid of the given shape. */
  predicate HasShape(g: Grid, rows: nat, cols: nat) {
    IsGrid(g) && |g| == rows && Cols(g) == cols
  }

  predicate InGrid(g: Grid, row: int, col: int)
    requires IsGrid(g)
  {
    0 <= row < |g| && 0 <= col < Cols(g)
  }

  /** An offset to one of the eight neighbours, or (0, 0) for the cell itself. */
  predicate IsOffset(dr: int, dc: int) {
    -1 <= dr <= 1 && -1 <= dc <= 1
  }

  /** The program's fixed dimensions: a 1600 by 900 pixel window of cells
      two pixels wide. */
  const WindowWidth: nat := 1600
  const WindowHeight: nat := 900
  const CellSize: nat := 2
  const Columns: nat := WindowWidth / CellSize
  const Rows: nat := WindowHeight / CellSize

  /** The program's grid is 450 rows by 800 columns: large enough that
      neither axis wraps a neighbour onto the cell itself. */
  lemma ProgramGridSize()
    ensures Rows == 450 && Columns == 800
    ensures Rows >= 3 && Columns >= 3
  {
  }

  /** The index `d` steps away from `i` on a ring of `n` positions: one
      step before the first position is the last, one step after the last
      is the first. */
  function Wrap(i: int, d: int, n: int): (w: int)
    requires n > 0 && 0 <= i < n && -1 <= d <= 1
    ensures 0 <= w < n
    ensures w == i <==> d == 0 || n == 1
  {
    if i + d < 0 then n - 1 else if i + d >= n then 0 else i + d
  }

  /** The program computes the wrapped index as `(i + d + n) % n`.  The sum
      is never negative, so the truncating remainder of the program and the
      Euclidean remainder agree, and the result is the wrapped index, in
      [0, n). */
  lemma WrapIsRemainder(i: int, d: int, n: int)
    requires n > 0 && 0 <= i < n && -1 <= d <= 1
    ensures 0 <= i + d + n
    ensures (i + d + n) % n == Wrap(i, d, n)
    ensures 0 <= (i + d + n) % n < n
  {
  }

  /** In the program `i + d` is an `int` and `n` a `Uint32`, so `i + d` is
      converted to unsigned before `n` is added, and the sum wraps modulo
      2^32: -1 becomes 2^32 - 1, and adding `n` wraps back to n - 1.  For any
      `n` below 2^31 the unsigned sum is the mathematical sum, in [n - 1, 2n]. */
  lemma UnsignedSumIsExact(i: int, d: int, n: int)
    requires 0 < n < 0x8000_0000 && 0 <= i < n && -1 <= d <= 1
    ensures ((i + d) % 0x1_0000_0000 + n) % 0x1_0000_0000 == i + d + n
    ensures n - 1 <= i + d + n <= 2 * n
  {
    if i + d < 0 {
      assert (i + d) % 0x1_0000_0000 == 0xFFFF_FFFF;
      assert (0xFFFF_FFFF + n) % 0x1_0000_0000 == n - 1;
    }
  }

  /** The program's wrapped index `(i + d + n) % n`, which is the wrapped index. */
  function WrappedIndex(i: int, d: int, n: int): (w: int)
    requires n > 0 && 0 <= i < n && -1 <= d <= 1
    ensures w == Wrap(i, d, n)
  {
    WrapIsRemainder(i, d, n);
    (i + d + n) % n
  }

  /** The neighbour at offset (dr, dc) of cell (row, col), wrapped on both axes, is alive. */
  predicate LiveAt(g: Grid, row: int, col: int, dr: int, dc: int)
    requires IsGrid(g) && InGrid(g, row, col) && IsOffset(dr, dc)
    ensures LiveAt(g, row, col, dr, dc) <==>
      g[WrappedIndex(row, dr, |g|)][WrappedIndex(col, dc, Cols(g))] != 0
  {
    g[Wrap(row, dr, |g|)][Wrap(col, dc, Cols(g))] != 0
  }

  /** The contribution of offset (dr, dc) to the neighbour count: the
      centre never counts. */
  function Tally(g: Grid, row: int, col: int, dr: int, dc: int): (t: nat)
    requires IsGrid(g) && InGrid(g, row, col) && IsOffset(dr, dc)
    ensures t <= 1
    ensures t == 1 <==> (dr, dc) != (0, 0) && LiveAt(g, row, col, dr, dc)
  {
    if dr == 0 && dc == 0 then 0
    else if LiveAt(g, row, col, dr, dc) then 1
    else 0
  }

  /** A neighbour's contribution is 1 exactly when its wrapped cell is non-zero. */
  lemma TallyOfNeighbor(g: Grid, row: int, col: int, dr: int, dc: int)
    requires IsGrid(g) && InGrid(g, row, col) && IsOffset(dr, dc) && (dr, dc) != (0, 0)
    ensures Tally(g, row, col, dr, dc) == if g[Wrap(row, dr, |g|)][Wrap(col, dc, Cols(g))] != 0 then 1 else 0
  {
  }

  /** Live neighbours at row offset `dr` and column offsets -1 .. dcEnd - 1,
      counted in the order of the inner loop. */
  function RowCount(g: Grid, row: int, col: int, dr: int, dcEnd: int): (n: nat)
    requires IsGrid(g) && InGrid(g, row, col) && -1 <= dr <= 1 && -1 <= dcEnd <= 2
    ensures n <= dcEnd + 1
    ensures dr == 0 && dcEnd > 0 ==> n <= dcEnd
    decreases dcEnd + 1
  {
    if dcEnd == -1 then 0
    else RowCount(g, row, col, dr, dcEnd - 1) + Tally(g, row, col, dr, dcEnd - 1)
  }

  /** Live neighbours at row offsets -1 .. drEnd - 1, counted in the order of
      the outer loop. */
  function BlockCount(g: Grid, row: int, col: int, drEnd: int): (n: nat)
    requires IsGrid(g) && InGrid(g, row, col) && -1 <= drEnd <= 2
    ensures n <= 3 * (drEnd + 1) - (if drEnd > 0 then 1 else 0)
    decreases drEnd + 1
  {
    if drEnd == -1 then 0
    else BlockCount(g, row, col, drEnd - 1) + RowCount(g, row, col, drEnd - 1, 2)
  }

  /** The non-centre offsets (dr, dc), dr and dc in {-1, 0, 1}, whose wrapped cell is alive. */
  ghost function LiveNeighbors(g: Grid, row: int, col: int): (s: set<(int, int)>)
    requires IsGrid(g) && InGrid(g, row, col)
    ensures (0, 0) !in s
    ensures forall d :: d in s ==> IsOffset(d.0, d.1)
  {
    set dr, dc | -1 <= dr <= 1 && -1 <= dc <= 1 && (dr, dc) != (0, 0) && LiveAt(g, row, col, dr, dc) :: (dr, dc)
  }

  /** The number of live cells among the eight wrapped neighbours of (row, col). */
  ghost function NeighborCount(g: Grid, row: int, col: int): (n: nat)
    requires IsGrid(g) && InGrid(g, row, col)
    ensures n <= 8
  {
    NeighborCountInLoopOrder(g, row, col);
    |LiveNeighbors(g, row, col)|
  }

  /** The live offsets of one row offset, columns -1 .. dcEnd - 1. */
  ghost function RowSet(g: Grid, row: int, col: int, dr: int, dcEnd: int): set<(int, int)>
    requires IsGrid(g) && InGrid(g, row, col) && -1 <= dr <= 1
  {
    set dc | -1 <= dc < dcEnd && dc <= 1 && (dr, dc) != (0, 0) && LiveAt(g, row, col, dr, dc) :: (dr, dc)
  }

  /** The live offsets of row offsets -1 .. drEnd - 1. */
  ghost function BlockSet(g: Grid, row: int, col: int, drEnd: int): set<(int, int)>
    requires IsGrid(g) && InGrid(g, row, col)
  {
    set dr, dc | -1 <= dr < drEnd && dr <= 1 && -1 <= dc <= 1 && (dr, dc) != (0, 0) && LiveAt(g, row, col, dr, dc) :: (dr, dc)
  }

  lemma {:induction false} RowCountIsRowSet(g: Grid, row: int, col: int, dr: int, dcEnd: int)
    requires IsGrid(g) && InGrid(g, row, col) && -1 <= dr <= 1 && -1 <= dcEnd <= 2
    ensures RowCount(g, row, col, dr, dcEnd) == |RowSet(g, row, col, dr, dcEnd)|
    decreases dcEnd + 1
  {
    if dcEnd == -1 {
      assert RowSet(g, row, col, dr, dcEnd) == {};
    } else {
      RowCountIsRowSet(g, row, col, dr, dcEnd - 1);
      var prev := RowSet(g, row, col, dr, dcEnd - 1);
      var last := if Tally(g, row, col, dr, dcEnd - 1) == 1 then {(dr, dcEnd - 1)} else {};
      forall d | d in RowSet(g, row, col, dr, dcEnd)
        ensures d in prev + last
      {
        if d.1 == dcEnd - 1 { assert d in last; } else { assert d in prev; }
      }
      assert RowSet(g, row, col, dr, dcEnd) == prev + last;
      assert (dr, dcEnd - 1) !in prev;
    }
  }

  lemma {:induction false} BlockCountIsBlockSet(g: Grid, row: int, col: int, drEnd: int)
    requires IsGrid(g) && InGrid(g, row, col) && -1 <= drEnd <= 2
    ensures BlockCount(g, row, col, drEnd) == |BlockSet(g, row, col, drEnd)|
    decreases drEnd + 1
  {
    if drEnd == -1 {
      assert BlockSet(g, row, col, drEnd) == {};
    } else {
      BlockCountIsBlockSet(g, row, col, drEnd - 1);
      RowCountIsRowSet(g, row, col, drEnd - 1, 2);
      var prev := BlockSet(g, row, col, drEnd - 1);
      var last := RowSet(g, row, col, drEnd - 1, 2);
      forall d | d in BlockSet(g, row, col, drEnd)
        ensures d in prev + last
      {
        if d.0 == drEnd - 1 { assert d in last; } else { assert d in prev; }
      }
      assert BlockSet(g, row, col, drEnd) == prev + last;
      forall d | d in last ensures d !in prev { }
      assert |prev + last| == |prev| + |last|;
    }
  }

  /** Counting the offsets in the order of the program's two loops, row
      offset outside and column offset inside, skipping the centre, gives
      the number of live neighbours. */
  lemma NeighborCountInLoopOrder(g: Grid, row: int, col: int)
    requires IsGrid(g) && InGrid(g, row, col)
    ensures |LiveNeighbors(g, row, col)| == BlockCount(g, row, col, 2)
  {
    BlockCountIsBlockSet(g, row, col, 2);
    assert BlockSet(g, row, col, 2) == LiveNeighbors(g, row, col);
  }

  /** The grid `g` with cell (row, col) set to `v`. */
  function WithCell(g: Grid, row: int, col: int, v: Byte): (h: Grid)
    requires IsGrid(g) && InGrid(g, row, col)
    ensures HasShape(h, |g|, Cols(g))
    ensures forall r, c :: InGrid(g, r, c) ==> h[r][c] == if (r, c) == (row, col) then v else g[r][c]
  {
    var line: seq<Byte> := g[row][col := v];
    g[row := line]
  }

  /** On a grid of at least two rows and two columns no neighbour offset
      wraps onto the cell itself, so the cell's own value never enters its
      count. */
  lemma CountIgnoresOwnCell(g: Grid, row: int, col: int, v: Byte)
    requires IsGrid(g) && InGrid(g, row, col) && |g| >= 2 && Cols(g) >= 2
    ensures NeighborCount(WithCell(g, row, col, v), row, col) == NeighborCount(g, row, col)
  {
    var h := WithCell(g, row, col, v);
    assert forall dr, dc :: IsOffset(dr, dc) && (dr, dc) != (0, 0) ==>
      LiveAt(h, row, col, dr, dc) == LiveAt(g, row, col, dr, dc);
    assert LiveNeighbors(h, row, col) == LiveNeighbors(g, row, col);
  }

  /** On a grid of at least three rows and three columns the eight offsets
      reach eight different cells. */
  lemma NeighborsDistinct(g: Grid, row: int, col: int, dr: int, dc: int, er: int, ec: int)
    requires IsGrid(g) && InGrid(g, row, col) && |g| >= 3 && Cols(g) >= 3
    requires IsOffset(dr, dc) && IsOffset(er, ec) && (dr, dc) != (er, ec)
    ensures (Wrap(row, dr, |g|), Wrap(col, dc, Cols(g))) != (Wrap(row, er, |g|), Wrap(col, ec, Cols(g)))
  {
  }

  /** On the program's 450 by 800 grid the eight offsets of every cell
      reach eight different cells. */
  lemma ProgramNeighborsDistinct(g: Grid, row: int, col: int, dr: int, dc: int, er: int, ec: int)
    requires HasShape(g, Rows, Columns) && InGrid(g, row, col)
    requires IsOffset(dr, dc) && IsOffset(er, ec) && (dr, dc) != (er, ec)
    ensures (Wrap(row, dr, |g|), Wrap(col, dc, Cols(g))) != (Wrap(row, er, |g|), Wrap(col, ec, Cols(g)))
  {
  }

  /** On a one-by-one grid every offset wraps onto the cell itself: the
      count of a lone live cell is eight. */
  lemma SingleCellCountsItself()
    ensures NeighborCount([[1]], 0, 0) == 8
  {
    var g: Grid := [[1]];
    forall dr, dc | IsOffset(dr, dc) ensures Wrap(0, dr, 1) == 0 && Wrap(0, dc, 1) == 0 { }
    assert RowCount(g, 0, 0, 0, 2) == 2;
    NeighborCountInLoopOrder(g, 0, 0);
  }

  /** Conway's rule for one cell with `n` live neighbours, branch for branch
      as the program decides it. */
  function NextCell(cell: Byte, n: nat): (s: Byte)
    ensures s == 0 || s == 1
    ensures s == 1 <==> (cell != 0 && 2 <= n <= 3) || (cell == 0 && n == 3)
  {
    if cell != 0 then
      if n < 2 || n > 3 then 0 else 1
    else
      if n == 3 then 1 else 0
  }

  /** The next generation: every cell decided from the current generation only. */
  ghost function Next(g: Grid): (h: Grid)
    requires IsGrid(g)
    ensures HasShape(h, |g|, Cols(g))
    ensures forall r, c :: 0 <= r < |h| && 0 <= c < |h[r]| ==> h[r][c] == 0 || h[r][c] == 1
  {
    seq(|g|, r requires 0 <= r < |g| =>
      seq(Cols(g), c requires 0 <= c < Cols(g) => NextCell(g[r][c], NeighborCount(g, r, c))))
  }

  /** A grid whose every cell follows the rule from the cells of `g` is the
      next generation of `g`. */
  lemma IsNext(g: Grid, h: Grid)
    requires IsGrid(g) && |h| == |g| && forall r :: 0 <= r < |h| ==> |h[r]| == Cols(g)
    requires forall r, c :: InGrid(g, r, c) ==> h[r][c] == NextCell(g[r][c], NeighborCount(g, r, c))
    ensures h == Next(g)
  {
    SameCells(h, Next(g));
  }

  /** A live cell lives on exactly when it has two or three live neighbours,
      and is 0 otherwise. */
  lemma SurvivalRule(g: Grid, r: int, c: int)
    requires IsGrid(g) && InGrid(g, r, c) && g[r][c] != 0
    ensures Next(g)[r][c] == if NeighborCount(g, r, c) in {2, 3} then 1 else 0
  {
  }

  /** A dead cell comes alive exactly when it has three live neighbours,
      and stays 0 otherwise. */
  lemma BirthRule(g: Grid, r: int, c: int)
    requires IsGrid(g) && InGrid(g, r, c) && g[r][c] == 0
    ensures Next(g)[r][c] == if NeighborCount(g, r, c) == 3 then 1 else 0
  {
  }

  /** The all-dead grid of a shape. */
  function Dead(rows: nat, cols: nat): (g: Grid)
    requires rows > 0 && cols > 0
    ensures HasShape(g, rows, cols)
    ensures forall r, c :: 0 <= r < rows && 0 <= c < cols ==> g[r][c] == 0
  {
    seq(rows, _ => seq(cols, _ => 0))
  }

  /** A grid has no live neighbours anywhere when all its cells are dead. */
  lemma {:induction false} NoLiveNeighbors(g: Grid, row: int, col: int)
    requires IsGrid(g) && InGrid(g, row, col)
    requires forall r, c :: 0 <= r < |g| && 0 <= c < |g[r]| ==> g[r][c] == 0
    ensures NeighborCount(g, row, col) == 0
  {
    assert LiveNeighbors(g, row, col) == {};
  }

  /** An all-dead grid stays all-dead for one generation. */
  lemma AllDeadStaysDead(rows: nat, cols: nat)
    requires rows > 0 && cols > 0
    ensures Next(Dead(rows, cols)) == Dead(rows, cols)
  {
    var g := Dead(rows, cols);
    forall r, c | 0 <= r < rows && 0 <= c < cols
      ensures Next(g)[r][c] == 0
    {
      NoLiveNeighbors(g, r, c);
    }
    SameCells(Next(g), g);
  }

  /** Two grids with rows of the same lengths and the same cells are the same grid. */
  lemma SameCells(g: Grid, h: Grid)
    requires |g| == |h| && forall r :: 0 <= r < |g| ==> |g[r]| == |h[r]|
    requires forall r, c :: 0 <= r < |g| && 0 <= c < |g[r]| ==> g[r][c] == h[r][c]
    ensures g == h
  {
    forall r | 0 <= r < |g| ensures g[r] == h[r] {
      assert |g[r]| == |h[r]|;
    }
  }

  /** The grid after `k` generations. */
  ghost function Iterate(g: Grid, k: nat): (h: Grid)
    requires IsGrid(g)
    ensures HasShape(h, |g|, Cols(g))
    decreases k
  {
    if k == 0 then g else Iterate(Next(g), k - 1)
  }

  /** A grid that one generation leaves unchanged stays unchanged for any
      number of generations. */
  lemma {:induction false} FixedPointStays(g: Grid, k: nat)
    requires IsGrid(g) && Next(g) == g
    ensures Iterate(g, k) == g
    decreases k
  {
    if k > 0 {
      FixedPointStays(g, k - 1);
    }
  }

  /** An all-dead grid stays all-dead for any number of generations. */
  lemma AllDeadStaysDeadForever(rows: nat, cols: nat, k: nat)
    requires rows > 0 && cols > 0
    ensures Iterate(Dead(rows, cols), k) == Dead(rows, cols)
  {
    AllDeadStaysDead(rows, cols);
    FixedPointStays(Dead(rows, cols), k);
  }

  /** The cell value the program seeds from one random draw: alive when the
      draw modulo 100 is below 10, that is about one cell in ten. */
  function Seed(draw: nat): (b: Byte)
    ensures b == 0 || b == 1
    ensures b == 1 <==> draw % 100 < 10
  {
    if draw % 100 < 10 then 1 else 0
  }

  /** The index of the draw that seeds cell (r, c) when the cells are seeded
      row by row. */
  function DrawIndex(first: nat, cols: nat, r: nat, c: nat): (i: nat)
    ensures c < cols ==> first + r * cols <= i < first + (r + 1) * cols
  {
    first + r * cols + c
  }

  /** Row-major seeding gives every cell of a row of `cols` cells its own draw. */
  lemma DrawIndexDistinct(first: nat, cols: nat, r: nat, c: nat, r': nat, c': nat)
    requires c < cols && c' < cols && (r, c) != (r', c')
    ensures DrawIndex(first, cols, r, c) != DrawIndex(first, cols, r', c')
  {
    if r < r' {
      ProductMonotone(r + 1, r', cols);
    } else if r' < r {
      ProductMonotone(r' + 1, r, cols);
    }
  }

  lemma ProductMonotone(a: nat, b: nat, k: nat)
    requires a <= b
    ensures a * k <= b * k
  {
    assert b * k == a * k + (b - a) * k;
  }

  /** The grid `g` moved `a` rows down and `b` columns right, with a and b
      in {-1, 0, 1}, cells leaving one edge coming back in at the other. */
  function Shift(g: Grid, a: int, b: int): (h: Grid)
    requires IsGrid(g) && IsOffset(a, b)
    ensures HasShape(h, |g|, Cols(g))
    ensures forall r, c :: InGrid(g, r, c) ==> h[r][c] == g[Wrap(r, -a, |g|)][Wrap(c, -b, Cols(g))]
  {
    seq(|g|, r requires 0 <= r < |g| =>
      seq(Cols(g), c requires 0 <= c < Cols(g) => g[Wrap(r, -a, |g|)][Wrap(c, -b, Cols(g))]))
  }

  /** Two steps around a ring can be taken in either order. */
  lemma WrapCommutes(i: int, d: int, e: int, n: int)
    requires n > 0 && 0 <= i < n && -1 <= d <= 1 && -1 <= e <= 1
    ensures Wrap(Wrap(i, d, n), e, n) == Wrap(Wrap(i, e, n), d, n)
  {
  }

  /** The neighbour of a shifted cell is the shifted neighbour. */
  lemma ShiftKeepsNeighbor(g: Grid, a: int, b: int, r: int, c: int, dr: int, dc: int)
    requires IsGrid(g) && IsOffset(a, b) && InGrid(g, r, c) && IsOffset(dr, dc)
    ensures LiveAt(Shift(g, a, b), r, c, dr, dc) == LiveAt(g, Wrap(r, -a, |g|), Wrap(c, -b, Cols(g)), dr, dc)
  {
    WrapCommutes(r, dr, -a, |g|);
    WrapCommutes(c, dc, -b, Cols(g));
  }

  /** Shifting moves each cell's neighbourhood with it. */
  lemma ShiftKeepsCounts(g: Grid, a: int, b: int, r: int, c: int)
    requires IsGrid(g) && IsOffset(a, b) && InGrid(g, r, c)
    ensures NeighborCount(Shift(g, a, b), r, c) == NeighborCount(g, Wrap(r, -a, |g|), Wrap(c, -b, Cols(g)))
  {
    var h := Shift(g, a, b);
    var r', c' := Wrap(r, -a, |g|), Wrap(c, -b, Cols(g));
    forall d | d in LiveNeighbors(h, r, c) ensures d in LiveNeighbors(g, r', c') {
      ShiftKeepsNeighbor(g, a, b, r, c, d.0, d.1);
    }
    forall d | d in LiveNeighbors(g, r', c') ensures d in LiveNeighbors(h, r, c) {
      ShiftKeepsNeighbor(g, a, b, r, c, d.0, d.1);
    }
    assert LiveNeighbors(h, r, c) == LiveNeighbors(g, r', c');
  }

  /** The torus has no edge: stepping a shifted generation gives the
      shifted next generation.  A pattern evolves the same wherever it sits. */
  lemma NextCommutesWithShift(g: Grid, a: int, b: int)
    requires IsGrid(g) && IsOffset(a, b)
    ensures Next(Shift(g, a, b)) == Shift(Next(g), a, b)
  {
    var h := Shift(g, a, b);
    forall r, c | InGrid(g, r, c)
      ensures Shift(Next(g), a, b)[r][c] == NextCell(h[r][c], NeighborCount(h, r, c))
    {
      ShiftKeepsCounts(g, a, b, r, c);
    }
    IsNext(h, Shift(Next(g), a, b));
  }

  /** Shifting commutes with any number of generations: a shifted pattern
      stays the shifted copy of the original. */
  lemma {:induction false} IterateCommutesWithShift(g: Grid, a: int, b: int, k: nat)
    requires IsGrid(g) && IsOffset(a, b)
    ensures Iterate(Shift(g, a, b), k) == Shift(Iterate(g, k), a, b)
    decreases k
  {
    if k > 0 {
      NextCommutesWithShift(g, a, b);
      IterateCommutesWithShift(Next(g), a, b, k - 1);
    }
  }
}
