/** Worked examples on small tori: the wrap across a corner, and a block
    of four live cells that never changes. */
module Patterns {
  import opened Rules

  /** A three-by-three grid whose only live cell is (0, 0). */
  function Corner(): (g: Grid)
    ensures HasShape(g, 3, 3)
  {
    [[1, 0, 0], [0, 0, 0], [0, 0, 0]]
  }

  /** The wrap works on both axes at once: (0, 0) is the neighbour of
      (2, 2) at offset (1, 1), across the corner of the torus, and its only
      live one. */
  lemma {:induction false} CornerWrapsDiagonally()
    ensures Wrap(2, 1, 3) == 0 && LiveAt(Corner(), 2, 2, 1, 1)
    ensures NeighborCount(Corner(), 2, 2) == 1
  {
    NeighborCountInLoopOrder(Corner(), 2, 2);
  }

  /** A two-by-two block of live cells in the corner of a four-by-four
      torus. */
  function Block(): (g: Grid)
    ensures HasShape(g, 4, 4)
  {
    [[1, 1, 0, 0], [1, 1, 0, 0], [0, 0, 0, 0], [0, 0, 0, 0]]
  }

  // The neighbour count of each cell of the block grid, one cell per lemma.

  lemma {:induction false} BlockNeighbors00()
    ensures NeighborCount(Block(), 0, 0) == 3
  {
    NeighborCountInLoopOrder(Block(), 0, 0);
  }

  lemma {:induction false} BlockNeighbors01()
    ensures NeighborCount(Block(), 0, 1) == 3
  {
    NeighborCountInLoopOrder(Block(), 0, 1);
  }

  lemma {:induction false} BlockNeighbors02()
    ensures NeighborCount(Block(), 0, 2) == 2
  {
    NeighborCountInLoopOrder(Block(), 0, 2);
  }

  lemma {:induction false} BlockNeighbors03()
    ensures NeighborCount(Block(), 0, 3) == 2
  {
    NeighborCountInLoopOrder(Block(), 0, 3);
  }

  lemma {:induction false} BlockNeighbors10()
    ensures NeighborCount(Block(), 1, 0) == 3
  {
    NeighborCountInLoopOrder(Block(), 1, 0);
  }

  lemma {:induction false} BlockNeighbors11()
    ensures NeighborCount(Block(), 1, 1) == 3
  {
    NeighborCountInLoopOrder(Block(), 1, 1);
  }

  lemma {:induction false} BlockNeighbors12()
    ensures NeighborCount(Block(), 1, 2) == 2
  {
    NeighborCountInLoopOrder(Block(), 1, 2);
  }

  lemma {:induction false} BlockNeighbors13()
    ensures NeighborCount(Block(), 1, 3) == 2
  {
    NeighborCountInLoopOrder(Block(), 1, 3);
  }

  lemma {:induction false} BlockNeighbors20()
    ensures NeighborCount(Block(), 2, 0) == 2
  {
    NeighborCountInLoopOrder(Block(), 2, 0);
  }

  lemma {:induction false} BlockNeighbors21()
    ensures NeighborCount(Block(), 2, 1) == 2
  {
    NeighborCountInLoopOrder(Block(), 2, 1);
  }

  lemma {:induction false} BlockNeighbors22()
    ensures NeighborCount(Block(), 2, 2) == 1
  {
    NeighborCountInLoopOrder(Block(), 2, 2);
  }

  lemma {:induction false} BlockNeighbors23()
    ensures NeighborCount(Block(), 2, 3) == 1
  {
    NeighborCountInLoopOrder(Block(), 2, 3);
  }

  lemma {:induction false} BlockNeighbors30()
    ensures NeighborCount(Block(), 3, 0) == 2
  {
    NeighborCountInLoopOrder(Block(), 3, 0);
  }

  lemma {:induction false} BlockNeighbors31()
    ensures NeighborCount(Block(), 3, 1) == 2
  {
    NeighborCountInLoopOrder(Block(), 3, 1);
  }

  lemma {:induction false} BlockNeighbors32()
    ensures NeighborCount(Block(), 3, 2) == 1
  {
    NeighborCountInLoopOrder(Block(), 3, 2);
  }

  lemma {:induction false} BlockNeighbors33()
    ensures NeighborCount(Block(), 3, 3) == 1
  {
    NeighborCountInLoopOrder(Block(), 3, 3);
  }

  /** The block is a still life: every live cell has three live neighbours
      and no dead cell has exactly three. */
  lemma BlockIsStill()
    ensures Next(Block()) == Block()
  {
    var g := Block();
    forall r, c | 0 <= r < 4 && 0 <= c < 4
      ensures g[r][c] == NextCell(g[r][c], NeighborCount(g, r, c))
    {
      if r == 0 {
        if c == 0 { BlockNeighbors00(); } else if c == 1 { BlockNeighbors01(); } else if c == 2 { BlockNeighbors02(); } else { BlockNeighbors03(); }
      } else if r == 1 {
        if c == 0 { BlockNeighbors10(); } else if c == 1 { BlockNeighbors11(); } else if c == 2 { BlockNeighbors12(); } else { BlockNeighbors13(); }
      } else if r == 2 {
        if c == 0 { BlockNeighbors20(); } else if c == 1 { BlockNeighbors21(); } else if c == 2 { BlockNeighbors22(); } else { BlockNeighbors23(); }
      } else {
        if c == 0 { BlockNeighbors30(); } else if c == 1 { BlockNeighbors31(); } else if c == 2 { BlockNeighbors32(); } else { BlockNeighbors33(); }
      }
    }
    IsNext(g, g);
  }

  /** The block stays the same for any number of generations. */
  lemma BlockStaysForever(k: nat)
    ensures Iterate(Block(), k) == Block()
  {
    BlockIsStill();
    FixedPointStays(Block(), k);
  }
}
