/**
 * Behaviour of the rules on particular grids: the multiplicity of wrapped
 * neighbours on small grids, and two classic patterns on the torus.
 */
module LifePatterns {
  import opened LifeRules

  /**
   * On a 1-by-1 grid every one of the eight offsets wraps back to the cell
   * itself, so a live cell has 8 live neighbours and a dead one has none.
   */
  lemma OneByOneCountsEightfold(g: Grid)
    requires IsSquare(g, 1)
    ensures NeighbourCount(g, 1, 0, 0) == if g[0][0] then 8 else 0
  {
    NeighbourCountIsSum(g, 1, 0, 0);
  }

  /**
   * From a side of 2 on, no offset other than (0, 0) wraps back to the cell
   * itself, so the cell's own state does not enter its count. Only on a
   * 1-by-1 grid does the cell count itself.
   */
  lemma NeighbourCountIgnoresSelf(g: Grid, n: int, r: int, c: int, v: bool)
    requires n >= 2 && IsSquare(g, n) && 0 <= r < n && 0 <= c < n
    ensures IsSquare(g[r := g[r][c := v]], n)
    ensures NeighbourCount(g[r := g[r][c := v]], n, r, c) == NeighbourCount(g, n, r, c)
  {
    var h := g[r := g[r][c := v]];
    forall dr, dc | -1 <= dr <= 1 && -1 <= dc <= 1 && (dr, dc) != (0, 0)
      ensures LiveAt(h, n, r, c, dr, dc) == LiveAt(g, n, r, c, dr, dc)
    {
      WrapMovesOnLargeGrids(r, dr, n);
      WrapMovesOnLargeGrids(c, dc, n);
    }
    NeighbourCountIsSum(g, n, r, c);
    NeighbourCountIsSum(h, n, r, c);
  }

  /** From a side of 2 on, a nonzero step never wraps back to where it started. */
  lemma WrapMovesOnLargeGrids(x: int, d: int, n: int)
    requires n >= 2 && 0 <= x < n && -1 <= d <= 1
    ensures Wrap(x, d, n) == x <==> d == 0
  {
  }

  /** A 2-by-2 grid with every cell alive. */
  function Full2(): Grid {
    seq(2, i => seq(2, j => true))
  }

  /**
   * On a 2-by-2 grid only three distinct cells neighbour (0, 0), yet all
   * eight offsets reach a live cell and each is counted: the count is 8.
   */
  lemma TwoByTwoCountsPerOffset()
    ensures NeighbourCount(Full2(), 2, 0, 0) == 8
    ensures forall dr, dc | -1 <= dr <= 1 && -1 <= dc <= 1 && (dr, dc) != (0, 0) ::
      (Wrap(0, dr, 2), Wrap(0, dc, 2)) in {(0, 1), (1, 0), (1, 1)}
  {
    NeighbourCountIsSum(Full2(), 2, 0, 0);
  }

  /** A 3-by-3 grid whose only live cell is the corner (0, 0). */
  function CornerCell(): Grid {
    seq(3, i => seq(3, j => i == 0 && j == 0))
  }

  /** The opposite corner (2, 2) reaches (0, 0) through the offset (1, 1) by wrapping both ways. */
  lemma CornerSeenAcrossBothEdges()
    ensures NeighbourCount(CornerCell(), 3, 2, 2) == 1
    ensures IsLiveNeighbour(CornerCell(), 3, 2, 2, 1, 1)
  {
    NeighbourCountIsSum(CornerCell(), 3, 2, 2);
  }

  /** A 3-by-3 grid with no live cell. */
  function Empty3(): Grid {
    seq(3, i => seq(3, j => false))
  }

  /**
   * On the 3-by-3 torus every other cell is adjacent to (0, 0) through
   * exactly one offset, while (0, 0) itself sees no live cell.
   */
  lemma CornerNeighbours(i: int, j: int)
    requires 0 <= i < 3 && 0 <= j < 3
    ensures NeighbourCount(CornerCell(), 3, i, j) == if i == 0 && j == 0 then 0 else 1
  {
    NeighbourCountIsSum(CornerCell(), 3, i, j);
    if i == 0 {
    } else if i == 1 {
    } else {
    }
  }

  /** A lone live cell has no live neighbour and dies; every other cell sees one and stays dead. */
  lemma LoneCellDies()
    ensures Step(CornerCell(), 3) == Empty3()
    ensures LiveCount(Step(CornerCell(), 3)) == 0
  {
    forall i, j | 0 <= i < 3 && 0 <= j < 3
      ensures NextState(CornerCell()[i][j], NeighbourCount(CornerCell(), 3, i, j)) == Empty3()[i][j]
    {
      CornerNeighbours(i, j);
    }
    StepIs(CornerCell(), 3, Empty3());
  }

  /** A 4-by-4 grid holding the 2-by-2 block in its middle. */
  function Block(): Grid {
    seq(4, i => seq(4, j => 1 <= i <= 2 && 1 <= j <= 2))
  }

  /** The block is a still life: each of its cells has 3 live neighbours, no other cell has 3. */
  lemma BlockIsStill()
    ensures Step(Block(), 4) == Block()
  {
    forall i, j | 0 <= i < 4 && 0 <= j < 4
      ensures NextState(Block()[i][j], NeighbourCount(Block(), 4, i, j)) == Block()[i][j]
    {
      BlockNeighbours(i, j);
    }
    StepIs(Block(), 4, Block());
  }

  /** Cells of the block see 3 live neighbours; every other cell sees at most 2. */
  lemma BlockNeighbours(i: int, j: int)
    requires 0 <= i < 4 && 0 <= j < 4
    ensures Block()[i][j] ==> NeighbourCount(Block(), 4, i, j) == 3
    ensures !Block()[i][j] ==> NeighbourCount(Block(), 4, i, j) <= 2
  {
    NeighbourCountIsSum(Block(), 4, i, j);
    if i == 0 {
    } else if i == 1 {
    } else if i == 2 {
    } else {
    }
  }
}
