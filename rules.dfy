/**
 * The rules of the toroidal Game of Life as pure functions: wrapped
 * coordinates, neighbour counting, the B3/S23 cell transition, one
 * synchronous generation, and the number of live cells of a grid.
 * The class in universe.dfy is proved against these definitions.
 */
module LifeRules {

  /** A grid of cells, row by row; `true` is alive ("O"), `false` dead (" "). */
  type Grid = seq<seq<bool>>

  /** g has exactly n rows of exactly n cells each. */
  predicate IsSquare(g: Grid, n: int) {
    |g| == n && forall i :: 0 <= i < |g| ==> |g[i]| == n
  }

  // ---------------------------------------------------------------------
  // Toroidal coordinates
  // ---------------------------------------------------------------------

  /** The coordinate reached from x by the offset d on a torus of side n: one step past an edge re-enters at the other. */
  function Wrap(x: int, d: int, n: int): (w: int)
    requires 0 <= x < n && -1 <= d <= 1
    ensures 0 <= w < n
    ensures d == 0 ==> w == x
  {
    if x + d < 0 then n - 1 else if x + d >= n then 0 else x + d
  }

  /**
   * The index arithmetic of the original, `(x + d + n) % n`, is the torus
   * coordinate: it lies in [0, n) and is x + d wrapped at both edges. Adding
   * n first keeps the dividend non-negative, so the truncating `%` of the
   * original and Dafny's Euclidean `%` agree.
   */
  lemma WrapIsMod(x: int, d: int, n: int)
    requires 0 <= x < n && -1 <= d <= 1
    ensures 0 <= (x + d + n) % n < n
    ensures (x + d + n) % n == Wrap(x, d, n)
  {
  }

  // ---------------------------------------------------------------------
  // Neighbour counting
  // ---------------------------------------------------------------------

  /** The cell at offset (dr, dc) from (r, c), wrapped, is alive and is not (r, c)'s own offset (0, 0). */
  predicate IsLiveNeighbour(g: Grid, n: int, r: int, c: int, dr: int, dc: int)
    requires IsSquare(g, n) && 0 <= r < n && 0 <= c < n
    requires -1 <= dr <= 1 && -1 <= dc <= 1
  {
    (dr, dc) != (0, 0) && g[Wrap(r, dr, n)][Wrap(c, dc, n)]
  }

  /** The offsets in {-1, 0, 1}² \ {(0, 0)} whose wrapped cell is alive. */
  ghost function LiveOffsets(g: Grid, n: int, r: int, c: int): set<(int, int)>
    requires IsSquare(g, n) && 0 <= r < n && 0 <= c < n
  {
    set dr, dc | -1 <= dr <= 1 && -1 <= dc <= 1 && IsLiveNeighbour(g, n, r, c, dr, dc) :: (dr, dc)
  }

  /**
   * The number of live neighbours of (r, c): the number of offsets whose
   * wrapped cell is alive. A cell reached through several offsets (on a
   * grid of side 1 or 2) is counted once per offset.
   */
  ghost function NeighbourCount(g: Grid, n: int, r: int, c: int): (k: nat)
    requires IsSquare(g, n) && 0 <= r < n && 0 <= c < n
    ensures k <= 8
  {
    LiveOffsetsBound(g, n, r, c, 2, -1);
    assert LiveOffsetsBefore(g, n, r, c, 2, -1) == LiveOffsets(g, n, r, c);
    |LiveOffsets(g, n, r, c)|
  }

  /** The live offsets strictly before (dr, dc) when dr and then dc run from -1 to 1. */
  ghost function LiveOffsetsBefore(g: Grid, n: int, r: int, c: int, dr: int, dc: int): set<(int, int)>
    requires IsSquare(g, n) && 0 <= r < n && 0 <= c < n
  {
    set dr', dc' | -1 <= dr' <= 1 && -1 <= dc' <= 1 && (dr' < dr || (dr' == dr && dc' < dc))
      && IsLiveNeighbour(g, n, r, c, dr', dc') :: (dr', dc')
  }

  /** Scanning one more offset within a row adds it when it is a live neighbour. */
  lemma LiveOffsetsBeforeNextColumn(g: Grid, n: int, r: int, c: int, dr: int, dc: int)
    requires IsSquare(g, n) && 0 <= r < n && 0 <= c < n
    requires -1 <= dr <= 1 && -1 <= dc <= 1
    ensures (dr, dc) !in LiveOffsetsBefore(g, n, r, c, dr, dc)
    ensures LiveOffsetsBefore(g, n, r, c, dr, dc + 1) ==
      LiveOffsetsBefore(g, n, r, c, dr, dc) + (if IsLiveNeighbour(g, n, r, c, dr, dc) then {(dr, dc)} else {})
  {
  }

  /**
   * One step of the scan in counting terms: the count grows by one exactly
   * when the offset is not the cell itself and the wrapped cell (x, y) is live.
   */
  lemma LiveOffsetsCountNextColumn(g: Grid, n: int, r: int, c: int, dr: int, dc: int, x: int, y: int)
    requires IsSquare(g, n) && 0 <= r < n && 0 <= c < n
    requires -1 <= dr <= 1 && -1 <= dc <= 1
    requires x == Wrap(r, dr, n) && y == Wrap(c, dc, n)
    ensures |LiveOffsetsBefore(g, n, r, c, dr, dc + 1)| ==
      |LiveOffsetsBefore(g, n, r, c, dr, dc)| + (if (dr, dc) != (0, 0) && g[x][y] then 1 else 0)
  {
    LiveOffsetsBeforeNextColumn(g, n, r, c, dr, dc);
  }

  /** Once every row has been scanned, the scanned offsets are all the live ones. */
  lemma LiveOffsetsBeforeEnd(g: Grid, n: int, r: int, c: int)
    requires IsSquare(g, n) && 0 <= r < n && 0 <= c < n
    ensures |LiveOffsetsBefore(g, n, r, c, 2, -1)| == NeighbourCount(g, n, r, c)
  {
    assert LiveOffsetsBefore(g, n, r, c, 2, -1) == LiveOffsets(g, n, r, c);
  }

  /** The start of a row has scanned exactly what the end of the previous row has. */
  lemma LiveOffsetsBeforeNextRow(g: Grid, n: int, r: int, c: int, dr: int)
    requires IsSquare(g, n) && 0 <= r < n && 0 <= c < n
    requires -1 <= dr <= 2
    ensures LiveOffsetsBefore(g, n, r, c, dr, -1) == LiveOffsetsBefore(g, n, r, c, dr - 1, 2)
  {
  }

  /** 1 when the wrapped cell at offset (dr, dc) from (r, c) is alive, else 0. */
  function LiveAt(g: Grid, n: int, r: int, c: int, dr: int, dc: int): nat
    requires IsSquare(g, n) && 0 <= r < n && 0 <= c < n
    requires -1 <= dr <= 1 && -1 <= dc <= 1
  {
    if g[Wrap(r, dr, n)][Wrap(c, dc, n)] then 1 else 0
  }

  /** Scanning one whole row of offsets adds that row's terms, skipping (0, 0). */
  lemma LiveOffsetsCountRow(g: Grid, n: int, r: int, c: int, dr: int)
    requires IsSquare(g, n) && 0 <= r < n && 0 <= c < n && -1 <= dr <= 1
    ensures |LiveOffsetsBefore(g, n, r, c, dr + 1, -1)| == |LiveOffsetsBefore(g, n, r, c, dr, -1)|
      + LiveAt(g, n, r, c, dr, -1) + (if dr != 0 then LiveAt(g, n, r, c, dr, 0) else 0) + LiveAt(g, n, r, c, dr, 1)
  {
    LiveOffsetsCountNextColumn(g, n, r, c, dr, -1, Wrap(r, dr, n), Wrap(c, -1, n));
    LiveOffsetsCountNextColumn(g, n, r, c, dr, 0, Wrap(r, dr, n), Wrap(c, 0, n));
    LiveOffsetsCountNextColumn(g, n, r, c, dr, 1, Wrap(r, dr, n), Wrap(c, 1, n));
    LiveOffsetsBeforeNextRow(g, n, r, c, dr + 1);
  }

  /** The eight neighbour terms written out, one per offset. */
  function NeighbourSum(g: Grid, n: int, r: int, c: int): nat
    requires IsSquare(g, n) && 0 <= r < n && 0 <= c < n
  {
    LiveAt(g, n, r, c, -1, -1) + LiveAt(g, n, r, c, -1, 0) + LiveAt(g, n, r, c, -1, 1) +
    LiveAt(g, n, r, c, 0, -1) + LiveAt(g, n, r, c, 0, 1) +
    LiveAt(g, n, r, c, 1, -1) + LiveAt(g, n, r, c, 1, 0) + LiveAt(g, n, r, c, 1, 1)
  }

  /**
   * The neighbour count is the sum of the eight offset terms: every offset
   * contributes separately, even when two offsets wrap onto the same cell.
   */
  lemma NeighbourCountIsSum(g: Grid, n: int, r: int, c: int)
    requires IsSquare(g, n) && 0 <= r < n && 0 <= c < n
    ensures NeighbourCount(g, n, r, c) == NeighbourSum(g, n, r, c)
  {
    assert LiveOffsetsBefore(g, n, r, c, -1, -1) == {};
    LiveOffsetsCountRow(g, n, r, c, -1);
    LiveOffsetsCountRow(g, n, r, c, 0);
    LiveOffsetsCountRow(g, n, r, c, 1);
    LiveOffsetsBeforeEnd(g, n, r, c);
  }

  /** The number of offsets other than (0, 0) strictly before (dr, dc) in that scan. */
  function OffsetsBefore(dr: int, dc: int): int {
    3 * (dr + 1) + (dc + 1) - (if dr > 0 || (dr == 0 && dc > 0) then 1 else 0)
  }

  /** No more live offsets are found than offsets other than (0, 0) are scanned. */
  lemma {:induction false} LiveOffsetsBound(g: Grid, n: int, r: int, c: int, dr: int, dc: int)
    requires IsSquare(g, n) && 0 <= r < n && 0 <= c < n
    requires (-1 <= dr <= 1 && -1 <= dc <= 2) || (dr, dc) == (2, -1)
    ensures |LiveOffsetsBefore(g, n, r, c, dr, dc)| <= OffsetsBefore(dr, dc)
    decreases dr, dc
  {
    if dc > -1 {
      LiveOffsetsBound(g, n, r, c, dr, dc - 1);
      LiveOffsetsCountNextColumn(g, n, r, c, dr, dc - 1, Wrap(r, dr, n), Wrap(c, dc - 1, n));
    } else if dr > -1 {
      LiveOffsetsBound(g, n, r, c, dr - 1, 2);
      LiveOffsetsBeforeNextRow(g, n, r, c, dr);
    } else {
      assert LiveOffsetsBefore(g, n, r, c, dr, dc) == {};
    }
  }

  // ---------------------------------------------------------------------
  // Cell transition and one generation
  // ---------------------------------------------------------------------

  /**
   * The state of a cell in the next generation, decided as the original
   * does: a live cell survives with 2 or 3 live neighbours, a dead cell is
   * born with exactly 3. Equivalently (B3/S23): alive next exactly when it
   * has 3 live neighbours, or 2 and is alive now.
   */
  function NextState(alive: bool, k: nat): (s: bool)
    ensures s <==> k == 3 || (alive && k == 2)
  {
    if alive then k == 2 || k == 3 else k == 3
  }

  /** Cells (i, 0) .. (i, j - 1) of the next generation, each computed from the old grid g only. */
  ghost function NextRow(g: Grid, n: int, i: int, j: int): (row: seq<bool>)
    requires IsSquare(g, n) && 0 <= i < n && 0 <= j <= n
    ensures |row| == j
  {
    if j == 0 then [] else NextRow(g, n, i, j - 1) + [NextState(g[i][j - 1], NeighbourCount(g, n, i, j - 1))]
  }

  /** Rows 0 .. i - 1 of the next generation. */
  ghost function NextRows(g: Grid, n: int, i: int): (rows: Grid)
    requires IsSquare(g, n) && 0 <= i <= n
    ensures |rows| == i && forall k :: 0 <= k < i ==> |rows[k]| == n
  {
    if i == 0 then [] else NextRows(g, n, i - 1) + [NextRow(g, n, i - 1, n)]
  }

  /** The next generation of a square grid, built row by row from the old grid. */
  ghost function Step(g: Grid, n: int): (h: Grid)
    requires IsSquare(g, n)
    ensures IsSquare(h, n)
  {
    NextRows(g, n, n)
  }

  lemma {:induction false} NextRowAt(g: Grid, n: int, i: int, j: int, k: int)
    requires IsSquare(g, n) && 0 <= i < n && 0 <= k < j <= n
    ensures NextRow(g, n, i, j)[k] == NextState(g[i][k], NeighbourCount(g, n, i, k))
  {
    if k < j - 1 {
      NextRowAt(g, n, i, j - 1, k);
    }
  }

  lemma {:induction false} NextRowsAt(g: Grid, n: int, i: int, k: int)
    requires IsSquare(g, n) && 0 <= k < i <= n
    ensures NextRows(g, n, i)[k] == NextRow(g, n, k, n)
  {
    if k < i - 1 {
      NextRowsAt(g, n, i - 1, k);
    }
  }

  /**
   * Every cell of the next generation follows the rule from the cell's
   * state and its neighbour count in the old grid: nothing computed for
   * the new generation is read back.
   */
  lemma StepAt(g: Grid, n: int, i: int, j: int)
    requires IsSquare(g, n) && 0 <= i < n && 0 <= j < n
    ensures Step(g, n)[i][j] == NextState(g[i][j], NeighbourCount(g, n, i, j))
  {
    NextRowsAt(g, n, n, i);
    NextRowAt(g, n, i, n, j);
  }

  /** The successor of g is h when every cell of h is what the rule makes of the same cell of g. */
  lemma StepIs(g: Grid, n: int, h: Grid)
    requires IsSquare(g, n) && IsSquare(h, n)
    requires forall i, j | 0 <= i < n && 0 <= j < n :: NextState(g[i][j], NeighbourCount(g, n, i, j)) == h[i][j]
    ensures Step(g, n) == h
  {
    var next := Step(g, n);
    forall i, j | 0 <= i < n && 0 <= j < n
      ensures next[i][j] == h[i][j]
    {
      StepAt(g, n, i, j);
    }
    assert forall i | 0 <= i < n :: next[i] == h[i];
  }

  /** The grid after k generations from g. */
  ghost function Generations(g: Grid, n: int, k: nat): (h: Grid)
    requires IsSquare(g, n)
    ensures IsSquare(h, n)
  {
    if k == 0 then g else Step(Generations(g, n, k - 1), n)
  }

  // ---------------------------------------------------------------------
  // Counting live cells
  // ---------------------------------------------------------------------

  /** The number of live cells among the first j cells of a row. */
  function LiveInRow(row: seq<bool>, j: int): (k: nat)
    requires 0 <= j <= |row|
    ensures k <= j
  {
    if j == 0 then 0 else LiveInRow(row, j - 1) + (if row[j - 1] then 1 else 0)
  }

  /** The number of live cells in the first i rows of a grid. */
  function LiveInRows(g: Grid, i: int): nat
    requires 0 <= i <= |g|
  {
    if i == 0 then 0 else LiveInRows(g, i - 1) + LiveInRow(g[i - 1], |g[i - 1]|)
  }

  /** The number of live cells of a grid. */
  function LiveCount(g: Grid): nat {
    LiveInRows(g, |g|)
  }

  /** The positions of the live cells of g, as a full rescan would find them. */
  ghost function LiveCells(g: Grid): set<(int, int)> {
    set r, c | 0 <= r < |g| && 0 <= c < |g[r]| && g[r][c] :: (r, c)
  }

  /** The positions of the live cells in the first i rows of g. */
  ghost function LiveCellsInRows(g: Grid, i: int): set<(int, int)> {
    set r, c | 0 <= r < i && 0 <= r < |g| && 0 <= c < |g[r]| && g[r][c] :: (r, c)
  }

  /** The positions of the live cells among the first j cells of a row standing at index r. */
  ghost function LiveCellsInRow(r: int, row: seq<bool>, j: int): set<(int, int)> {
    set c | 0 <= c < j && c < |row| && row[c] :: (r, c)
  }

  lemma {:induction false} LiveInRowIsLiveCells(r: int, row: seq<bool>, j: int)
    requires 0 <= j <= |row|
    ensures LiveInRow(row, j) == |LiveCellsInRow(r, row, j)|
  {
    if j == 0 {
      assert LiveCellsInRow(r, row, j) == {};
    } else {
      LiveInRowIsLiveCells(r, row, j - 1);
      var before := LiveCellsInRow(r, row, j - 1);
      assert (r, j - 1) !in before;
      assert LiveCellsInRow(r, row, j) == before + (if row[j - 1] then {(r, j - 1)} else {});
    }
  }

  lemma {:induction false} LiveInRowsIsLiveCells(g: Grid, i: int)
    requires 0 <= i <= |g|
    ensures LiveInRows(g, i) == |LiveCellsInRows(g, i)|
  {
    if i == 0 {
      assert LiveCellsInRows(g, i) == {};
    } else {
      LiveInRowsIsLiveCells(g, i - 1);
      var last := g[i - 1];
      LiveInRowIsLiveCells(i - 1, last, |last|);
      var before, added := LiveCellsInRows(g, i - 1), LiveCellsInRow(i - 1, last, |last|);
      assert LiveCellsInRows(g, i) == before + added;
      assert before * added == {};
    }
  }

  /** The incrementally kept count agrees with a full rescan of the grid. */
  lemma LiveCountIsLiveCells(g: Grid)
    ensures LiveCount(g) == |LiveCells(g)|
  {
    LiveInRowsIsLiveCells(g, |g|);
    assert LiveCellsInRows(g, |g|) == LiveCells(g);
  }

  lemma {:induction false} LiveInRowMonotone(row: seq<bool>, j: int)
    requires 0 <= j <= |row|
    ensures LiveInRow(row, j) <= LiveInRow(row, |row|)
    decreases |row| - j
  {
    if j < |row| {
      LiveInRowMonotone(row, j + 1);
    }
  }

  lemma {:induction false} LiveInRowsMonotone(g: Grid, i: int)
    requires 0 <= i <= |g|
    ensures LiveInRows(g, i) <= LiveCount(g)
    decreases |g| - i
  {
    if i < |g| {
      LiveInRowsMonotone(g, i + 1);
    }
  }

  /**
   * The live cells scanned before (i, j) in row-major order, plus (i, j)
   * itself, are no more than the live cells of the whole grid.
   */
  lemma ScannedCountBound(g: Grid, i: int, j: int)
    requires 0 <= i < |g| && 0 <= j < |g[i]|
    ensures LiveInRows(g, i) + LiveInRow(g[i], j) + (if g[i][j] then 1 else 0) <= LiveCount(g)
  {
    var row := g[i];
    LiveInRowMonotone(row, j + 1);
    assert LiveInRow(row, j + 1) == LiveInRow(row, j) + (if row[j] then 1 else 0);
    LiveInRowsMonotone(g, i + 1);
    assert LiveInRows(g, i + 1) == LiveInRows(g, i) + LiveInRow(row, |row|);
  }

  /**
   * The counter relation of a row-major scan that turns g into h survives one
   * more cell, when the counter moves by -1 for a death, +1 for a birth and
   * not otherwise.
   */
  lemma ScanCounterStep(g: Grid, h: Grid, i: int, j: int, before: int, after: int)
    requires 0 <= i < |g| && 0 <= i < |h| && 0 <= j < |g[i]| && j < |h[i]|
    requires before + LiveInRows(g, i) + LiveInRow(g[i], j) == LiveCount(g) + LiveInRows(h, i) + LiveInRow(h[i], j)
    requires after == if g[i][j] && !h[i][j] then before - 1 else if !g[i][j] && h[i][j] then before + 1 else before
    ensures after + LiveInRows(g, i) + LiveInRow(g[i], j + 1) == LiveCount(g) + LiveInRows(h, i) + LiveInRow(h[i], j + 1)
  {
  }
}
