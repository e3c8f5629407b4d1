/**
 * The Universe of main.go: a size-by-size toroidal grid with a generation
 * counter and a live-cell counter that is kept up to date incrementally,
 * one flip at a time, rather than by rescanning the grid.
 */
module Life {
  import opened LifeRules

  class Universe {
    var matrix: Grid
    var size: int
    var numGeneration: nat
    var numAliveCells: nat

    /**
     * The object invariant once the universe has been populated: the grid is
     * size-by-size and the counter equals the number of live cells.
     */
    ghost predicate Valid()
      reads this
    {
      size >= 1 && IsSquare(matrix, size) && numAliveCells == LiveCount(matrix)
    }

    /**
     * The struct literal of main: `size` rows that are still empty, and both
     * counters at 0. A size below 1 is a fatal error in the original, so it
     * is excluded here.
     */
    constructor (n: int)
      requires n >= 1
      ensures size == n && |matrix| == n && forall i :: 0 <= i < n ==> matrix[i] == []
      ensures numGeneration == 0 && numAliveCells == 0
    {
      matrix := seq(n, _ => []);
      size := n;
      numGeneration := 0;
      numAliveCells := 0;
    }

    /**
     * The state of one new cell given the outcome of its coin flip; a live
     * cell is counted as it is created.
     */
    method CalculateInitialState(coin: bool) returns (state: bool)
      modifies this`numAliveCells
      ensures state == coin
      ensures numAliveCells == old(numAliveCells) + (if coin then 1 else 0)
    {
      if coin {
        state := true;
        numAliveCells := numAliveCells + 1;
      } else {
        state := false;
      }
    }

    /**
     * Fills every row with fresh cells, one coin per cell in row-major
     * order, counting the live ones on top of the counter's current value.
     */
    method Populate(coins: Grid)
      requires |matrix| == size && IsSquare(coins, size)
      modifies this
      ensures size == old(size) && numGeneration == old(numGeneration)
      ensures matrix == coins
      ensures numAliveCells == old(numAliveCells) + LiveCount(matrix)
    {
      var i := 0;
      while i < size
        modifies this`matrix, this`numAliveCells
        invariant 0 <= i <= size && |matrix| == size
        invariant forall k :: 0 <= k < i ==> matrix[k] == coins[k]
        invariant numAliveCells == old(numAliveCells) + LiveInRows(coins, i)
      {
        var row := new bool[size];
        var j := 0;
        while j < size
          modifies row, this`numAliveCells
          invariant 0 <= j <= size
          invariant forall k :: 0 <= k < j ==> row[k] == coins[i][k]
          invariant numAliveCells == old(numAliveCells) + LiveInRows(coins, i) + LiveInRow(coins[i], j)
        {
          row[j] := CalculateInitialState(coins[i][j]);
          j := j + 1;
        }
        assert row[..] == coins[i];
        matrix := matrix[i := row[..]];
        i := i + 1;
      }
      assert matrix == coins;
    }

    /**
     * The number of live cells among the eight wrapped neighbours of
     * (row, col), each offset counted separately. Reads the grid only.
     */
    method CalculateAliveNeighbors(row: int, col: int) returns (k: nat)
      requires size >= 1 && IsSquare(matrix, size)
      requires 0 <= row < size && 0 <= col < size
      ensures k == NeighbourCount(matrix, size, row, col)
      ensures k <= 8
    {
      k := 0;
      var dr := -1;
      while dr <= 1
        invariant -1 <= dr <= 2
        invariant k == |LiveOffsetsBefore(matrix, size, row, col, dr, -1)|
      {
        var dc := -1;
        while dc <= 1
          invariant -1 <= dc <= 2
          invariant k == |LiveOffsetsBefore(matrix, size, row, col, dr, dc)|
        {
          if dr == 0 && dc == 0 {
            LiveOffsetsCountNextColumn(matrix, size, row, col, dr, dc, row, col);
            dc := dc + 1;
            continue;
          }
          WrapIsMod(row, dr, size);
          WrapIsMod(col, dc, size);
          var r := (row + dr + size) % size;
          var c := (col + dc + size) % size;
          LiveOffsetsCountNextColumn(matrix, size, row, col, dr, dc, r, c);
          if matrix[r][c] {
            k := k + 1;
          }
          dc := dc + 1;
        }
        LiveOffsetsBeforeNextRow(matrix, size, row, col, dr + 1);
        dr := dr + 1;
      }
      LiveOffsetsBeforeEnd(matrix, size, row, col);
    }

    /**
     * The next state of cell (row, col) under B3/S23, adjusting the counter
     * by -1 when a live cell dies and by +1 when a dead cell is born.
     */
    method CalculateNewState(row: int, col: int) returns (state: bool)
      requires size >= 1 && IsSquare(matrix, size)
      requires 0 <= row < size && 0 <= col < size
      requires matrix[row][col] ==> numAliveCells >= 1
      modifies this`numAliveCells
      ensures state == NextState(matrix[row][col], NeighbourCount(matrix, size, row, col))
      ensures numAliveCells ==
        if matrix[row][col] && !state then old(numAliveCells) - 1
        else if !matrix[row][col] && state then old(numAliveCells) + 1
        else old(numAliveCells)
    {
      var currentState := matrix[row][col];
      var numAliveNeighbors := CalculateAliveNeighbors(row, col);
      if currentState {
        if numAliveNeighbors == 2 || numAliveNeighbors == 3 {
          return true;
        } else {
          numAliveCells := numAliveCells - 1;
          return false;
        }
      } else {
        if numAliveNeighbors == 3 {
          numAliveCells := numAliveCells + 1;
          return true;
        }
      }
      return false;
    }

    /**
     * Advances one generation. Every new cell is computed while `matrix`
     * still holds the old grid, which is replaced only after both loops;
     * the counter, adjusted flip by flip, ends equal to the number of live
     * cells of the new grid.
     */
    method NextGeneration()
      requires Valid()
      modifies this
      ensures Valid()
      ensures size == old(size)
      ensures matrix == Step(old(matrix), size)
      ensures numGeneration == old(numGeneration) + 1
      ensures numAliveCells == |LiveCells(matrix)|
    {
      ghost var g, n := matrix, size;
      ghost var next := Step(g, n);
      var nextGen: Grid := seq(size, _ => []);
      var i := 0;
      while i < size
        modifies this`numAliveCells
        invariant 0 <= i <= n && |nextGen| == n
        invariant forall k :: 0 <= k < i ==> nextGen[k] == next[k]
        invariant numAliveCells + LiveInRows(g, i) == LiveCount(g) + LiveInRows(next, i)
      {
        var row := new bool[size];
        var j := 0;
        while j < size
          modifies row, this`numAliveCells
          invariant 0 <= j <= n
          invariant forall k :: 0 <= k < j ==> row[k] == next[i][k]
          invariant numAliveCells + LiveInRows(g, i) + LiveInRow(g[i], j)
            == LiveCount(g) + LiveInRows(next, i) + LiveInRow(next[i], j)
        {
          ScannedCountBound(g, i, j);
          StepAt(g, n, i, j);
          ghost var before := numAliveCells;
          row[j] := CalculateNewState(i, j);
          ScanCounterStep(g, next, i, j, before, numAliveCells);
          j := j + 1;
        }
        assert row[..] == next[i];
        nextGen := nextGen[i := row[..]];
        i := i + 1;
      }
      assert nextGen == next;
      matrix := nextGen;
      numGeneration := numGeneration + 1;
      LiveCountIsLiveCells(matrix);
    }
  }

  /**
   * The start of main after the size has been read: reject a size below 1,
   * build the universe with both counters at 0, and populate it.
   */
  method NewUniverse(n: int, coins: Grid) returns (u: Universe)
    requires n >= 1 && IsSquare(coins, n)
    ensures fresh(u) && u.Valid()
    ensures u.size == n && u.matrix == coins && u.numGeneration == 0
    ensures u.numAliveCells == |LiveCells(u.matrix)|
  {
    u := new Universe(n);
    u.Populate(coins);
    LiveCountIsLiveCells(u.matrix);
  }

  /** The number of generations the original runs after populating. */
  const NumGens: nat := 10

  /**
   * The generation loop of main without its output and pacing: advance the
   * universe gens times. The generation counter goes up by exactly gens,
   * whatever the size or contents of the grid.
   */
  method RunGenerations(u: Universe, gens: nat)
    requires u.Valid()
    modifies u
    ensures u.Valid() && u.size == old(u.size)
    ensures u.matrix == Generations(old(u.matrix), u.size, gens)
    ensures u.numGeneration == old(u.numGeneration) + gens
    ensures u.numAliveCells == |LiveCells(u.matrix)|
  {
    ghost var g := u.matrix;
    var i := 0;
    while i < gens
      invariant 0 <= i <= gens
      invariant u.Valid() && u.size == old(u.size)
      invariant u.matrix == Generations(g, u.size, i)
      invariant u.numGeneration == old(u.numGeneration) + i
    {
      u.NextGeneration();
      i := i + 1;
    }
    LiveCountIsLiveCells(u.matrix);
  }

  /**
   * main without its input and output: a valid size and the coin flips give
   * a universe that has been advanced NumGens times from the populated grid.
   */
  method Play(n: int, coins: Grid) returns (u: Universe)
    requires n >= 1 && IsSquare(coins, n)
    ensures fresh(u) && u.Valid() && u.size == n
    ensures u.matrix == Generations(coins, n, NumGens)
    ensures u.numGeneration == NumGens
    ensures u.numAliveCells == |LiveCells(u.matrix)|
  {
    u := NewUniverse(n, coins);
    RunGenerations(u, NumGens);
  }
}
