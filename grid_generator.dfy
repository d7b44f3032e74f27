/**
 * generate_sudoku_grid: fills an empty 9x9 grid by randomised
 * backtracking in row-major order.
 */
module GridGenerator {
  import opened Sudoku
  import RandomSource

  /** The shared list of candidate digits: nine entries, each 1..9. */
  predicate Candidates(numbers: array<int>)
    reads numbers
  {
    numbers.Length == 9 && forall i | 0 <= i < 9 :: 1 <= numbers[i] <= 9
  }

  /** is_valid: num occurs neither in the row, nor in the column, nor in the box of (row, col). */
  method IsValid(grid: array2<int>, row: int, col: int, num: int) returns (valid: bool)
    requires Is9x9(grid) && 0 <= row < 9 && 0 <= col < 9
    ensures valid == Allowed(Snapshot(grid), row, col, num)
  {
    ghost var g := Snapshot(grid);
    for i := 0 to 9
      invariant forall k | 0 <= k < i :: g[row][k] != num && g[k][col] != num
    {
      if grid[row, i] == num || grid[i, col] == num {
        assert g[row][i] == num || g[i][col] == num;
        return false;
      }
    }
    var subgridRow, subgridCol := BoxStart(row), BoxStart(col);
    BoxStartRange(row, row);
    BoxStartRange(col, col);
    for i := subgridRow to subgridRow + 3
      invariant forall k, j | subgridRow <= k < i && subgridCol <= j < subgridCol + 3 :: g[k][j] != num
    {
      for j := subgridCol to subgridCol + 3
        invariant forall k, jj | (subgridRow <= k < i && subgridCol <= jj < subgridCol + 3) ||
                                 (k == i && subgridCol <= jj < j) :: g[k][jj] != num
      {
        if grid[i, j] == num {
          assert g[i][j] == num;
          return false;
        }
      }
    }
    return true;
  }

  /**
   * solve: finds the first empty cell in row-major order and hands it to
   * FillCell; with no empty cell left the grid is done.  A failing search
   * restores the grid; a successful one has filled every cell without
   * overwriting any filled one, and keeps a repeat-free board repeat-free.
   */
  method Solve(grid: array2<int>, numbers: array<int>) returns (solved: bool)
    requires Is9x9(grid) && Candidates(numbers)
    modifies grid, numbers
    ensures Candidates(numbers)
    ensures !solved ==> Snapshot(grid) == old(Snapshot(grid))
    ensures solved ==> Extends(old(Snapshot(grid)), Snapshot(grid)) && Empties(Snapshot(grid)) == {}
    ensures solved && Partial(old(Snapshot(grid))) ==> Solved(Snapshot(grid))
    decreases Empties(Snapshot(grid)), 2
  {
    ghost var g0 := Snapshot(grid);
    var row := 0;
    while row < 9
      invariant 0 <= row <= 9
      invariant forall r, c | 0 <= r < row && 0 <= c < 9 :: g0[r][c] != 0
    {
      var col := 0;
      while col < 9
        invariant 0 <= col <= 9
        invariant forall r, c | (0 <= r < row && 0 <= c < 9) || (r == row && 0 <= c < col) :: g0[r][c] != 0
      {
        if grid[row, col] == 0 {
          solved := FillCell(grid, numbers, row, col);
          return;
        }
        col := col + 1;
      }
      row := row + 1;
    }
    assert Empties(g0) == {};
    return true;
  }

  /**
   * The body of solve at the first empty cell (row, col): shuffle the shared
   * list, then for each position of the list read the digit found there now
   * (deeper calls reshuffle the same list) and try it.  When every position
   * has been tried the cell is empty again and the call fails.
   */
  method FillCell(grid: array2<int>, numbers: array<int>, row: int, col: int) returns (solved: bool)
    requires Is9x9(grid) && Candidates(numbers) && 0 <= row < 9 && 0 <= col < 9 && grid[row, col] == 0
    modifies grid, numbers
    ensures Candidates(numbers)
    ensures !solved ==> Snapshot(grid) == old(Snapshot(grid))
    ensures solved ==> Extends(old(Snapshot(grid)), Snapshot(grid)) && Empties(Snapshot(grid)) == {}
    ensures solved && Partial(old(Snapshot(grid))) ==> Solved(Snapshot(grid))
    decreases Empties(Snapshot(grid)), 1
  {
    ghost var g0 := Snapshot(grid);
    ghost var before := numbers[..];
    RandomSource.Shuffle(numbers);
    ShuffledCandidates(numbers, before);
    for k := 0 to 9
      invariant Snapshot(grid) == g0 && Candidates(numbers)
    {
      solved := TryDigit(grid, numbers, row, col, numbers[k]);
      if solved {
        return;
      }
    }
    return false;
  }

  /**
   * One turn of that loop: a digit that passes is_valid is written and the
   * search recurses; a failed recursion resets the cell to 0.
   */
  method TryDigit(grid: array2<int>, numbers: array<int>, row: int, col: int, num: int) returns (solved: bool)
    requires Is9x9(grid) && Candidates(numbers) && 0 <= row < 9 && 0 <= col < 9 && grid[row, col] == 0
    requires 1 <= num <= 9
    modifies grid, numbers
    ensures Candidates(numbers)
    ensures !solved ==> Snapshot(grid) == old(Snapshot(grid))
    ensures solved ==> Extends(old(Snapshot(grid)), Snapshot(grid)) && Empties(Snapshot(grid)) == {}
    ensures solved && Partial(old(Snapshot(grid))) ==> Solved(Snapshot(grid))
    decreases Empties(Snapshot(grid)), 0
  {
    ghost var g0 := Snapshot(grid);
    var valid := IsValid(grid, row, col, num);
    if !valid {
      return false;
    }
    grid[row, col] := num;
    ghost var g1 := Update(g0, row, col, num);
    SameGrid(Snapshot(grid), g1);
    FillShrinksEmpties(g0, row, col, num);
    solved := Solve(grid, numbers);
    if solved {
      FillExtends(g0, row, col, num);
      ExtendsTransitive(g0, g1, Snapshot(grid));
      if Partial(g0) {
        PlaceKeepsPartial(g0, row, col, num);
      }
      return;
    }
    grid[row, col] := 0;
    SameGrid(Snapshot(grid), g0);
  }

  /** A shuffled list of candidates still holds candidates only. */
  lemma ShuffledCandidates(numbers: array<int>, before: seq<int>)
    requires numbers.Length == 9 && |before| == 9
    requires forall i | 0 <= i < 9 :: 1 <= before[i] <= 9
    requires multiset(numbers[..]) == multiset(before)
    ensures Candidates(numbers)
  {
    forall i | 0 <= i < 9
      ensures 1 <= numbers[i] <= 9
    {
      assert numbers[..][i] in multiset(before);
    }
  }

  /**
   * generate_sudoku_grid: an all-zero grid handed to `solve` with the list
   * 1..9.  The result of `solve` is ignored, so the grid is either solved or,
   * had the search failed, still empty.
   */
  method GenerateSudokuGrid() returns (grid: array2<int>)
    ensures fresh(grid) && Is9x9(grid)
    ensures Solved(Snapshot(grid)) || Snapshot(grid) == EmptyGrid
  {
    grid := new int[9, 9]((r, c) => 0);
    var numbers := new int[9](i => i + 1);
    SameGrid(Snapshot(grid), EmptyGrid);
    var solved := Solve(grid, numbers);
  }
}
