/**
 * generate_starting_board: copies a chosen number of distinct solution
 * cells into an all-zero board.
 */
module BoardMasker {
  import opened Sudoku

  /** b holds s's value on the cells of `shown` and 0 everywhere else. */
  predicate MaskOf(s: Grid, b: Grid, shown: set<Cell>) {
    (forall x | x in shown :: InBoard(x)) &&
    forall r, c | 0 <= r < 9 && 0 <= c < 9 :: b[r][c] == if (r, c) in shown then s[r][c] else 0
  }

  /**
   * generate_starting_board.  The source draws random coordinates until it
   * has numPrefilled different ones, ignoring repeats; here each round picks
   * one of the cells not yet drawn, which is what a round that is not a
   * repeat does.  numPrefilled above 81 would never finish in the source.
   */
  method GenerateStartingBoard(solutionGrid: array2<int>, numPrefilled: int := 20)
    returns (startingBoard: array2<int>, ghost filledPositions: set<Cell>)
    requires Is9x9(solutionGrid) && numPrefilled <= 81
    ensures fresh(startingBoard) && Is9x9(startingBoard)
    ensures |filledPositions| == if numPrefilled < 0 then 0 else numPrefilled
    ensures MaskOf(Snapshot(solutionGrid), Snapshot(startingBoard), filledPositions)
  {
    startingBoard := new int[9, 9]((r, c) => 0);
    var filled: set<Cell> := {};
    BoardCellsCount();
    while |filled| < numPrefilled
      invariant fresh(startingBoard)
      invariant filled <= BoardCells()
      invariant |filled| <= 81 && (|filled| <= numPrefilled || filled == {})
      invariant MaskOf(Snapshot(solutionGrid), Snapshot(startingBoard), filled)
      decreases numPrefilled - |filled|
    {
      CellLeft(filled);
      var cell :| cell in BoardCells() - filled;
      var (row, col) := cell;
      CopyCell(startingBoard, solutionGrid, row, col, filled);
      filled := filled + {(row, col)};
    }
    filledPositions := filled;
  }

  /** One round of the loop: the solution's value at (row, col) is copied into the board. */
  method CopyCell(startingBoard: array2<int>, solutionGrid: array2<int>, row: int, col: int, ghost filled: set<Cell>)
    requires Is9x9(startingBoard) && Is9x9(solutionGrid) && startingBoard != solutionGrid && 0 <= row < 9 && 0 <= col < 9
    requires MaskOf(Snapshot(solutionGrid), Snapshot(startingBoard), filled)
    modifies startingBoard
    ensures MaskOf(Snapshot(solutionGrid), Snapshot(startingBoard), filled + {(row, col)})
  {
    ghost var b0 := Snapshot(startingBoard);
    startingBoard[row, col] := solutionGrid[row, col];
    SameGrid(Snapshot(startingBoard), Update(b0, row, col, solutionGrid[row, col]));
    ShowCell(Snapshot(solutionGrid), b0, filled, row, col);
  }

  /** Fewer than 81 chosen cells leave a cell to choose. */
  lemma CellLeft(filled: set<Cell>)
    requires filled <= BoardCells() && |filled| < 81
    ensures BoardCells() - filled != {}
  {
    BoardCellsCount();
    assert filled != BoardCells();
    var x :| x in BoardCells() && x !in filled;
    assert x in BoardCells() - filled;
  }

  /** Copying one more solution cell into a masked board extends the mask by that cell. */
  lemma ShowCell(s: Grid, b: Grid, shown: set<Cell>, r: int, c: int)
    requires MaskOf(s, b, shown) && 0 <= r < 9 && 0 <= c < 9
    ensures MaskOf(s, Update(b, r, c, s[r][c]), shown + {(r, c)})
  {
  }

  /** With a solution that has no empty cell, the board has exactly the shown cells filled. */
  lemma MaskFilledCells(s: Grid, b: Grid, shown: set<Cell>)
    requires Complete(s) && MaskOf(s, b, shown)
    ensures Filled(b) == shown
  {
    forall x | x in shown
      ensures x in Filled(b)
    {
      assert b[x.0][x.1] == s[x.0][x.1];
    }
  }

  /** Hiding cells of a repeat-free grid leaves a repeat-free, in-range board. */
  lemma MaskKeepsPartial(s: Grid, b: Grid, shown: set<Cell>)
    requires Partial(s) && MaskOf(s, b, shown)
    ensures Partial(b)
  {
  }
}
