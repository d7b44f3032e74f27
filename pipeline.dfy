/**
 * How the stages fit together as solve_multiple_boards chains them: a
 * solution grid, cages grown over it, a masked puzzle, then the solver.
 */
module Pipeline {
  import opened Sudoku
  import opened Cages
  import BoardMasker
  import KillerSolver

  /** CellValues of a list splits off its last cell. */
  lemma CellValuesLast(s: Grid, cells: seq<Cell>)
    requires OnBoard(cells) && cells != []
    ensures CellValues(s, cells) ==
            CellValues(s, cells[..|cells| - 1]) + [s[cells[|cells| - 1].0][cells[|cells| - 1].1]]
  {
  }

  /** Masking a complete grid can only drop values from a cage: the puzzle's filled values are among the solution's. */
  lemma {:induction false} MaskedCageValues(s: Grid, b: Grid, shown: set<Cell>, cells: seq<Cell>)
    requires Complete(s) && BoardMasker.MaskOf(s, b, shown) && OnBoard(cells)
    ensures multiset(FilledValues(b, cells)) <= multiset(CellValues(s, cells))
  {
    if cells != [] {
      var init := cells[..|cells| - 1];
      var x := cells[|cells| - 1];
      MaskedCageValues(s, b, shown, init);
      CellValuesLast(s, cells);
      assert b[x.0][x.1] == 0 || b[x.0][x.1] == s[x.0][x.1];
    }
  }

  /** ... and their total is no larger than the solution's. */
  lemma {:induction false} MaskedCageTotal(s: Grid, b: Grid, shown: set<Cell>, cells: seq<Cell>)
    requires Complete(s) && BoardMasker.MaskOf(s, b, shown) && OnBoard(cells)
    ensures Total(FilledValues(b, cells)) <= CellSum(s, cells)
  {
    if cells != [] {
      var init := cells[..|cells| - 1];
      var x := cells[|cells| - 1];
      MaskedCageTotal(s, b, shown, init);
      CellValuesLast(s, cells);
      var vs := CellValues(s, cells);
      assert vs[..|vs| - 1] == CellValues(s, init);
      assert CellSum(s, cells) == CellSum(s, init) + s[x.0][x.1];
      var tail := if b[x.0][x.1] != 0 then [b[x.0][x.1]] else [];
      assert FilledValues(b, cells) == FilledValues(b, init) + tail;
      TotalConcat(FilledValues(b, init), tail);
      assert [s[x.0][x.1]][..0] == [];
      assert Total(tail) <= s[x.0][x.1];
    }
  }

  /**
   * When every cage of the solution holds distinct values and records their
   * sum, the masked puzzle already meets the cage test that the solver
   * applies to each placement.
   */
  lemma MaskedPuzzleCagesConsistent(s: Grid, b: Grid, shown: set<Cell>, cages: seq<Cage>)
    requires Complete(s) && BoardMasker.MaskOf(s, b, shown) && WellFormed(cages)
    requires forall k | 0 <= k < |cages| ::
               NoRepeat(CellValues(s, cages[k].cells)) && cages[k].sum == CellSum(s, cages[k].cells)
    ensures KillerSolver.CagesConsistent(b, cages)
  {
    forall k | 0 <= k < |cages|
      ensures NoRepeat(FilledValues(b, cages[k].cells)) && Total(FilledValues(b, cages[k].cells)) <= cages[k].sum
    {
      var cells := cages[k].cells;
      MaskedCageValues(s, b, shown, cells);
      MaskedCageTotal(s, b, shown, cells);
      var before, after := CellValues(s, cells), FilledValues(b, cells);
      NoRepeatCounts(before);
      forall v | v in after ensures multiset(after)[v] <= 1 {
        assert multiset(after)[v] <= multiset(before)[v];
        assert v in before;
      }
      NoRepeatCounts(after);
    }
  }
}
