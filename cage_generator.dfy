/**
 * generate_killer_sudoku_cages: grows cages from a pool of available cells,
 * each from a random starting cell by random cardinal neighbours, and
 * records the sum of the grid values under each cage.
 */
module CageGenerator {
  import opened Sudoku
  import opened Cages
  import RandomSource

  /** The four steps get_neighbors tries, in its order: up, down, left, right. */
  const Steps: seq<Cell> := [(-1, 0), (1, 0), (0, -1), (0, 1)]

  /** The cells one of `steps` away from `cell` that are still in `available`, in step order. */
  function NeighborsAlong(cell: Cell, steps: seq<Cell>, available: seq<Cell>): (n: seq<Cell>)
    ensures forall x :: x in n <==>
      x in available && exists i | 0 <= i < |steps| :: x == (cell.0 + steps[i].0, cell.1 + steps[i].1)
  {
    if steps == [] then []
    else
      var x := (cell.0 + steps[0].0, cell.1 + steps[0].1);
      var rest := NeighborsAlong(cell, steps[1..], available);
      assert forall i | 1 <= i < |steps| :: steps[1..][i - 1] == steps[i];
      (if x in available then [x] else []) + rest
  }

  /** get_neighbors: the cardinal neighbours of `cell` still in the pool. */
  function GetNeighbors(cell: Cell, available: seq<Cell>): (n: seq<Cell>)
    ensures forall x :: x in n <==> x in available && Adjacent(cell, x)
  {
    var n := NeighborsAlong(cell, Steps, available);
    assert forall x :: Adjacent(cell, x) ==>
      x == (cell.0 + Steps[0].0, cell.1 + Steps[0].1) || x == (cell.0 + Steps[1].0, cell.1 + Steps[1].1) ||
      x == (cell.0 + Steps[2].0, cell.1 + Steps[2].1) || x == (cell.0 + Steps[3].0, cell.1 + Steps[3].1);
    n
  }

  /** The position of the first occurrence of x in s. */
  function FirstIndex(s: seq<Cell>, x: Cell): (i: nat)
    requires x in s
    ensures i < |s| && s[i] == x && x !in s[..i]
  {
    if s[0] == x then 0 else 1 + FirstIndex(s[1..], x)
  }

  /** list.remove: drops the first occurrence of x. */
  function Remove(s: seq<Cell>, x: Cell): (r: seq<Cell>)
    requires x in s
    ensures |r| == |s| - 1 && multiset(r) == multiset(s) - multiset{x}
  {
    var i := FirstIndex(s, x);
    assert s == s[..i] + [x] + s[i + 1..];
    s[..i] + s[i + 1..]
  }

  /** Removing a cell from a pool without repeats leaves exactly the other cells, still without repeats. */
  lemma RemoveFromPool(s: seq<Cell>, x: Cell)
    requires x in s && NoRepeat(s)
    ensures NoRepeat(Remove(s, x))
    ensures forall y :: y in Remove(s, x) <==> y in s && y != x
  {
    var i := FirstIndex(s, x);
    var r := Remove(s, x);
    assert forall j | 0 <= j < i :: r[j] == s[j];
    assert forall j | i <= j < |r| :: r[j] == s[j + 1];
    forall y
      ensures y in r <==> y in s && y != x
    {
      if y in r {
        var j :| 0 <= j < |r| && r[j] == y;
        if j < i { assert s[j] == y; } else { assert s[j + 1] == y; }
      }
      if y in s && y != x {
        var j :| 0 <= j < |s| && s[j] == y;
        if j < i { assert r[j] == y; } else { assert r[j - 1] == y; }
      }
    }
    forall a, b | 0 <= a < b < |r|
      ensures r[a] != r[b]
    {
      var sa := if a < i then a else a + 1;
      var sb := if b < i then b else b + 1;
      assert r[a] == s[sa] && r[b] == s[sb] && sa < sb;
    }
  }

  /** Appending a cage extends "in some cage" by exactly its cells. */
  lemma InSomeCageAppend(cages: seq<Cage>, cage: Cage, x: Cell)
    ensures InSomeCage(cages + [cage], x) <==> InSomeCage(cages, x) || x in cage.cells
  {
    var all := cages + [cage];
    if x in cage.cells {
      assert x in all[|cages|].cells;
    }
    if InSomeCage(cages, x) {
      var k :| 0 <= k < |cages| && x in cages[k].cells;
      assert x in all[k].cells;
    }
    if InSomeCage(all, x) {
      var k :| 0 <= k < |all| && x in all[k].cells;
      if k < |cages| { assert x in cages[k].cells; }
    }
  }

  /** The pool neighbours of all the cage's cells, cell by cell (a cell may be listed more than once). */
  method CollectNeighbors(cageCells: seq<Cell>, availableCells: seq<Cell>) returns (neighbors: seq<Cell>)
    ensures forall x :: x in neighbors <==>
      x in availableCells && exists j | 0 <= j < |cageCells| :: Adjacent(cageCells[j], x)
  {
    neighbors := [];
    for i := 0 to |cageCells|
      invariant forall x :: x in neighbors <==>
        x in availableCells && exists j | 0 <= j < i :: Adjacent(cageCells[j], x)
    {
      neighbors := neighbors + GetNeighbors(cageCells[i], availableCells);
    }
  }

  /** What the generator promises of every cage it has made so far. */
  predicate GoodCages(g: Grid, cages: seq<Cage>, maxCageSize: int) {
    WellFormed(cages) && Disjoint(cages) &&
    (forall k | 0 <= k < |cages| :: 1 <= |cages[k].cells| <= maxCageSize && Grown(cages[k].cells)) &&
    (forall k | 0 <= k < |cages| :: cages[k].sum == CellSum(g, cages[k].cells))
  }

  /**
   * Growth stops early only when no pool cell touches the cage: a cage left
   * with a single cell had every board neighbour of that cell inside the
   * cages made before it.
   */
  ghost predicate SinglesBlocked(cages: seq<Cage>) {
    forall k | 0 <= k < |cages| && |cages[k].cells| == 1 ::
      forall y | InBoard(y) && Adjacent(cages[k].cells[0], y) :: InSomeCage(cages[..k], y)
  }

  /** A grown cage of one cell, below a target of at least two, had no uncovered neighbour. */
  lemma SingleCellBlocked(cages: seq<Cage>, grown: seq<Cell>, remaining: seq<Cell>, cageSize: int)
    requires cageSize >= 2 && |grown| == 1
    requires forall x :: x in remaining <==> InBoard(x) && !InSomeCage(cages, x) && x !in grown
    requires |grown| < cageSize ==> forall j, x | 0 <= j < |grown| && x in remaining :: !Adjacent(grown[j], x)
    ensures forall y | InBoard(y) && Adjacent(grown[0], y) :: InSomeCage(cages, y)
  {
    forall y | InBoard(y) && Adjacent(grown[0], y)
      ensures InSomeCage(cages, y)
    {
      assert y !in grown;
      assert y !in remaining;
    }
  }

  /** Appending a cage that meets the early-stop rule keeps the rule for the whole list. */
  lemma SinglesBlockedAppend(cages: seq<Cage>, cage: Cage)
    requires SinglesBlocked(cages)
    requires |cage.cells| == 1 ==> forall y | InBoard(y) && Adjacent(cage.cells[0], y) :: InSomeCage(cages, y)
    ensures SinglesBlocked(cages + [cage])
  {
    var all := cages + [cage];
    forall k | 0 <= k < |all| && |all[k].cells| == 1
      ensures forall y | InBoard(y) && Adjacent(all[k].cells[0], y) :: InSomeCage(all[..k], y)
    {
      if k < |cages| {
        assert all[..k] == cages[..k] && all[k] == cages[k];
      } else {
        assert all[..k] == cages;
      }
    }
  }

  /** The first cage made always has at least two cells: every board cell has a neighbour. */
  lemma FirstCageNotSingle(cages: seq<Cage>)
    requires WellFormed(cages) && SinglesBlocked(cages) && |cages| > 0
    ensures |cages[0].cells| != 1
  {
    if |cages[0].cells| == 1 {
      var x := cages[0].cells[0];
      assert InBoard(x);
      var y := if x.1 < 8 then (x.0, x.1 + 1) else (x.0, x.1 - 1);
      assert InBoard(y) && Adjacent(x, y);
    }
  }

  /** A new cage made of cells outside the existing cages keeps the cage list good. */
  lemma AppendCage(g: Grid, cages: seq<Cage>, cage: Cage, maxCageSize: int)
    requires GoodCages(g, cages, maxCageSize)
    requires 1 <= |cage.cells| <= maxCageSize && NoRepeat(cage.cells) && OnBoard(cage.cells) && Grown(cage.cells)
    requires cage.sum == CellSum(g, cage.cells)
    requires forall x | x in cage.cells :: !InSomeCage(cages, x)
    ensures GoodCages(g, cages + [cage], maxCageSize)
    ensures forall x :: InSomeCage(cages + [cage], x) <==> InSomeCage(cages, x) || x in cage.cells
  {
    var all := cages + [cage];
    forall x
      ensures InSomeCage(all, x) <==> InSomeCage(cages, x) || x in cage.cells
    {
      InSomeCageAppend(cages, cage, x);
    }
    forall k1, k2, x | 0 <= k1 < k2 < |all| && x in all[k1].cells
      ensures x !in all[k2].cells
    {
      if k2 == |cages| {
        assert InSomeCage(cages, x) by { assert x in cages[k1].cells; }
      }
    }
  }

  /**
   * generate_killer_sudoku_cages.  While the pool is not empty and fewer than
   * minCages cages exist: take a random cell out of the pool, pick a target
   * size in [2, maxCageSize], and add random pool neighbours of the cage's
   * cells until the cage reaches that size or has no pool neighbour left;
   * then record the cage with the sum of its grid values.
   */
  method GenerateKillerSudokuCages(grid: array2<int>, maxCageSize: int := 4, minCages: int := 10) returns (cages: seq<Cage>)
    requires Is9x9(grid) && maxCageSize >= 2
    ensures WellFormed(cages) && Disjoint(cages)
    ensures forall k | 0 <= k < |cages| :: 1 <= |cages[k].cells| <= maxCageSize && Grown(cages[k].cells)
    ensures forall k | 0 <= k < |cages| :: cages[k].sum == CellSum(Snapshot(grid), cages[k].cells)
    ensures |cages| <= minCages || cages == []
    ensures |cages| < minCages ==> forall x | InBoard(x) :: InSomeCage(cages, x)
    ensures SinglesBlocked(cages)
  {
    AllCellsEnumerateBoard();
    var availableCells := AllCells();
    cages := [];
    while |availableCells| > 0 && |cages| < minCages
      invariant NoRepeat(availableCells)
      invariant forall x :: x in availableCells <==> InBoard(x) && !InSomeCage(cages, x)
      invariant GoodCages(Snapshot(grid), cages, maxCageSize)
      invariant |cages| <= minCages || cages == []
      invariant SinglesBlocked(cages)
      decreases |availableCells|
    {
      var startingCell := RandomSource.Choice(availableCells);
      var cageCells := [startingCell];
      RemoveFromPool(availableCells, startingCell);
      availableCells := Remove(availableCells, startingCell);
      var cageSize := RandomSource.RandInt(2, maxCageSize);

      cageCells, availableCells := GrowCage(cageCells, availableCells, cageSize, cages);

      if |cageCells| == 1 {
        SingleCellBlocked(cages, cageCells, availableCells, cageSize);
      }

      var cageSum := CellSum(Snapshot(grid), cageCells);
      var cage := Cage(cageCells, cageSum);
      AppendCage(Snapshot(grid), cages, cage, maxCageSize);
      SinglesBlockedAppend(cages, cage);
      cages := cages + [cage];
    }
  }

  /**
   * The grow loop: while the cage is below its target size and the pool is
   * not empty, gather the pool neighbours of all its cells, stop if there
   * are none, and otherwise move a random one from the pool into the cage.
   */
  method GrowCage(cageCells: seq<Cell>, availableCells: seq<Cell>, cageSize: int, ghost cages: seq<Cage>)
    returns (grown: seq<Cell>, remaining: seq<Cell>)
    requires 1 <= |cageCells| <= cageSize
    requires NoRepeat(cageCells) && OnBoard(cageCells) && Grown(cageCells)
    requires forall x | x in cageCells :: !InSomeCage(cages, x)
    requires NoRepeat(availableCells)
    requires forall x :: x in availableCells <==> InBoard(x) && !InSomeCage(cages, x) && x !in cageCells
    ensures 1 <= |grown| <= cageSize && cageCells <= grown
    ensures NoRepeat(grown) && OnBoard(grown) && Grown(grown)
    ensures forall x | x in grown :: !InSomeCage(cages, x)
    ensures NoRepeat(remaining) && |remaining| <= |availableCells|
    ensures forall x :: x in remaining <==> InBoard(x) && !InSomeCage(cages, x) && x !in grown
    ensures |grown| < cageSize ==> forall j, x | 0 <= j < |grown| && x in remaining :: !Adjacent(grown[j], x)
  {
    grown, remaining := cageCells, availableCells;
    while |grown| < cageSize && |remaining| > 0
      invariant 1 <= |grown| <= cageSize && cageCells <= grown
      invariant NoRepeat(grown) && OnBoard(grown) && Grown(grown)
      invariant forall x | x in grown :: !InSomeCage(cages, x)
      invariant NoRepeat(remaining) && |remaining| <= |availableCells|
      invariant forall x :: x in remaining <==> InBoard(x) && !InSomeCage(cages, x) && x !in grown
      decreases |remaining|
    {
      var neighbors := CollectNeighbors(grown, remaining);
      if neighbors == [] {
        return;
      }
      var newCell := RandomSource.Choice(neighbors);
      ghost var j :| 0 <= j < |grown| && Adjacent(grown[j], newCell);
      RemoveFromPool(remaining, newCell);
      GrownAppend(grown, newCell, j);
      assert newCell !in grown;
      grown := grown + [newCell];
      remaining := Remove(remaining, newCell);
    }
  }
}
