/**
 * Cages: groups of cells carrying a target sum, and the facts about them
 * that the cage generator establishes and the solver relies on.
 */
module Cages {
  import opened Sudoku

  /** A cage as the source stores it: {"cells": [...], "sum": ...}. */
  datatype Cage = Cage(cells: seq<Cell>, sum: int)

  /** Cardinal neighbours: one step up, down, left or right. */
  predicate Adjacent(a: Cell, b: Cell) {
    (a.0 == b.0 && (a.1 - b.1 == 1 || b.1 - a.1 == 1)) ||
    (a.1 == b.1 && (a.0 - b.0 == 1 || b.0 - a.0 == 1))
  }

  predicate OnBoard(cells: seq<Cell>) {
    forall i | 0 <= i < |cells| :: InBoard(cells[i])
  }

  /** Every cage lists cells of the board only. */
  predicate WellFormed(cages: seq<Cage>) {
    forall k | 0 <= k < |cages| :: OnBoard(cages[k].cells)
  }

  /** No cell is listed twice, neither inside one cage nor in two cages. */
  predicate Disjoint(cages: seq<Cage>) {
    (forall k | 0 <= k < |cages| :: NoRepeat(cages[k].cells)) &&
    (forall k1, k2, x | 0 <= k1 < k2 < |cages| && x in cages[k1].cells :: x !in cages[k2].cells)
  }

  /** Cell x belongs to some cage. */
  predicate InSomeCage(cages: seq<Cage>, x: Cell) {
    exists k | 0 <= k < |cages| :: x in cages[k].cells
  }

  /** Cell i of the list is a neighbour of a cell listed before it. */
  predicate JoinsEarlierCell(cells: seq<Cell>, i: int)
    requires 0 <= i < |cells|
  {
    exists j | 0 <= j < i :: Adjacent(cells[j], cells[i])
  }

  /** Each cell after the first is a neighbour of a cell listed before it. */
  predicate Grown(cells: seq<Cell>) {
    forall i | 0 < i < |cells| :: JoinsEarlierCell(cells, i)
  }

  /** Adding a neighbour of a listed cell keeps a cage grown. */
  lemma GrownAppend(cells: seq<Cell>, x: Cell, j: int)
    requires Grown(cells) && 0 <= j < |cells| && Adjacent(cells[j], x)
    ensures Grown(cells + [x])
  {
    var t := cells + [x];
    forall i | 0 < i < |t|
      ensures JoinsEarlierCell(t, i)
    {
      if i < |cells| {
        assert JoinsEarlierCell(cells, i);
        var k :| 0 <= k < i && Adjacent(cells[k], cells[i]);
        assert t[k] == cells[k] && t[i] == cells[i];
      } else {
        assert t[j] == cells[j] && t[i] == x;
      }
    }
  }

  /** p is a walk of cardinal steps that never leaves `cells`. */
  predicate WalkWithin(p: seq<Cell>, cells: seq<Cell>) {
    (forall i | 0 <= i < |p| :: p[i] in cells) &&
    (forall i | 0 < i < |p| :: Adjacent(p[i - 1], p[i]))
  }

  /** Every cell can be reached from the first one without leaving the cage. */
  ghost predicate Connected(cells: seq<Cell>) {
    |cells| > 0 &&
    forall x | x in cells :: exists p :: WalkWithin(p, cells) && |p| > 0 && p[0] == cells[0] && p[|p| - 1] == x
  }

  /** A cage grown cell by cell from neighbours is connected. */
  lemma {:induction false} GrownIsConnected(cells: seq<Cell>)
    requires |cells| > 0 && Grown(cells)
    ensures Connected(cells)
  {
    forall x | x in cells
      ensures exists p :: WalkWithin(p, cells) && |p| > 0 && p[0] == cells[0] && p[|p| - 1] == x
    {
      var i :| 0 <= i < |cells| && cells[i] == x;
      var p := WalkTo(cells, i);
    }
  }

  /** A walk inside the cage from its first cell to its i-th cell. */
  lemma {:induction false} WalkTo(cells: seq<Cell>, i: int) returns (p: seq<Cell>)
    requires Grown(cells) && 0 <= i < |cells|
    ensures WalkWithin(p, cells) && |p| > 0 && p[0] == cells[0] && p[|p| - 1] == cells[i]
    decreases i
  {
    if i == 0 {
      p := [cells[0]];
    } else {
      assert JoinsEarlierCell(cells, i);
      var j :| 0 <= j < i && Adjacent(cells[j], cells[i]);
      var q := WalkTo(cells, j);
      p := q + [cells[i]];
      assert forall k | 0 <= k < |q| :: p[k] == q[k];
    }
  }

  /** The grid values of the cells, in cage order (0 for an empty cell). */
  function CellValues(g: Grid, cells: seq<Cell>): (vs: seq<int>)
    requires OnBoard(cells)
    ensures |vs| == |cells|
  {
    seq(|cells|, i requires 0 <= i < |cells| => g[cells[i].0][cells[i].1])
  }

  /** Python's sum() of a list of integers. */
  function Total(s: seq<int>): int {
    if s == [] then 0 else Total(s[..|s| - 1]) + s[|s| - 1]
  }

  /** Total distributes over concatenation. */
  lemma {:induction false} TotalConcat(s: seq<int>, t: seq<int>)
    ensures Total(s + t) == Total(s) + Total(t)
  {
    if t != [] {
      var u := s + t;
      var init := t[..|t| - 1];
      assert u[..|u| - 1] == s + init;
      assert u[|u| - 1] == t[|t| - 1];
      TotalConcat(s, init);
    } else {
      assert s + t == s;
    }
  }

  /** sum(grid[r][c] for r, c in cells). */
  function CellSum(g: Grid, cells: seq<Cell>): int
    requires OnBoard(cells)
  {
    Total(CellValues(g, cells))
  }

  /** [grid[r][c] for r, c in cells if grid[r][c] != 0]: the filled values, in cage order. */
  function FilledValues(g: Grid, cells: seq<Cell>): seq<int>
    requires OnBoard(cells)
  {
    if cells == [] then []
    else
      var x := cells[|cells| - 1];
      FilledValues(g, cells[..|cells| - 1]) + (if g[x.0][x.1] != 0 then [g[x.0][x.1]] else [])
  }
}
