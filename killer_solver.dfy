/**
 * optimized_backtracking_solver: backtracking over a working copy of the
 * board, recomputing every cell's candidate set before each choice
 * (forward checking) and branching on the most constrained open cell (MRV).
 */
module KillerSolver {
  import opened Wrappers
  import opened Sudoku
  import opened Cages
  import GridGenerator

  // ---- The validity test as a specification ------------------------------

  /** The index of the first cage listing cell x, if any. */
  function FirstCage(cages: seq<Cage>, x: Cell): (k: Option<nat>)
    ensures k.None? ==> forall j | 0 <= j < |cages| :: x !in cages[j].cells
    ensures k.Some? ==> k.value < |cages| && x in cages[k.value].cells &&
                        forall j | 0 <= j < k.value :: x !in cages[j].cells
  {
    if cages == [] then None
    else if x in cages[0].cells then Some(0)
    else match FirstCage(cages[1..], x)
      case None => None
      case Some(k) => Some(k + 1)
  }

  /**
   * The cage part of is_valid_killer: only the first cage listing (r, c) is
   * consulted; v must not be among its filled values, and their sum plus v
   * must not exceed the cage's sum.
   */
  predicate CageAllows(g: Grid, cages: seq<Cage>, x: Cell, v: int)
    requires WellFormed(cages)
  {
    match FirstCage(cages, x)
    case None => true
    case Some(k) =>
      var values := FilledValues(g, cages[k].cells);
      v !in values && Total(values) + v <= cages[k].sum
  }

  /** is_valid_killer as a predicate. */
  predicate KillerAllowed(g: Grid, cages: seq<Cage>, r: int, c: int, v: int)
    requires 0 <= r < 9 && 0 <= c < 9 && WellFormed(cages)
  {
    Allowed(g, r, c, v) && CageAllows(g, cages, (r, c), v)
  }

  /** What forward_checking stores for cell (r, c). */
  function Domain(g: Grid, cages: seq<Cage>, r: int, c: int): set<int>
    requires 0 <= r < 9 && 0 <= c < 9 && WellFormed(cages)
  {
    if g[r][c] != 0 then {g[r][c]}
    else set v | 1 <= v < 10 && KillerAllowed(g, cages, r, c, v)
  }

  /** The solver's success test: no cell has more than one candidate. */
  predicate NoChoiceLeft(g: Grid, cages: seq<Cage>)
    requires WellFormed(cages)
  {
    forall r, c | 0 <= r < 9 && 0 <= c < 9 :: |Domain(g, cages, r, c)| <= 1
  }

  /** The domains table holds exactly the candidate sets of grid g. */
  predicate DomainsOf(domains: array2<set<int>>, g: Grid, cages: seq<Cage>)
    requires Is9x9(domains) && WellFormed(cages)
    reads domains
  {
    forall r, c | 0 <= r < 9 && 0 <= c < 9 :: domains[r, c] == Domain(g, cages, r, c)
  }

  /** Every cage has no repeated filled value and a filled sum within its target. */
  predicate CagesConsistent(g: Grid, cages: seq<Cage>)
    requires WellFormed(cages)
  {
    forall k | 0 <= k < |cages| ::
      NoRepeat(FilledValues(g, cages[k].cells)) && Total(FilledValues(g, cages[k].cells)) <= cages[k].sum
  }

  // ---- Facts about the specification -------------------------------------

  /** A candidate set never has more than the nine digits, except a filled cell's singleton. */
  lemma DomainSize(g: Grid, cages: seq<Cage>, r: int, c: int)
    requires 0 <= r < 9 && 0 <= c < 9 && WellFormed(cages)
    ensures |Domain(g, cages, r, c)| <= 9
    ensures g[r][c] == 0 ==> Domain(g, cages, r, c) <= Digits
  {
    if g[r][c] == 0 {
      DigitSetSize(Domain(g, cages, r, c));
    }
  }

  /** A set of digits is a subset of the nine digits, hence has at most nine members. */
  lemma DigitSetSize(d: set<int>)
    requires forall v | v in d :: 1 <= v <= 9
    ensures d <= Digits && |d| <= 9
  {
    forall v | v in d ensures v in Digits {
      assert v == 1 || v == 2 || v == 3 || v == 4 || v == 5 || v == 6 || v == 7 || v == 8 || v == 9;
    }
    assert Digits == d + (Digits - d);
    assert d * (Digits - d) == {};
  }

  /** Filling a cell that a cage does not list leaves the cage's filled values alone. */
  lemma {:induction false} FillOutsideCage(g: Grid, cells: seq<Cell>, r: int, c: int, v: int)
    requires OnBoard(cells) && 0 <= r < 9 && 0 <= c < 9 && (r, c) !in cells
    ensures FilledValues(Update(g, r, c, v), cells) == FilledValues(g, cells)
  {
    if cells != [] {
      var init := cells[..|cells| - 1];
      var x := cells[|cells| - 1];
      assert x != (r, c);
      FillOutsideCage(g, init, r, c, v);
    }
  }

  /** FilledValues distributes over concatenation of cell lists. */
  lemma {:induction false} FilledValuesConcat(g: Grid, a: seq<Cell>, b: seq<Cell>)
    requires OnBoard(a) && OnBoard(b)
    ensures OnBoard(a + b)
    ensures FilledValues(g, a + b) == FilledValues(g, a) + FilledValues(g, b)
  {
    var ab := a + b;
    assert OnBoard(ab) by {
      forall i | 0 <= i < |ab| ensures InBoard(ab[i]) {
        if i < |a| { assert ab[i] == a[i]; } else { assert ab[i] == b[i - |a|]; }
      }
    }
    if b != [] {
      var init := b[..|b| - 1];
      assert ab[..|ab| - 1] == a + init;
      assert ab[|ab| - 1] == b[|b| - 1];
      FilledValuesConcat(g, a, init);
    } else {
      assert ab == a;
    }
  }

  /** The filled values of a cell list split around one of its cells. */
  lemma FilledValuesAround(g: Grid, pre: seq<Cell>, x: Cell, post: seq<Cell>)
    requires OnBoard(pre) && InBoard(x) && OnBoard(post)
    ensures OnBoard(pre + [x] + post)
    ensures FilledValues(g, pre + [x] + post) ==
            FilledValues(g, pre) + (if g[x.0][x.1] != 0 then [g[x.0][x.1]] else []) + FilledValues(g, post)
  {
    var mid := [x];
    assert mid[..0] == [];
    FilledValuesConcat(g, pre, mid);
    FilledValuesConcat(g, pre + mid, post);
  }

  /** Inserting v into a sequence adds v to its total. */
  lemma TotalInsert(a: seq<int>, v: int, b: seq<int>)
    ensures Total(a + [v] + b) == Total(a + b) + v
  {
    TotalConcat(a, [v]);
    TotalConcat(a + [v], b);
    TotalConcat(a, b);
    assert [v][..0] == [];
  }

  /** A cell listed once splits the list into the cells before it and after it, neither listing it. */
  lemma SplitAtCell(cells: seq<Cell>, x: Cell) returns (pre: seq<Cell>, post: seq<Cell>)
    requires OnBoard(cells) && NoRepeat(cells) && x in cells
    ensures cells == pre + [x] + post && InBoard(x)
    ensures OnBoard(pre) && OnBoard(post) && x !in pre && x !in post
  {
    var i :| 0 <= i < |cells| && cells[i] == x;
    pre, post := cells[..i], cells[i + 1..];
    assert cells == pre + [x] + post;
    forall j | 0 <= j < |pre| ensures pre[j] == cells[j] != x { }
    forall j | 0 <= j < |post| ensures post[j] == cells[i + 1 + j] != x { }
  }

  /** Filling an empty cell listed once by a cage adds exactly v to the cage's filled values. */
  lemma FillInsideCage(g: Grid, cells: seq<Cell>, r: int, c: int, v: int)
    requires OnBoard(cells) && NoRepeat(cells) && 0 <= r < 9 && 0 <= c < 9 && (r, c) in cells
    requires g[r][c] == 0 && v != 0
    ensures multiset(FilledValues(Update(g, r, c, v), cells)) == multiset(FilledValues(g, cells)) + multiset{v}
    ensures Total(FilledValues(Update(g, r, c, v), cells)) == Total(FilledValues(g, cells)) + v
  {
    var a, b := FillSplitsValues(g, cells, r, c, v);
    TotalInsert(a, v, b);
  }

  /** The filled values before and after filling (r, c): the same two parts, with v between them after. */
  lemma FillSplitsValues(g: Grid, cells: seq<Cell>, r: int, c: int, v: int) returns (a: seq<int>, b: seq<int>)
    requires OnBoard(cells) && NoRepeat(cells) && 0 <= r < 9 && 0 <= c < 9 && (r, c) in cells
    requires g[r][c] == 0 && v != 0
    ensures FilledValues(g, cells) == a + b
    ensures FilledValues(Update(g, r, c, v), cells) == a + [v] + b
  {
    var h := Update(g, r, c, v);
    var pre, post := SplitAtCell(cells, (r, c));
    a, b := FilledValues(g, pre), FilledValues(g, post);
    FilledValuesAround(g, pre, (r, c), post);
    FilledValuesAround(h, pre, (r, c), post);
    FillOutsideCage(g, pre, r, c, v);
    FillOutsideCage(g, post, r, c, v);
    assert a + [] + b == a + b;
  }

  /** When no cell is listed by two cages, the first cage listing x is the cage listing x. */
  lemma FirstCageOfDisjoint(cages: seq<Cage>, x: Cell, k: nat)
    requires Disjoint(cages) && k < |cages| && x in cages[k].cells
    ensures FirstCage(cages, x) == Some(k)
  {
  }

  /** Adding a value not yet present to a list without repeats keeps it without repeats. */
  lemma NoRepeatAdd(before: seq<int>, after: seq<int>, v: int)
    requires NoRepeat(before) && v !in before && multiset(after) == multiset(before) + multiset{v}
    ensures NoRepeat(after)
  {
    NoRepeatCounts(before);
    forall w | w in after
      ensures multiset(after)[w] <= 1
    {
      if w == v {
        assert multiset(before)[v] == 0;
      } else if w in before {
        assert multiset(after)[w] == multiset(before)[w];
      }
    }
    NoRepeatCounts(after);
  }

  /** Filling a cell of one cage under the cage test keeps that cage consistent. */
  lemma FillKeepsCageConsistent(g: Grid, cells: seq<Cell>, sum: int, r: int, c: int, v: int)
    requires OnBoard(cells) && NoRepeat(cells) && 0 <= r < 9 && 0 <= c < 9 && g[r][c] == 0 && v != 0
    requires NoRepeat(FilledValues(g, cells)) && Total(FilledValues(g, cells)) <= sum
    requires (r, c) in cells ==> v !in FilledValues(g, cells) && Total(FilledValues(g, cells)) + v <= sum
    ensures NoRepeat(FilledValues(Update(g, r, c, v), cells)) && Total(FilledValues(Update(g, r, c, v), cells)) <= sum
  {
    var before := FilledValues(g, cells);
    var after := FilledValues(Update(g, r, c, v), cells);
    if (r, c) in cells {
      FillInsideCage(g, cells, r, c, v);
      NoRepeatAdd(before, after, v);
    } else {
      FillOutsideCage(g, cells, r, c, v);
    }
  }

  /**
   * The cage test of is_valid_killer keeps the cages consistent, provided no
   * cell is listed twice: the first cage listing the cell is then the only one.
   */
  lemma PlaceKeepsCagesConsistent(g: Grid, cages: seq<Cage>, r: int, c: int, v: int)
    requires WellFormed(cages) && Disjoint(cages) && CagesConsistent(g, cages)
    requires 0 <= r < 9 && 0 <= c < 9 && g[r][c] == 0 && v != 0
    requires CageAllows(g, cages, (r, c), v)
    ensures CagesConsistent(Update(g, r, c, v), cages)
  {
    forall k | 0 <= k < |cages|
      ensures NoRepeat(FilledValues(Update(g, r, c, v), cages[k].cells)) &&
              Total(FilledValues(Update(g, r, c, v), cages[k].cells)) <= cages[k].sum
    {
      if (r, c) in cages[k].cells {
        FirstCageOfDisjoint(cages, (r, c), k);
      }
      FillKeepsCageConsistent(g, cages[k].cells, cages[k].sum, r, c, v);
    }
  }

  // ---- What the success test lets through ---------------------------------

  /**
   * A board without open cells leaves no choice, whatever it holds: the
   * search accepts it as it stands, repeats included.
   */
  lemma FullBoardLeavesNoChoice(g: Grid, cages: seq<Cage>)
    requires WellFormed(cages) && Empties(g) == {}
    ensures NoChoiceLeft(g, cages)
  {
    forall r, c | 0 <= r < 9 && 0 <= c < 9
      ensures |Domain(g, cages, r, c)| <= 1
    {
      assert (r, c) !in Empties(g);
    }
  }

  /** The board of nothing but ones. */
  const AllOnes: Grid := seq(9, r => seq(9, c => 1))

  /**
   * So a board whose first row repeats a digit is accepted and returned
   * instead of the search failing.
   */
  lemma RepeatedDigitsAccepted()
    ensures !Consistent(AllOnes) && NoChoiceLeft(AllOnes, [])
  {
    assert SameUnit((0, 0), (0, 1)) && AllOnes[0][0] == AllOnes[0][1] == 1;
    assert Empties(AllOnes) == {};
    FullBoardLeavesNoChoice(AllOnes, []);
  }

  /**
   * A solved board with one cell cleared leaves no choice either, whatever
   * the cages: the open cell's only possible candidate is the cleared digit,
   * so the search accepts the board with the hole still empty.  Without
   * cages that digit is indeed its one candidate.
   */
  lemma {:induction false} HoleLeftOpen(g: Grid, cages: seq<Cage>, r: int, c: int)
    requires Solved(g) && WellFormed(cages) && 0 <= r < 9 && 0 <= c < 9
    ensures Empties(Update(g, r, c, 0)) == {(r, c)}
    ensures NoChoiceLeft(Update(g, r, c, 0), cages)
    ensures Domain(Update(g, r, c, 0), cages, r, c) <= {g[r][c]}
    ensures cages == [] ==> Domain(Update(g, r, c, 0), cages, r, c) == {g[r][c]}
  {
    var h := Update(g, r, c, 0);
    assert (r, c) in Empties(h);
    assert Empties(h) == {(r, c)};
    forall v | v in Domain(h, cages, r, c) ensures v == g[r][c] {
      HoleOnlyDigit(g, r, c, v);
    }
    if cages == [] {
      ClearedDigitAllowed(g, r, c);
    }
    forall i, j | 0 <= i < 9 && 0 <= j < 9
      ensures |Domain(h, cages, i, j)| <= 1
    {
      if (i, j) != (r, c) {
        assert h[i][j] != 0;
      } else {
        SubsetCard(Domain(h, cages, r, c), {g[r][c]});
      }
    }
  }

  /** In a solved grid with (r, c) cleared, only the cleared digit passes the row test there. */
  lemma HoleOnlyDigit(g: Grid, r: int, c: int, v: int)
    requires Solved(g) && 0 <= r < 9 && 0 <= c < 9
    requires 1 <= v <= 9 && Allowed(Update(g, r, c, 0), r, c, v)
    ensures v == g[r][c]
  {
    RowIsPermutation(g, r);
    var row := Row(g, r);
    assert v in row;
    // v sits somewhere in the row, and only column c is open to it
    var j :| 0 <= j < 9 && row[j] == v;
  }

  /** The cleared digit passes the row, column and box test at the hole. */
  lemma ClearedDigitAllowed(g: Grid, r: int, c: int)
    requires Solved(g) && 0 <= r < 9 && 0 <= c < 9
    ensures Allowed(Update(g, r, c, 0), r, c, g[r][c])
  {
    var h, v := Update(g, r, c, 0), g[r][c];
    forall i | 0 <= i < 9 ensures h[r][i] != v && h[i][c] != v {
      if i != c {
        assert SameUnit((r, c), (r, i));
      }
      if i != r {
        assert SameUnit((r, c), (i, c));
      }
    }
    forall i, j | BoxStart(r) <= i < BoxStart(r) + 3 && BoxStart(c) <= j < BoxStart(c) + 3 && 0 <= i < 9 && 0 <= j < 9
      ensures h[i][j] != v
    {
      if (i, j) != (r, c) {
        assert SameUnit((r, c), (i, j));
      }
    }
  }

  /** A subset is no larger than its superset. */
  lemma SubsetCard(a: set<int>, b: set<int>)
    requires a <= b
    ensures |a| <= |b|
  {
    assert b == a + (b - a);
  }

  /**
   * When the search does fill every cell, starting from digits and blanks
   * without repeats, the result is a solved sudoku.
   */
  lemma FilledResultIsSolved(g: Grid, h: Grid)
    requires Partial(g) && Extends(g, h) && Consistent(h) && Empties(h) == {}
    ensures Solved(h)
  {
    forall r, c | 0 <= r < 9 && 0 <= c < 9
      ensures 1 <= h[r][c] <= 9
    {
      assert (r, c) !in Empties(h);
    }
  }

  // ---- sorted() on a candidate set ----------------------------------------

  /** The members of s in [lo, hi), in increasing order. */
  function AscendingWithin(s: set<int>, lo: int, hi: int): (r: seq<int>)
    decreases hi - lo
    ensures forall v :: v in r <==> v in s && lo <= v < hi
    ensures forall i | 0 <= i < |r| :: lo <= r[i] < hi
    ensures forall i, j | 0 <= i < j < |r| :: r[i] < r[j]
  {
    if lo >= hi then []
    else
      var rest := AscendingWithin(s, lo + 1, hi);
      if lo in s then
        assert forall i | 1 <= i < |rest| + 1 :: ([lo] + rest)[i] == rest[i - 1];
        [lo] + rest
      else rest
  }

  /**
   * Python's sorted() on a set of digits (the only sets the solver sorts):
   * its members, each once, in increasing order.
   */
  function SortedValues(s: set<int>): (r: seq<int>)
    requires forall v | v in s :: 1 <= v <= 9
    ensures forall v :: v in r <==> v in s
    ensures forall i, j | 0 <= i < j < |r| :: r[i] < r[j]
  {
    AscendingWithin(s, 1, 10)
  }

  // ---- The solver ---------------------------------------------------------

  /**
   * is_valid_killer: the row, column and box scan (the same code as is_valid
   * of the generator), then the cages in order until the first one listing
   * (row, col), whose filled values must not contain num and whose sum plus
   * num must not exceed the target.
   */
  method IsValidKiller(grid: array2<int>, row: int, col: int, num: int, cages: seq<Cage>) returns (valid: bool)
    requires Is9x9(grid) && 0 <= row < 9 && 0 <= col < 9 && WellFormed(cages)
    ensures valid == KillerAllowed(Snapshot(grid), cages, row, col, num)
  {
    valid := GridGenerator.IsValid(grid, row, col, num);
    if !valid {
      return;
    }
    var k := 0;
    while k < |cages|
      invariant 0 <= k <= |cages|
      invariant forall j | 0 <= j < k :: (row, col) !in cages[j].cells
    {
      if (row, col) in cages[k].cells {
        assert FirstCage(cages, (row, col)) == Some(k);
        var cageValues := FilledValues(Snapshot(grid), cages[k].cells);
        if num in cageValues {
          return false;
        }
        if Total(cageValues) + num > cages[k].sum {
          return false;
        }
        break;
      }
      k := k + 1;
    }
    return true;
  }

  /** The set comprehension of forward_checking: the digits is_valid_killer accepts at (r, c). */
  method PossibleValues(grid: array2<int>, r: int, c: int, cages: seq<Cage>) returns (possibleValues: set<int>)
    requires Is9x9(grid) && 0 <= r < 9 && 0 <= c < 9 && WellFormed(cages)
    ensures forall v :: v in possibleValues <==> 1 <= v <= 9 && KillerAllowed(Snapshot(grid), cages, r, c, v)
  {
    possibleValues := {};
    for v := 1 to 10
      invariant forall w :: w in possibleValues <==> 1 <= w < v && KillerAllowed(Snapshot(grid), cages, r, c, w)
    {
      var ok := IsValidKiller(grid, r, c, v, cages);
      if ok {
        possibleValues := possibleValues + {v};
      }
    }
  }

  /** forward_checking: every cell's entry becomes its candidate set under the current grid. */
  method ForwardChecking(grid: array2<int>, domains: array2<set<int>>, cages: seq<Cage>)
    requires Is9x9(grid) && Is9x9(domains) && WellFormed(cages)
    modifies domains
    ensures DomainsOf(domains, Snapshot(grid), cages)
  {
    ghost var g := Snapshot(grid);
    for r := 0 to 9
      invariant Snapshot(grid) == g
      invariant forall i, j | 0 <= i < r && 0 <= j < 9 :: domains[i, j] == Domain(g, cages, i, j)
    {
      for c := 0 to 9
        invariant Snapshot(grid) == g
        invariant forall i, j | (0 <= i < r && 0 <= j < 9) || (i == r && 0 <= j < c) ::
                    domains[i, j] == Domain(g, cages, i, j)
      {
        if grid[r, c] != 0 {
          domains[r, c] := {grid[r, c]};
        } else {
          var possibleValues := PossibleValues(grid, r, c, cages);
          domains[r, c] := possibleValues;
        }
      }
    }
  }

  /** (a.0, a.1) comes before (b.0, b.1) in row-major order. */
  predicate Before(a: Cell, b: Cell) {
    a.0 < b.0 || (a.0 == b.0 && a.1 < b.1)
  }

  /**
   * select_unassigned_variable: the first cell in row-major order whose
   * candidate set is smallest among those with more than one candidate and
   * fewer than ten; none when there is no such cell.
   */
  method SelectUnassignedVariable(domains: array2<set<int>>) returns (cell: Option<Cell>)
    requires Is9x9(domains)
    ensures cell.None? <==> forall r, c | 0 <= r < 9 && 0 <= c < 9 :: !(1 < |domains[r, c]| < 10)
    ensures cell.Some? ==> InBoard(cell.value) && 1 < |domains[cell.value.0, cell.value.1]| < 10
    ensures cell.Some? ==> forall r, c | 0 <= r < 9 && 0 <= c < 9 && 1 < |domains[r, c]| ::
                             |domains[cell.value.0, cell.value.1]| <= |domains[r, c]|
    ensures cell.Some? ==> forall r, c | 0 <= r < 9 && 0 <= c < 9 && Before((r, c), cell.value) && 1 < |domains[r, c]| ::
                             |domains[cell.value.0, cell.value.1]| < |domains[r, c]|
  {
    var minDomain := 10;
    cell := None;
    for r := 0 to 9
      invariant cell.None? <==> minDomain == 10
      invariant cell.None? ==> forall i, j | 0 <= i < r && 0 <= j < 9 :: !(1 < |domains[i, j]| < 10)
      invariant cell.Some? ==> InBoard(cell.value) && cell.value.0 < r && minDomain == |domains[cell.value.0, cell.value.1]| && 1 < minDomain < 10
      invariant forall i, j | 0 <= i < r && 0 <= j < 9 && 1 < |domains[i, j]| :: minDomain <= |domains[i, j]|
      invariant cell.Some? ==> forall i, j | 0 <= i < r && 0 <= j < 9 && Before((i, j), cell.value) && 1 < |domains[i, j]| ::
                                 minDomain < |domains[i, j]|
    {
      for c := 0 to 9
        invariant cell.None? <==> minDomain == 10
        invariant cell.None? ==> forall i, j | (0 <= i < r && 0 <= j < 9) || (i == r && 0 <= j < c) :: !(1 < |domains[i, j]| < 10)
        invariant cell.Some? ==> InBoard(cell.value) && Before(cell.value, (r, c)) && minDomain == |domains[cell.value.0, cell.value.1]| && 1 < minDomain < 10
        invariant forall i, j | ((0 <= i < r && 0 <= j < 9) || (i == r && 0 <= j < c)) && 1 < |domains[i, j]| :: minDomain <= |domains[i, j]|
        invariant cell.Some? ==> forall i, j | ((0 <= i < r && 0 <= j < 9) || (i == r && 0 <= j < c)) && Before((i, j), cell.value) && 1 < |domains[i, j]| ::
                                   minDomain < |domains[i, j]|
      {
        if |domains[r, c]| > 1 && |domains[r, c]| < minDomain {
          minDomain := |domains[r, c]|;
          cell := Some((r, c));
        }
      }
    }
  }

  /**
   * backtrack: recompute the candidate sets; with no cell left to branch on
   * the search succeeds as it stands (open cells may stay empty); otherwise
   * branch on the selected cell.  It never fails: the selected cell's first
   * candidate passes is_valid_killer on the very grid the candidates were
   * computed from, and the recursion below it succeeds in turn.  A success
   * only fills open cells, leaves the domains table describing the final
   * grid, and keeps a repeat-free grid and consistent cages so.
   */
  method Backtrack(grid: array2<int>, domains: array2<set<int>>, cages: seq<Cage>) returns (ok: bool)
    requires Is9x9(grid) && Is9x9(domains) && WellFormed(cages)
    modifies grid, domains
    ensures ok
    ensures Extends(old(Snapshot(grid)), Snapshot(grid)) && NoChoiceLeft(Snapshot(grid), cages)
    ensures DomainsOf(domains, Snapshot(grid), cages)
    ensures Consistent(old(Snapshot(grid))) ==> Consistent(Snapshot(grid))
    ensures Disjoint(cages) && CagesConsistent(old(Snapshot(grid)), cages) ==> CagesConsistent(Snapshot(grid), cages)
    ensures NoChoiceLeft(old(Snapshot(grid)), cages) ==> Snapshot(grid) == old(Snapshot(grid))
    decreases Empties(Snapshot(grid)), 2
  {
    ForwardChecking(grid, domains, cages);
    var cell := SelectUnassignedVariable(domains);
    if cell.None? {
      ghost var g := Snapshot(grid);
      forall r, c | 0 <= r < 9 && 0 <= c < 9
        ensures |Domain(g, cages, r, c)| <= 1
      {
        DomainSize(g, cages, r, c);
      }
      return true;
    }
    var row, col := cell.value.0, cell.value.1;
    ok := TryCell(grid, domains, cages, row, col);
  }

  /**
   * The loop of backtrack over the selected cell (row, col), which is open
   * since it has several candidates: its candidates are tried in increasing
   * order until one leads to a solution.  The first one always does, so the
   * loop runs once and the cell ends holding its smallest candidate.
   */
  method TryCell(grid: array2<int>, domains: array2<set<int>>, cages: seq<Cage>, row: int, col: int) returns (ok: bool)
    requires Is9x9(grid) && Is9x9(domains) && WellFormed(cages) && 0 <= row < 9 && 0 <= col < 9
    requires DomainsOf(domains, Snapshot(grid), cages) && |domains[row, col]| > 1
    modifies grid, domains
    ensures ok
    ensures old(domains[row, col]) != {} && forall v | v in old(domains[row, col]) :: 1 <= v <= 9
    ensures Snapshot(grid)[row][col] == SortedValues(old(domains[row, col]))[0]
    ensures Extends(old(Snapshot(grid)), Snapshot(grid)) && NoChoiceLeft(Snapshot(grid), cages)
    ensures DomainsOf(domains, Snapshot(grid), cages)
    ensures Consistent(old(Snapshot(grid))) ==> Consistent(Snapshot(grid))
    ensures Disjoint(cages) && CagesConsistent(old(Snapshot(grid)), cages) ==> CagesConsistent(Snapshot(grid), cages)
    decreases Empties(Snapshot(grid)), 1
  {
    ghost var g0 := Snapshot(grid);
    assert grid[row, col] == 0;
    DomainSize(g0, cages, row, col);
    var values := SortedValues(domains[row, col]);
    assert forall j | 0 <= j < |values| :: 1 <= values[j] <= 9;
    assert values != [] by {
      var v :| v in domains[row, col];
      assert v in values;
    }
    assert KillerAllowed(g0, cages, row, col, values[0]) by {
      assert values[0] in Domain(g0, cages, row, col);
    }
    ok := false;
    var i := 0;
    while i < |values| && !ok
      invariant ok <==> i > 0
      invariant ok ==> Snapshot(grid)[row][col] == values[0]
      invariant !ok ==> Snapshot(grid) == g0
      invariant ok ==> Extends(g0, Snapshot(grid)) && NoChoiceLeft(Snapshot(grid), cages)
      invariant ok ==> DomainsOf(domains, Snapshot(grid), cages)
      invariant ok && Consistent(g0) ==> Consistent(Snapshot(grid))
      invariant ok && Disjoint(cages) && CagesConsistent(g0, cages) ==> CagesConsistent(Snapshot(grid), cages)
    {
      ok := TryValue(grid, domains, cages, row, col, values[i]);
      i := i + 1;
    }
  }

  /**
   * One turn of that loop: if num passes is_valid_killer it is written and
   * the search recurses.  The recursion never fails, so a value that passes
   * always succeeds and the reset to 0 that follows a failed recursion in
   * the source is never reached.
   */
  method TryValue(grid: array2<int>, domains: array2<set<int>>, cages: seq<Cage>, row: int, col: int, num: int)
    returns (ok: bool)
    requires Is9x9(grid) && Is9x9(domains) && WellFormed(cages) && 0 <= row < 9 && 0 <= col < 9
    requires grid[row, col] == 0 && 1 <= num <= 9
    modifies grid, domains
    ensures ok <==> KillerAllowed(old(Snapshot(grid)), cages, row, col, num)
    ensures !ok ==> Snapshot(grid) == old(Snapshot(grid))
    ensures ok ==> Extends(old(Snapshot(grid)), Snapshot(grid)) && NoChoiceLeft(Snapshot(grid), cages)
    ensures ok ==> Snapshot(grid)[row][col] == num
    ensures ok ==> DomainsOf(domains, Snapshot(grid), cages)
    ensures ok && Consistent(old(Snapshot(grid))) ==> Consistent(Snapshot(grid))
    ensures ok && Disjoint(cages) && CagesConsistent(old(Snapshot(grid)), cages) ==> CagesConsistent(Snapshot(grid), cages)
    decreases Empties(Snapshot(grid)), 0
  {
    ghost var g0 := Snapshot(grid);
    var valid := IsValidKiller(grid, row, col, num, cages);
    if !valid {
      return false;
    }
    grid[row, col] := num;
    ghost var g1 := Update(g0, row, col, num);
    SameGrid(Snapshot(grid), g1);
    FillShrinksEmpties(g0, row, col, num);
    ok := Backtrack(grid, domains, cages);
    FillExtends(g0, row, col, num);
    ExtendsTransitive(g0, g1, Snapshot(grid));
    if Consistent(g0) {
      PlaceKeepsConsistent(g0, row, col, num);
    }
    if Disjoint(cages) && CagesConsistent(g0, cages) {
      PlaceKeepsCagesConsistent(g0, cages, row, col, num);
    }
  }

  const NoSolution := "No solution exists for the given puzzle."

  /**
   * optimized_backtracking_solver: search on a copy of the board, starting
   * from all digits in every domain; the copy is returned on success, and
   * the ValueError of the source becomes Err.  Since the search never fails,
   * the result is always Ok, whatever the board holds.
   */
  method OptimizedBacktrackingSolver(grid: array2<int>, cages: seq<Cage>) returns (result: Result<array2<int>, string>)
    requires Is9x9(grid) && WellFormed(cages)
    ensures result.Ok?
    ensures result.Ok? ==> fresh(result.value) && Is9x9(result.value)
    ensures result.Ok? ==> Extends(Snapshot(grid), Snapshot(result.value)) && NoChoiceLeft(Snapshot(result.value), cages)
    ensures result.Ok? && Consistent(Snapshot(grid)) ==> Consistent(Snapshot(result.value))
    ensures result.Ok? && Disjoint(cages) && CagesConsistent(Snapshot(grid), cages) ==>
              CagesConsistent(Snapshot(result.value), cages)
    ensures result.Err? ==> result.error == NoSolution
    ensures NoChoiceLeft(Snapshot(grid), cages) ==> result.Ok? && Snapshot(result.value) == Snapshot(grid)
  {
    var puzzle := new int[9, 9]((i, j) requires 0 <= i < 9 && 0 <= j < 9 reads grid => grid[i, j]);
    SameGrid(Snapshot(puzzle), Snapshot(grid));
    var domains := new set<int>[9, 9]((i, j) => Digits);
    ForwardChecking(puzzle, domains, cages);
    var ok := Backtrack(puzzle, domains, cages);
    result := if ok then Ok(puzzle) else Err(NoSolution);
  }
}
