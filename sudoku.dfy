/**
 * The 9x9 board shared by every component: cells, grids as values, the
 * Sudoku rules (row, column and 3x3 box), and what the mutable grids of
 * the algorithms look like when read back as values.
 */
module Sudoku {

  /** A (row, column) coordinate.  Coordinates off the board occur while looking for neighbours. */
  type Cell = (int, int)

  predicate InBoard(x: Cell) {
    0 <= x.0 < 9 && 0 <= x.1 < 9
  }

  /** A 9x9 grid of integers; 0 marks an empty cell. */
  type Grid = g: seq<seq<int>> | |g| == 9 && forall r | 0 <= r < 9 :: |g[r]| == 9
    witness seq(9, r => seq(9, c => 0))

  const EmptyGrid: Grid := seq(9, r => seq(9, c => 0))

  /** The 81 cells in row-major order, as the cage generator lists them. */
  function AllCells(): seq<Cell> {
    seq(81, k => (k / 9, k % 9))
  }

  /** The digits a filled cell may hold. */
  const Digits: set<int> := {1, 2, 3, 4, 5, 6, 7, 8, 9}

  predicate Is9x9<T>(a: array2<T>) {
    a.Length0 == 9 && a.Length1 == 9
  }

  /** The value a mutable 9x9 grid holds, cell by cell. */
  function Snapshot(a: array2<int>): (g: Grid)
    requires Is9x9(a)
    reads a
    ensures forall r, c | 0 <= r < 9 && 0 <= c < 9 :: g[r][c] == a[r, c]
  {
    seq(9, r requires 0 <= r < 9 reads a => seq(9, c requires 0 <= c < 9 reads a => a[r, c]))
  }

  /** Grids are equal as soon as they agree on every cell. */
  lemma SameGrid(g: Grid, h: Grid)
    requires forall r, c | 0 <= r < 9 && 0 <= c < 9 :: g[r][c] == h[r][c]
    ensures g == h
  {
    forall r | 0 <= r < 9
      ensures g[r] == h[r]
    {
      assert forall c | 0 <= c < 9 :: g[r][c] == h[r][c];
    }
  }

  /** The grid with cell (r, c) set to v. */
  function Update(g: Grid, r: int, c: int, v: int): (h: Grid)
    requires 0 <= r < 9 && 0 <= c < 9
    ensures forall i, j | 0 <= i < 9 && 0 <= j < 9 :: h[i][j] == if i == r && j == c then v else g[i][j]
  {
    g[r := g[r][c := v]]
  }

  /** First row (or column) of the 3x3 box holding row (or column) i: Python's 3 * (i // 3). */
  function BoxStart(i: int): int {
    3 * (i / 3)
  }

  lemma BoxStartRange(i: int, k: int)
    requires 0 <= i < 9 && 0 <= k < 9
    ensures 0 <= BoxStart(i) <= 6
    ensures BoxStart(i) <= k < BoxStart(i) + 3 <==> k / 3 == i / 3
  {
  }

  /** Value v occurs nowhere in row r, in column c, or in the 3x3 box holding (r, c). */
  predicate Allowed(g: Grid, r: int, c: int, v: int)
    requires 0 <= r < 9 && 0 <= c < 9
  {
    (forall i | 0 <= i < 9 :: g[r][i] != v && g[i][c] != v) &&
    (forall i, j | BoxStart(r) <= i < BoxStart(r) + 3 && BoxStart(c) <= j < BoxStart(c) + 3 &&
       0 <= i < 9 && 0 <= j < 9 :: g[i][j] != v)
  }

  /** Two cells share a row, a column or a 3x3 box. */
  predicate SameUnit(a: Cell, b: Cell) {
    a.0 == b.0 || a.1 == b.1 || (a.0 / 3 == b.0 / 3 && a.1 / 3 == b.1 / 3)
  }

  /** No filled value is repeated in any row, column or box. */
  predicate Consistent(g: Grid) {
    forall r1, c1, r2, c2 |
      0 <= r1 < 9 && 0 <= c1 < 9 && 0 <= r2 < 9 && 0 <= c2 < 9 &&
      (r1, c1) != (r2, c2) && SameUnit((r1, c1), (r2, c2)) ::
      g[r1][c1] == 0 || g[r1][c1] != g[r2][c2]
  }

  /** Every cell holds 0 (empty) or a digit. */
  predicate InRange(g: Grid) {
    forall r, c | 0 <= r < 9 && 0 <= c < 9 :: 0 <= g[r][c] <= 9
  }

  /** A board still on the way to a solution: digits or blanks, with no repeat. */
  predicate Partial(g: Grid) {
    InRange(g) && Consistent(g)
  }

  /** Every cell holds a digit. */
  predicate Complete(g: Grid) {
    forall r, c | 0 <= r < 9 && 0 <= c < 9 :: 1 <= g[r][c] <= 9
  }

  predicate Solved(g: Grid) {
    Complete(g) && Consistent(g)
  }

  /** h keeps every filled cell of g, and puts 0 or a digit where g is empty. */
  predicate Extends(g: Grid, h: Grid) {
    forall r, c | 0 <= r < 9 && 0 <= c < 9 ::
      if g[r][c] != 0 then h[r][c] == g[r][c] else 0 <= h[r][c] <= 9
  }

  /** The empty cells of g. */
  function Empties(g: Grid): set<Cell> {
    set r, c | 0 <= r < 9 && 0 <= c < 9 && g[r][c] == 0 :: (r, c)
  }

  /** The filled cells of g. */
  function Filled(g: Grid): set<Cell> {
    set r, c | 0 <= r < 9 && 0 <= c < 9 && g[r][c] != 0 :: (r, c)
  }

  /** Writing a value into an empty cell removes exactly that cell from the empty ones. */
  lemma FillShrinksEmpties(g: Grid, r: int, c: int, v: int)
    requires 0 <= r < 9 && 0 <= c < 9 && g[r][c] == 0 && v != 0
    ensures Empties(Update(g, r, c, v)) == Empties(g) - {(r, c)}
    ensures (r, c) in Empties(g)
  {
    var h := Update(g, r, c, v);
    forall x | x in Empties(g) - {(r, c)} ensures x in Empties(h) {
      assert h[x.0][x.1] == g[x.0][x.1];
    }
  }

  /**
   * The validity test of both backtracking searches keeps a board free of
   * repeats: a value absent from the row, column and box of (r, c) may be
   * written there.
   */
  lemma {:induction false} PlaceKeepsConsistent(g: Grid, r: int, c: int, v: int)
    requires 0 <= r < 9 && 0 <= c < 9
    requires Consistent(g) && Allowed(g, r, c, v)
    ensures Consistent(Update(g, r, c, v))
  {
    var h := Update(g, r, c, v);
    forall r1, c1, r2, c2 |
      0 <= r1 < 9 && 0 <= c1 < 9 && 0 <= r2 < 9 && 0 <= c2 < 9 &&
      (r1, c1) != (r2, c2) && SameUnit((r1, c1), (r2, c2))
      ensures h[r1][c1] == 0 || h[r1][c1] != h[r2][c2]
    {
      if (r1, c1) == (r, c) {
        BoxStartRange(r, r2);
        BoxStartRange(c, c2);
        assert h[r2][c2] == g[r2][c2];
      } else if (r2, c2) == (r, c) {
        BoxStartRange(r, r1);
        BoxStartRange(c, c1);
        assert h[r1][c1] == g[r1][c1];
      } else {
        assert h[r1][c1] == g[r1][c1] && h[r2][c2] == g[r2][c2];
      }
    }
  }

  /** The same for boards of digits and blanks: writing an allowed digit keeps one. */
  lemma PlaceKeepsPartial(g: Grid, r: int, c: int, v: int)
    requires 0 <= r < 9 && 0 <= c < 9 && 1 <= v <= 9
    requires Partial(g) && Allowed(g, r, c, v)
    ensures Partial(Update(g, r, c, v))
  {
    PlaceKeepsConsistent(g, r, c, v);
  }

  /** Writing a digit into an empty cell extends the board. */
  lemma FillExtends(g: Grid, r: int, c: int, v: int)
    requires 0 <= r < 9 && 0 <= c < 9 && g[r][c] == 0 && 1 <= v <= 9
    ensures Extends(g, Update(g, r, c, v))
  {
  }

  lemma ExtendsTransitive(g1: Grid, g2: Grid, g3: Grid)
    requires Extends(g1, g2) && Extends(g2, g3)
    ensures Extends(g1, g3)
  {
  }

  // ---- Rows, columns and boxes as sequences -------------------------------

  function Row(g: Grid, r: int): seq<int>
    requires 0 <= r < 9
  {
    g[r]
  }

  function Column(g: Grid, c: int): seq<int>
    requires 0 <= c < 9
  {
    seq(9, i requires 0 <= i < 9 => g[i][c])
  }

  /** Box b (0..8, numbered row-major) read row by row. */
  function Box(g: Grid, b: int): seq<int>
    requires 0 <= b < 9
  {
    seq(9, k requires 0 <= k < 9 => g[BoxStart(b) + k / 3][3 * (b % 3) + k % 3])
  }

  predicate NoRepeat<T(==)>(s: seq<T>) {
    forall i, j | 0 <= i < j < |s| :: s[i] != s[j]
  }

  /** No repeat means every element occurs once in the multiset of the sequence. */
  lemma {:induction false} NoRepeatCounts<T>(s: seq<T>)
    ensures NoRepeat(s) <==> forall v | v in s :: multiset(s)[v] <= 1
  {
    if s != [] {
      var init, x := s[..|s| - 1], s[|s| - 1];
      NoRepeatCounts(init);
      assert s == init + [x];
      assert multiset(s) == multiset(init) + multiset{x};
      assert NoRepeat(s) <==> NoRepeat(init) && x !in init by {
        if NoRepeat(s) {
          forall i | 0 <= i < |init| ensures init[i] != x { assert init[i] == s[i]; }
        }
        if NoRepeat(init) && x !in init {
          forall i, j | 0 <= i < j < |s| ensures s[i] != s[j] {
            if j < |s| - 1 { assert s[i] == init[i] && s[j] == init[j]; } else { assert s[i] == init[i]; }
          }
        }
      }
      assert (forall v | v in s :: multiset(s)[v] <= 1) <==>
             (forall v | v in init :: multiset(init)[v] <= 1) && x !in init by {
        if forall v | v in s :: multiset(s)[v] <= 1 {
          assert x in s;
          forall v | v in init ensures multiset(init)[v] <= 1 { assert v in s; }
        }
        if (forall v | v in init :: multiset(init)[v] <= 1) && x !in init {
          forall v | v in s ensures multiset(s)[v] <= 1 {
            if v != x { assert v in init; }
          }
        }
      }
    }
  }

  /** s holds each of the digits 1..9 exactly once. */
  predicate IsPermutationOfDigits(s: seq<int>) {
    |s| == 9 && NoRepeat(s) && forall d | 1 <= d <= 9 :: d in s
  }

  /** A sequence without repeats has as many distinct elements as it has positions. */
  lemma {:induction false} NoRepeatCard<T>(s: seq<T>)
    requires NoRepeat(s)
    ensures |set x | x in s| == |s|
  {
    if s != [] {
      var t := s[..|s| - 1];
      assert NoRepeat(t);
      NoRepeatCard(t);
      assert (set x | x in s) == (set x | x in t) + {s[|s| - 1]};
      assert s[|s| - 1] !in t;
    }
  }

  /** A subset as large as the whole set is the whole set. */
  lemma SubsetOfSameSize<T>(a: set<T>, b: set<T>)
    requires a <= b && |a| == |b|
    ensures a == b
  {
    assert b == a + (b - a);
    assert a * (b - a) == {};
    assert |b - a| == 0;
  }

  /** Nine different digits are all of them. */
  lemma {:induction false} Pigeonhole(s: seq<int>)
    requires |s| == 9 && NoRepeat(s)
    requires forall i | 0 <= i < 9 :: 1 <= s[i] <= 9
    ensures IsPermutationOfDigits(s)
  {
    NoRepeatCard(s);
    var present := set x | x in s;
    assert present <= Digits;
    SubsetOfSameSize(present, Digits);
    forall d | 1 <= d <= 9
      ensures d in s
    {
      assert d in present;
    }
  }

  lemma RowIsPermutation(g: Grid, k: int)
    requires Solved(g) && 0 <= k < 9
    ensures IsPermutationOfDigits(Row(g, k))
  {
    var row := Row(g, k);
    forall i, j | 0 <= i < j < 9
      ensures row[i] != row[j]
    {
      assert SameUnit((k, i), (k, j));
    }
    Pigeonhole(row);
  }

  lemma ColumnIsPermutation(g: Grid, k: int)
    requires Solved(g) && 0 <= k < 9
    ensures IsPermutationOfDigits(Column(g, k))
  {
    var col := Column(g, k);
    forall i, j | 0 <= i < j < 9
      ensures col[i] != col[j]
    {
      assert SameUnit((i, k), (j, k));
    }
    Pigeonhole(col);
  }

  /** Position i of box k lies in that box, and different positions are different cells. */
  lemma BoxCell(k: int, i: int)
    requires 0 <= k < 9 && 0 <= i < 9
    ensures var x := (BoxStart(k) + i / 3, 3 * (k % 3) + i % 3);
      InBoard(x) && x.0 / 3 == k / 3 && x.1 / 3 == k % 3 && x.0 % 3 == i / 3 && x.1 % 3 == i % 3
  {
  }

  lemma BoxIsPermutation(g: Grid, k: int)
    requires Solved(g) && 0 <= k < 9
    ensures IsPermutationOfDigits(Box(g, k))
  {
    var box := Box(g, k);
    forall i, j | 0 <= i < j < 9
      ensures box[i] != box[j]
    {
      var bi, bj := (BoxStart(k) + i / 3, 3 * (k % 3) + i % 3), (BoxStart(k) + j / 3, 3 * (k % 3) + j % 3);
      BoxCell(k, i);
      BoxCell(k, j);
      assert i == 3 * (i / 3) + i % 3 && j == 3 * (j / 3) + j % 3;
      assert bi != bj;
      assert SameUnit(bi, bj);
    }
    forall i | 0 <= i < 9
      ensures 1 <= box[i] <= 9
    {
      BoxCell(k, i);
    }
    Pigeonhole(box);
  }

  /**
   * The completed-grid invariant: in a solved grid every row, column and box
   * is a permutation of 1..9.
   */
  lemma SolvedUnitsArePermutations(g: Grid)
    requires Solved(g)
    ensures forall k | 0 <= k < 9 ::
      IsPermutationOfDigits(Row(g, k)) && IsPermutationOfDigits(Column(g, k)) && IsPermutationOfDigits(Box(g, k))
  {
    forall k | 0 <= k < 9
      ensures IsPermutationOfDigits(Row(g, k)) && IsPermutationOfDigits(Column(g, k)) && IsPermutationOfDigits(Box(g, k))
    {
      RowIsPermutation(g, k);
      ColumnIsPermutation(g, k);
      BoxIsPermutation(g, k);
    }
  }

  // ---- The 81 cells --------------------------------------------------------

  lemma AllCellsEnumerateBoard()
    ensures NoRepeat(AllCells())
    ensures forall x :: x in AllCells() <==> InBoard(x)
  {
    forall x | InBoard(x)
      ensures x in AllCells()
    {
      assert AllCells()[9 * x.0 + x.1] == x;
    }
  }

  function BoardCells(): set<Cell> {
    set x | x in AllCells()
  }

  lemma BoardCellsCount()
    ensures |BoardCells()| == 81
    ensures forall x :: x in BoardCells() <==> InBoard(x)
  {
    AllCellsEnumerateBoard();
    NoRepeatCard(AllCells());
  }
}
