# Killer Sudoku generator and solver, modelled in Dafny

KillerSudokuSolver.py does three things to produce a puzzle:

- it fills a 9x9 sudoku grid by randomised backtracking;
- it grows "cages" over that grid. A cage is a list of cells joined by
  up/down/left/right steps, and it records the sum of the grid values under
  it;
- it copies a number of solution cells into an empty board.

It then solves the resulting killer sudoku with a backtracking search. The
search uses forward checking (every cell's candidate set is recomputed
before each choice) and picks the open cell with the fewest candidates
(minimum remaining values).

The model follows the source function by function:

- `sudoku.dfy` (module `Sudoku`): the grid as a value (`Grid`, nine rows of
  nine integers, 0 for an open cell). It defines the rules: rows, columns,
  3x3 boxes, `Allowed`, `Consistent`, `Solved`. It proves that a solved grid
  has every row, column and box a permutation of 1..9.
- `random_source.dfy` (module `RandomSource`): `random.choice`,
  `random.randint` and `random.shuffle`, each as an arbitrary choice within
  the range the Python library promises.
- `grid_generator.dfy` (module `GridGenerator`): `is_valid`, `solve` and
  `generate_sudoku_grid`, as methods on a mutable `array2<int>`. The shared
  list of candidates is an `array<int>` that every call reshuffles.
- `cages.dfy` (module `Cages`): the cage record, on-board, disjointness and
  growth predicates, connectivity, and the cage value lists the solver
  computes.
- `cage_generator.dfy` (module `CageGenerator`): `get_neighbors`,
  `list.remove` and the two nested loops of `generate_killer_sudoku_cages`.
- `board_masker.dfy` (module `BoardMasker`): `generate_starting_board`.
- `killer_solver.dfy` (module `KillerSolver`): `optimized_backtracking_solver`
  and its inner functions. The domains table is an `array2<set<int>>`.
- `pipeline.dfy` (module `Pipeline`): how the masker's output meets the
  solver's cage test, as `solve_multiple_boards` chains the stages.
- `wrappers.dfy`: `Option` and `Result`. The solver's `ValueError` becomes
  `Err`, a branch the solver never takes.

The source has some quirks, and the model keeps them as they are:

- The cage test only checks the cage sum from above: the filled values plus
  the new one must not exceed the target.
- The search stops as soon as no cell has more than one candidate. An open
  cell with one candidate, or with none, therefore stays 0 in the returned
  board (`KillerSolver.HoleLeftOpen`).
- A board whose cells are all filled has no cell with more than one
  candidate, whatever it holds. It is returned unchanged, even with a
  repeated digit (`KillerSolver.RepeatedDigitsAccepted`). One might expect
  such a board to be rejected; the code returns it, and the model follows
  the code.
- A cage can end with a single cell when its starting cell has no free
  neighbour (`CageGenerator.SinglesBlocked`). A killer-sudoku cage usually
  has at least two cells; the code does not enforce this, and the model
  follows the code. The first cage always has two or more cells
  (`CageGenerator.FirstCageNotSingle`).
- The search never backtracks and never fails. The selected cell's
  candidates were computed by forward checking on the very grid the search
  then tests them against, so the first candidate always passes
  `is_valid_killer`, and the recursion below it succeeds in turn. The reset
  to 0 after a failed recursion and the `ValueError` are never reached: the
  solver returns a board for every input. In particular a partial board that
  already repeats a digit in a row is not rejected.

## Model

| member | source | states |
|---|---|---|
| Sudoku.PlaceKeepsConsistent | KillerSudokuSolver.py:8-17 | writing a value that passes the row/column/box test into a grid without repeats leaves it without repeats |
| Sudoku.SolvedUnitsArePermutations | KillerSudokuSolver.py:19-31 | in a solved grid every row, column and 3x3 box holds each digit 1..9 exactly once |
| Sudoku.AllCellsEnumerateBoard | KillerSudokuSolver.py:52 | the initial pool lists every board cell exactly once and nothing else |
| RandomSource.Choice | KillerSudokuSolver.py:41 | random.choice returns an element of the non-empty list |
| RandomSource.RandInt | KillerSudokuSolver.py:60 | random.randint(lo, hi) returns an integer within [lo, hi] |
| RandomSource.Shuffle | KillerSudokuSolver.py:23 | random.shuffle only rearranges the list: the multiset of its elements is unchanged |
| GridGenerator.IsValid | KillerSudokuSolver.py:8-17 | true exactly when num is absent from the row, the column and the 3x3 box of (row, col) |
| GridGenerator.Solve | KillerSudokuSolver.py:19-31 | on failure the grid is as before; on success no filled cell changed, no cell is 0, and a grid that started with digits and blanks without repeats is solved |
| GridGenerator.FillCell | KillerSudokuSolver.py:22-30 | the loop at the first open cell tries the digit at each position of the reshuffled shared list; a failed call leaves the grid as before, success as for Solve, and the list still holds digits |
| GridGenerator.TryDigit | KillerSudokuSolver.py:25-29 | a digit passing is_valid is written and the search recurses; a failed recursion resets the cell to 0, so the grid is as before |
| GridGenerator.GenerateSudokuGrid | KillerSudokuSolver.py:33-36 | the returned fresh 9x9 grid is a solved sudoku, or still all zeros had the search failed |
| CageGenerator.GetNeighbors | KillerSudokuSolver.py:43-50 | a cell is returned exactly when it is in the pool and one up/down/left/right step from the given cell |
| CageGenerator.Remove | KillerSudokuSolver.py:58 | list.remove drops one occurrence: one element fewer, and the multiset loses exactly that cell |
| CageGenerator.RemoveFromPool | KillerSudokuSolver.py:70 | removing a cell from a repeat-free pool leaves exactly the other cells, still without repeats |
| CageGenerator.CollectNeighbors | KillerSudokuSolver.py:63-65 | the collected list holds exactly the pool cells adjacent to some cell of the cage |
| CageGenerator.AppendCage | KillerSudokuSolver.py:72-73 | appending a cage of fresh, on-board, grown cells with its grid sum keeps all cages disjoint, bounded, grown and sum-correct, and adds exactly its cells to the covered cells |
| CageGenerator.GenerateKillerSudokuCages | KillerSudokuSolver.py:39-75 | the cages are on the board and pairwise disjoint, repeat-free, of 1..maxCageSize cells each grown by adjacent steps, and record the grid sum of their cells; a cage of a single cell had every neighbour already in an earlier cage; at most minCages are made, and fewer only when every cell is covered |
| CageGenerator.SingleCellBlocked | KillerSudokuSolver.py:62-68 | a cage the grow loop leaves at one cell, below a target of at least two, has every board neighbour inside an existing cage |
| CageGenerator.SinglesBlockedAppend | KillerSudokuSolver.py:72-73 | appending a cage that meets the early-stop rule keeps the rule for the whole cage list |
| CageGenerator.FirstCageNotSingle | KillerSudokuSolver.py:55-73 | the first cage made never has a single cell, since every board cell has a neighbour and no earlier cage covers it |
| CageGenerator.GrowCage | KillerSudokuSolver.py:62-70 | the grow loop only moves pool cells adjacent to the cage into it, keeps the starting cells first, the cage within its target size and the pool exactly the uncovered cells; if the cage stays below target, no pool cell is adjacent to it |
| Cages.GrownIsConnected | KillerSudokuSolver.py:62-70 | a cage grown by adding neighbours of its cells is connected: every cell is reachable from the starting cell by adjacent steps inside the cage |
| BoardMasker.GenerateStartingBoard | KillerSudokuSolver.py:78-87 | the fresh board holds the solution's value on exactly numPrefilled distinct cells (none for a negative count) and 0 elsewhere |
| BoardMasker.MaskFilledCells | KillerSudokuSolver.py:84-86 | masking a complete grid leaves non-zero exactly the chosen cells |
| BoardMasker.MaskKeepsPartial | KillerSudokuSolver.py:78-87 | a mask of a repeat-free grid of digits is itself repeat-free with values 0..9 |
| KillerSolver.FirstCage | KillerSudokuSolver.py:102-110 | the cage loop consults the first cage listing the cell: no earlier cage lists it, and None only when no cage does |
| KillerSolver.IsValidKiller | KillerSudokuSolver.py:91-110 | true exactly when num is absent from row, column and box and, for the first cage listing the cell, num is not among its filled values and their sum plus num is at most the target |
| KillerSolver.FillInsideCage | KillerSudokuSolver.py:104 | filling an open cell of a repeat-free cage adds exactly the new value to the cage's filled values and to their sum |
| KillerSolver.FillOutsideCage | KillerSudokuSolver.py:104 | filling a cell a cage does not list leaves its filled values unchanged |
| KillerSolver.PlaceKeepsCagesConsistent | KillerSudokuSolver.py:102-110 | with disjoint cages, a value passing the cage test keeps every cage free of repeated values and within its target sum |
| KillerSolver.PossibleValues | KillerSudokuSolver.py:118 | the set holds exactly the digits 1..9 that pass is_valid_killer at the cell |
| KillerSolver.ForwardChecking | KillerSudokuSolver.py:112-119 | afterwards each filled cell's domain is the singleton of its value and each open cell's domain is exactly its digits passing is_valid_killer |
| KillerSolver.DomainSize | KillerSudokuSolver.py:112-119 | a domain never has more than nine members, and an open cell's domain holds digits only |
| KillerSolver.SelectUnassignedVariable | KillerSudokuSolver.py:121-129 | None exactly when no domain has between 2 and 9 members; otherwise such a cell whose domain is no larger than any domain with two or more members, and strictly smaller than those of all such cells before it in row-major order |
| KillerSolver.SortedValues | KillerSudokuSolver.py:138 | sorted() of a digit set: its members, each once, strictly increasing |
| KillerSolver.Backtrack | KillerSudokuSolver.py:131-144 | the search always returns True; it only fills open cells with digits, leaves no cell with two or more candidates, leaves the domains describing the final grid, and keeps the grid repeat-free and the cages consistent; a board already without choice is accepted unchanged |
| KillerSolver.TryCell | KillerSudokuSolver.py:138-144 | the selected cell's candidates are non-empty digits, and the first of them in increasing order passes and its recursion succeeds: the loop always succeeds, the cell ends holding its smallest candidate, and the result is as for Backtrack |
| KillerSolver.TryValue | KillerSudokuSolver.py:139-143 | it succeeds exactly when the value passes is_valid_killer, leaving it written in the cell; otherwise the grid is unchanged; the reset after a failed recursion is never reached |
| KillerSolver.OptimizedBacktrackingSolver | KillerSudokuSolver.py:146-152 | the result is always Ok, on a fresh copy holding a board extending the input with no choice left, keeping it repeat-free and its cages consistent; the ValueError is never raised; a board already without choice is returned as it is |
| KillerSolver.FullBoardLeavesNoChoice | KillerSudokuSolver.py:131-135 | a board without open cells has no cell with more than one candidate, whatever it holds |
| KillerSolver.RepeatedDigitsAccepted | KillerSudokuSolver.py:131-135 | the all-ones board has repeats yet leaves no choice, so the solver returns it |
| KillerSolver.HoleLeftOpen | KillerSudokuSolver.py:121-135 | for any cages on the board, a solved grid with one cell cleared leaves no choice, so the solver returns it with that cell still 0; the cleared digit is the cell's only possible candidate, and with no cages it is the candidate |
| KillerSolver.FilledResultIsSolved | KillerSudokuSolver.py:131-144 | a result that extends a grid of digits and blanks, has no repeats and no open cell is a solved sudoku |
| Pipeline.MaskedCageValues | KillerSudokuSolver.py:78-87 | a masked cage's filled values are a sub-multiset of the solution's values under the cage |
| Pipeline.MaskedCageTotal | KillerSudokuSolver.py:78-87 | a masked cage's filled values never sum to more than the solution's sum under the cage |
| Pipeline.MaskedPuzzleCagesConsistent | KillerSudokuSolver.py:160-166 | when the solution's cages hold distinct values and record their sums, the masked puzzle already meets the solver's cage test |

## Left out

- The interactive menu, `input` and `print` (KillerSudokuSolver.py:186-226) are console I/O and are not modelled.
- solve_multiple_boards (KillerSudokuSolver.py:155-183) measures time with `time.time()` and plots floating-point durations, so it is not modelled. Only its chaining of the stages appears, in `Pipeline`.
- Random distributions: choice, randint and shuffle are arbitrary choices, and nothing is claimed about uniformity.
- BoardMasker.GenerateStartingBoard: the source draws coordinates until it has enough distinct ones, and a repeated draw changes nothing. The model draws only among cells not yet chosen, so its loop provably ends. A count above 81 never ends in the source and is excluded by a precondition.
- CageGenerator.GenerateKillerSudokuCages: `maxCageSize >= 2` is a precondition, because `random.randint(2, m)` raises for a smaller m.
- KillerSolver.IsValidKiller: the cages must lie on the board (`WellFormed`). Python would accept a negative index by wrapping around, and that is not modelled. The filled-values list comprehension is the function `FilledValues`, not a loop.
- KillerSolver.SortedValues: sorted() is modelled for sets of digits only. Those are the only sets the solver sorts, because an open cell's domain holds digits.
- KillerSolver.TryValue: the reset of the cell to 0 after a failed recursion (KillerSudokuSolver.py:143) is not written out, because the recursion provably never fails and the statement can never run.
- KillerSolver.Backtrack: the search always returns True but need not fill the grid. Open cells with one candidate or none stay 0, as the quirks above describe.
- GridGenerator.GenerateSudokuGrid: does not prove that the search always fills the grid; the result is a solved grid or, had the search failed, the empty one.
- Cages.GrownIsConnected is stated for the growth order the generator follows; cage shapes are not otherwise constrained.
- The generated cages are not proved to hold distinct values. A cage of four cells can span two boxes, rows and columns and so repeat a digit. The pipeline lemma therefore takes distinctness as a hypothesis.
- numpy arrays (`np.zeros`, `np.copy`) are fresh `array2<int>` values. Their fixed-width integers are unbounded integers here, which makes no difference for values 0..9 and sums of at most 81 of them.
