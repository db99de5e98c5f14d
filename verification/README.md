# Sudoku board solver — a verified model

This project models the board solver of the Sudoku repository: the
`SudokuSolver` interface and its `Solver` class. The repository holds two
near-identical copies of the class, `Sudoku/` and `Sudoku_he6285ab/`, and the
model covers both.

The solver owns a 9x9 board of integers. 0 is an empty cell and 1..9 a placed
digit. It offers indexed set, remove and get, a whole-board clear, a bulk load
that checks every entry before it commits, a peer check (`trySetNumber` /
`isValid`), and a recursive backtracking `solve()`.

Layout:

- `grid.dfy` (module `Grid`): the board, stored flat in row-major order, so
  cell (row, col) is index 9*row + col. It also holds the game rules: `Peer`
  (two cells sharing a row, column or box), `Allowed` (no peer holds the
  digit), `IsSolution`, `Extends` (a grid keeps every given of a board) and
  `Solvable`.
- `operations.dfy` (module `Operations`): the public operations. A thrown
  `IllegalArgumentException` becomes an `Err(OutOfRange)` or
  `Err(InvalidDigit)` result. The solver's only state is its board. An
  operation that can throw returns a `Result`: `Ok` carries the new board
  (or the value read), and `Err` means the solver keeps the board it had.
  `SetNumber` and `RemoveNumber` take the old board; `SetNumbers` builds
  the new board from the caller's grid alone. `Clear` cannot fail, so it
  returns a plain board.
- `validity.dfy` (module `Validity`): the two `isValid` loops, one with an
  accumulator flag and one with early return. Each is proved to compute
  `Allowed`.
- `search.dfy` (module `Search`): the backtracking search as a pair of
  mutually recursive functions over the flat index. `Solve` handles one cell
  and `TryDigits` is the loop over digits 1..9. It is proved to restore the
  board exactly on failure, sound on success, and complete.
- `traversal.dfy` (module `Traversal`): the two copies' ways of stepping to
  the next cell. One uses `getNext`; the other normalises an overflowing
  column on entry. Each copy's `solve(row, col)` is proved equal to
  `Search.Solve` at index 9*row + col.
- `scenarios.dfy` (module `Scenarios`): the unit-test scenarios, stated as
  lemmas over all runs.

Where the documentation and the code differ, the model follows the code:

- The `setNumbers` doc comment (Sudoku/src/solver/SudokuSolver.java:63-69)
  says every number must be in 1..9. The comment at
  Sudoku/src/solver/Solver.java:101 says the same. Both implementations
  accept 0..9: Sudoku/src/solver/Solver.java:95 checks `< 0 || > 9`, and
  Sudoku_he6285ab/src/solver/Solver.java:77 passes lower bound 0. The model
  accepts 0..9, so a bulk load may contain empty cells.
- The first `isValid` loop has the comment "Row" but scans the column; the
  comment "Col" marks the row scan. The model names the scans by what they
  do.

## Model

| member | source | states |
|---|---|---|
| Operations.CheckIndex | Sudoku_he6285ab/src/solver/Solver.java:172-176 | passes exactly when row and col both lie in 0..8; otherwise fails with OutOfRange |
| Operations.CheckNumber | Sudoku_he6285ab/src/solver/Solver.java:179-183 | passes exactly when lower <= num <= 9; otherwise fails with InvalidDigit (lower is 1 for single cells, 0 for a bulk load) |
| Operations.SetNumber | Sudoku/src/solver/Solver.java:24-34 | succeeds iff the indices are in 0..8 and the digit in 1..9, with OutOfRange taking precedence; on success exactly the addressed cell holds the digit, the other 80 are unchanged, and cell values stay in 0..9 |
| Operations.RemoveNumber | Sudoku/src/solver/Solver.java:74-80 | succeeds iff the indices are in 0..8, otherwise OutOfRange; on success the cell is 0 and every other cell is unchanged |
| Operations.GetNumber | Sudoku/src/solver/Solver.java:56-62 | succeeds iff the indices are in 0..8, otherwise OutOfRange; on success the value is the one stored in cell (row, col), which on a well-formed board is in 0..9 |
| Operations.Clear | Sudoku/src/solver/Solver.java:16-18 | whatever the board held, every cell becomes 0 |
| Operations.TrySetNumber | Sudoku/src/solver/Solver.java:40-50 | same failures as setNumber; on success answers true exactly when no other cell in the row, column or box holds the digit; the board is not written |
| Operations.TrySetNumberChecked | Sudoku_he6285ab/src/solver/Solver.java:34-38 | the other copy's trySetNumber, through the guard functions and the early-return scan: the same failures and the same answer |
| Operations.GetNumbers | Sudoku/src/solver/Solver.java:66-68 | hands the board out as nine rows of nine, entry (r, c) being cell (r, c) |
| Operations.SetNumbers | Sudoku/src/solver/Solver.java:92-103 | succeeds iff every one of the 81 entries is in 0..9, otherwise fails with InvalidDigit and commits nothing; on success the board holds each entry at its position and is well-formed |
| Operations.GetNumbersRoundTrip | Sudoku/src/solver/SudokuSolver.java:56-69 | reading the board out and loading it back are inverse operations, in both directions |
| Operations.SetThenGet | Sudoku_he6285ab/src/test/SolverTest.java:59-66 | after setNumber(row, col, n), getNumber(row, col) gives n and every other cell reads as before |
| Operations.RemoveThenGet | Sudoku_he6285ab/src/test/SolverTest.java:137-145 | after removeNumber(row, col), getNumber(row, col) gives 0 and every other cell reads as before |
| Operations.ClearThenGet | Sudoku/src/solver/SudokuSolver.java:46-49 | after clear, every cell reads 0 |
| Validity.ScansCoverPeers | Sudoku/src/solver/Solver.java:173-197 | the line scan and the box scan, which skips the cell's own row and column, together look at exactly the peers of the cell |
| Validity.IsValidAccumulating | Sudoku/src/solver/Solver.java:170-200 | the accumulator loop returns true iff no peer of (row, col) holds the number |
| Validity.IsValidEarlyReturn | Sudoku_he6285ab/src/solver/Solver.java:140-169 | the early-return loop returns true iff no peer of (row, col) holds the number, which is the accumulator version's answer |
| Search.Solve | Sudoku/src/solver/Solver.java:113-156 | a failed search hands back exactly the board it started with; cells before the start are never written; givens are never overwritten; on success every cell from the start on holds a digit that no peer repeats; cell values stay in 0..9 |
| Search.TryDigits | Sudoku/src/solver/Solver.java:126-140 | the digit loop keeps the same contract; every tentative placement is undone before the next digit is tried or the loop fails |
| Search.SolveComplete | Sudoku_he6285ab/src/solver/Solver.java:108-124 | if some solved grid keeps every given of the board, the search succeeds from any starting cell |
| Search.TryDigitsComplete | Sudoku_he6285ab/src/solver/Solver.java:111-122 | the ascending digit loop reaches a solution's digit at the latest, because failed branches restore the board |
| Search.SolveCorrect | Sudoku/src/solver/SudokuSolver.java:51-54 | solve() returns true iff the board is solvable; on true the board is a full rule-consistent grid that keeps every given; on false it is exactly the pre-call board |
| Search.SolvedBoardUnchanged | Sudoku_he6285ab/src/solver/Solver.java:127-133 | on a board that is already solved, solve() returns true and writes nothing |
| Search.ConflictingGivensFail | Sudoku/src/solver/Solver.java:143-154 | two givens sharing a digit in one row, column or box make solve() return false with the board unchanged |
| Traversal.GetNext | Sudoku/src/solver/Solver.java:158-168 | the returned position is the row-major successor: its flat index is one more, and its column is back in 0..8 |
| Traversal.SolveNext | Sudoku/src/solver/Solver.java:113-156 | the getNext copy's solve(row, col), stopping at row 9, gives the same answer and board as the reference search from index 9*row + col |
| Traversal.TryNext | Sudoku/src/solver/Solver.java:122-140 | the getNext copy's digit loop equals the reference digit loop |
| Traversal.SolveWrap | Sudoku_he6285ab/src/solver/Solver.java:92-135 | the copy that turns column 9 into (row+1, 0) on entry gives the same answer and board as the reference search from index 9*row + col |
| Traversal.TryWrap | Sudoku_he6285ab/src/solver/Solver.java:107-124 | the overflow copy's digit loop equals the reference digit loop |
| Traversal.CopiesAgree | Sudoku_he6285ab/src/solver/Solver.java:65-68 | solve() of either copy, starting at (0, 0), computes the same answer and the same board |
| Scenarios.EmptyBoardSolves | Sudoku_he6285ab/src/test/SolverTest.java:218-221 | solve() succeeds on the empty board and leaves a full solved grid |
| Scenarios.PlacementBesideAOne | Sudoku_he6285ab/src/test/SolverTest.java:23-30 | with 1 at (0, 0), a 2 is allowed at (0, 1) and a 1 is not |
| Scenarios.DuplicateInRowFails | Sudoku_he6285ab/src/test/SolverTest.java:223-228 | 1 at (0, 0) and at (0, 1): solve() returns false and the board is unchanged |
| Scenarios.BlockedBoardUnsolvable | Sudoku_he6285ab/src/test/SolverTest.java:232-238 | 1..6 in the top-left box's first two rows plus 7 at (2, 3) has no solution |
| Scenarios.UnsolvableThenSolvable | Sudoku_he6285ab/src/test/SolverTest.java:230-242 | solve() on that board returns false and restores it; after removing (2, 3), solve() returns true |

## Left out

- Both `SudokuController.java` files are left out. They are the Swing window,
  button listeners and dialogs, and they parse cell text through library
  calls.
- Java heap aliasing is left out. `getNumbers` returns the live internal
  array and `setNumbers` adopts the caller's array without copying. The model
  treats boards as values, so a caller cannot bypass the checks through a
  shared array.
- The shape of the `setNumbers` argument is a precondition (nine rows of
  nine). In Java, a grid with fewer rows or shorter rows throws
  `ArrayIndexOutOfBoundsException`. Extra rows or columns are adopted
  unchecked, and `getNumber` and `solve` never read them.
- Running time and search cost are not modelled.
- The concrete puzzle of Sudoku_he6285ab/src/test/SolverTest.java:244-270 is
  left out. Its expected rows 2 and 6 would need the search evaluated on a
  specific board, which is too expensive for the verifier. The general
  theorems reduce that test to two facts about the puzzle: that it is
  solvable, and that its solution is unique. Neither is shown here.
- Search.Solve: the model does not prove which solution is found when there
  are several. The search does try digits in ascending order, as the source
  does.
- Exceptions are modelled as `Err` results, not as control flow. A call that
  throws is one that returns `Err` and leaves the board as it was.
- Inside the search, `trySetNumber`, `setNumber`, `removeNumber` and
  `getNumber` are always called with indices in 0..8 and digits in 1..9, so
  their checks always pass. The search functions therefore read and write
  cells directly and test placements with `Allowed`. `Validity` proves that
  `Allowed` is what both `isValid` loops compute.
