/** The two ways the solver's copies walk the board, each shown to perform
    exactly the search of Search.Solve.

    - Sudoku/src/solver/Solver.java moves to the next cell with getNext and
      stops when the row reaches 9.
    - Sudoku_he6285ab/src/solver/Solver.java always recurses on (row, col+1)
      and, on entry, turns a column past 8 into the first cell of the next
      row before testing for row 9. */
module Traversal {
  import opened Grid
  import opened Search

  /** A position on the board, or the position one past the last cell. */
  datatype Pos = Pos(row: int, col: int)

  /** getNext: the cell after (row, col) in row-major order. */
  function GetNext(row: int, col: int): (next: Pos)
    requires 0 <= col <= 8
    ensures 0 <= next.col <= 8
    ensures 9 * next.row + next.col == 9 * row + col + 1
  {
    var col := col + 1;
    if col > 8 then Pos(row + 1, 0) else Pos(row, col)
  }

  /** The positions solve(row, col) of the getNext copy can be called with:
      a cell, or (9, 0) once the last cell has been passed. */
  predicate NextDomain(row: int, col: int) {
    (0 <= row <= 8 && 0 <= col <= 8) || (row == 9 && col == 0)
  }

  /** solve(row, col) of the getNext copy. */
  function SolveNext(b: Board, row: int, col: int): (r: Attempt)
    requires WellFormed(b) && NextDomain(row, col)
    ensures r == Solve(b, 9 * row + col)
    decreases 81 - (9 * row + col), 10
  {
    if row == 9 then
      Attempt(true, b)
    else if b[Index(row, col)] == 0 then
      TryNext(b, row, col, 1)
    else if Allowed(b, Index(row, col), b[Index(row, col)]) then
      var next := GetNext(row, col);
      SolveNext(b, next.row, next.col)
    else
      Attempt(false, b)
  }

  /** The `for (int i = 1; i < 10; i++)` loop of the getNext copy, from
      digit d on. */
  function TryNext(b: Board, row: int, col: int, d: int): (r: Attempt)
    requires WellFormed(b) && InIndex(row) && InIndex(col)
    requires b[Index(row, col)] == 0 && 1 <= d <= 10
    ensures r == TryDigits(b, Index(row, col), d)
    decreases 81 - (9 * row + col), 10 - d
  {
    if d > 9 then
      Attempt(false, b)
    else if Allowed(b, Index(row, col), d) then
      var placed := b[Index(row, col) := d];
      var next := GetNext(row, col);
      var sub := SolveNext(placed, next.row, next.col);
      if sub.solved then sub
      else TryNext(sub.board[Index(row, col) := 0], row, col, d + 1)
    else
      TryNext(b, row, col, d + 1)
  }

  /** solve(row, col) of the overflow-on-entry copy. Its callers pass a
      row in 0..8 and a column in 0..9; a column of 9 is the overflow. */
  function SolveWrap(b: Board, row: int, col: int): (r: Attempt)
    requires WellFormed(b) && 0 <= row <= 8 && 0 <= col <= 9
    ensures r == Solve(b, 9 * row + col)
    decreases 81 - (9 * row + col), 10
  {
    var row, col := if col > 8 then row + 1 else row, if col > 8 then 0 else col;
    if row == 9 then
      Attempt(true, b)
    else if b[Index(row, col)] == 0 then
      TryWrap(b, row, col, 1)
    else if Allowed(b, Index(row, col), b[Index(row, col)]) then
      SolveWrap(b, row, col + 1)
    else
      Attempt(false, b)
  }

  /** The digit loop of the overflow-on-entry copy, from digit d on. */
  function TryWrap(b: Board, row: int, col: int, d: int): (r: Attempt)
    requires WellFormed(b) && InIndex(row) && InIndex(col)
    requires b[Index(row, col)] == 0 && 1 <= d <= 10
    ensures r == TryDigits(b, Index(row, col), d)
    decreases 81 - (9 * row + col), 10 - d
  {
    if d > 9 then
      Attempt(false, b)
    else if Allowed(b, Index(row, col), d) then
      var placed := b[Index(row, col) := d];
      var sub := SolveWrap(placed, row, col + 1);
      if sub.solved then sub
      else TryWrap(sub.board[Index(row, col) := 0], row, col, d + 1)
    else
      TryWrap(b, row, col, d + 1)
  }

  /** The public solve() of either copy starts at (0, 0); both compute the
      same answer and the same board. */
  lemma CopiesAgree(b: Board)
    requires WellFormed(b)
    ensures SolveNext(b, 0, 0) == SolveWrap(b, 0, 0) == Solve(b, 0)
  {
  }
}
