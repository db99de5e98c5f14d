/** The solver's public operations on its board, with the argument checks
    that the source reports by throwing IllegalArgumentException.

    The solver's state is the board alone, so every operation that changes
    it is a function from the old board to a Result: Ok carries the new
    board, and Err means the call threw and the solver keeps the board it
    had. */
module Operations {
  import opened Grid
  import Validity

  /** The two reasons an argument check rejects a call. */
  datatype Error = OutOfRange | InvalidDigit

  datatype Result<T> = Ok(value: T) | Err(error: Error) {
    predicate IsFailure() {
      Err?
    }

    function PropagateFailure<U>(): Result<U>
      requires Err?
    {
      Err(error)
    }

    function Extract(): T
      requires Ok?
    {
      value
    }
  }

  /** checkIndexException: the coordinates must both lie in 0..8. */
  function CheckIndex(row: int, col: int): (r: Result<()>)
    ensures r.Ok? <==> InIndex(row) && InIndex(col)
    ensures r.Err? ==> r.error == OutOfRange
  {
    if row < 0 || row > 8 || col < 0 || col > 8 then Err(OutOfRange) else Ok(())
  }

  /** checkNumberException: the number must lie in lower..9. */
  function CheckNumber(num: int, lower: int): (r: Result<()>)
    ensures r.Ok? <==> lower <= num <= 9
    ensures r.Err? ==> r.error == InvalidDigit
  {
    if num < lower || num > 9 then Err(InvalidDigit) else Ok(())
  }

  /** setNumber: a raw write of a digit, with no check against the peers.
      The coordinates are checked before the digit. */
  function SetNumber(b: Board, row: int, col: int, n: int): (r: Result<Board>)
    requires |b| == 81
    ensures r.Ok? <==> InIndex(row) && InIndex(col) && IsDigit(n)
    ensures r.Err? ==> (r.error == OutOfRange <==> !(InIndex(row) && InIndex(col)))
    ensures r.Ok? ==> && |r.value| == 81
                      && r.value[Index(row, col)] == n
                      && forall q :: 0 <= q < 81 && q != Index(row, col) ==> r.value[q] == b[q]
    ensures r.Ok? && WellFormed(b) ==> WellFormed(r.value)
  {
    var _ :- CheckIndex(row, col);
    var _ :- CheckNumber(n, 1);
    Ok(b[Index(row, col) := n])
  }

  /** removeNumber: empty one cell. */
  function RemoveNumber(b: Board, row: int, col: int): (r: Result<Board>)
    requires |b| == 81
    ensures r.Ok? <==> InIndex(row) && InIndex(col)
    ensures r.Err? ==> r.error == OutOfRange
    ensures r.Ok? ==> && |r.value| == 81
                      && r.value[Index(row, col)] == 0
                      && forall q :: 0 <= q < 81 && q != Index(row, col) ==> r.value[q] == b[q]
    ensures r.Ok? && WellFormed(b) ==> WellFormed(r.value)
  {
    var _ :- CheckIndex(row, col);
    Ok(b[Index(row, col) := 0])
  }

  /** getNumber: read one cell. */
  function GetNumber(b: Board, row: int, col: int): (r: Result<int>)
    requires |b| == 81
    ensures r.Ok? <==> InIndex(row) && InIndex(col)
    ensures r.Err? ==> r.error == OutOfRange
    ensures r.Ok? ==> r.value == b[Index(row, col)]
    ensures r.Ok? && WellFormed(b) ==> IsCellValue(r.value)
  {
    var _ :- CheckIndex(row, col);
    Ok(b[Index(row, col)])
  }

  /** clear: every cell becomes empty, whatever the board held. */
  function Clear(b: Board): (r: Board)
    ensures WellFormed(r)
    ensures forall q :: 0 <= q < 81 ==> r[q] == 0
  {
    EmptyBoard()
  }

  /** trySetNumber of Sudoku/src/solver/Solver.java: the argument checks of
      setNumber, then the accumulating isValid. The board is not written. */
  method TrySetNumber(b: Board, row: int, col: int, n: int) returns (r: Result<bool>)
    requires |b| == 81
    ensures r.Ok? <==> InIndex(row) && InIndex(col) && IsDigit(n)
    ensures r.Err? ==> (r.error == OutOfRange <==> !(InIndex(row) && InIndex(col)))
    ensures r.Ok? ==> (r.value <==> Allowed(b, Index(row, col), n))
  {
    if row < 0 || row > 8 || col < 0 || col > 8 {
      return Err(OutOfRange);
    }
    if n < 1 || n > 9 {
      return Err(InvalidDigit);
    }
    var valid := Validity.IsValidAccumulating(b, row, col, n);
    return Ok(valid);
  }

  /** trySetNumber of Sudoku_he6285ab/src/solver/Solver.java: the same
      checks through checkIndexException and checkNumberException, then the
      early-return isValid. */
  method TrySetNumberChecked(b: Board, row: int, col: int, n: int) returns (r: Result<bool>)
    requires |b| == 81
    ensures r.Ok? <==> InIndex(row) && InIndex(col) && IsDigit(n)
    ensures r.Err? ==> (r.error == OutOfRange <==> !(InIndex(row) && InIndex(col)))
    ensures r.Ok? ==> (r.value <==> Allowed(b, Index(row, col), n))
  {
    var _ :- CheckIndex(row, col);
    var _ :- CheckNumber(n, 1);
    var valid := Validity.IsValidEarlyReturn(b, row, col, n);
    return Ok(valid);
  }

  /** A caller-supplied grid of nine rows of nine numbers. Other shapes are
      outside the model. */
  predicate Shape(grid: seq<seq<int>>) {
    |grid| == 9 && forall r :: 0 <= r < 9 ==> |grid[r]| == 9
  }

  /** The flat board holding the rows of grid one after the other. */
  function Flatten(grid: seq<seq<int>>): (b: Board)
    requires Shape(grid)
    ensures |b| == 81
    ensures forall r, c :: InIndex(r) && InIndex(c) ==> b[Index(r, c)] == grid[r][c]
  {
    seq(81, p requires 0 <= p < 81 => grid[p / 9][p % 9])
  }

  /** getNumbers: the board as nine rows, handed out by value. */
  function GetNumbers(b: Board): (grid: seq<seq<int>>)
    requires |b| == 81
    ensures Shape(grid)
    ensures forall r, c :: InIndex(r) && InIndex(c) ==> grid[r][c] == b[Index(r, c)]
  {
    seq(9, r requires 0 <= r < 9 => b[9 * r .. 9 * r + 9])
  }

  /** Every entry of grid is a cell value 0..9. */
  predicate AllCellValues(grid: seq<seq<int>>)
    requires Shape(grid)
  {
    forall r, c :: 0 <= r < 9 && 0 <= c < 9 ==> IsCellValue(grid[r][c])
  }

  /** setNumbers: check all 81 entries first and replace the board only when
      every one is in 0..9 (both copies accept 0, the empty cell). On a bad
      entry nothing has been written. */
  method SetNumbers(grid: seq<seq<int>>) returns (r: Result<Board>)
    requires Shape(grid)
    ensures r.Ok? <==> AllCellValues(grid)
    ensures r.Err? ==> r.error == InvalidDigit
    ensures r.Ok? ==> && WellFormed(r.value)
                      && forall row, col :: InIndex(row) && InIndex(col) ==> r.value[Index(row, col)] == grid[row][col]
  {
    for row := 0 to 9
      invariant forall r', c :: 0 <= r' < row && 0 <= c < 9 ==> IsCellValue(grid[r'][c])
    {
      for col := 0 to 9
        invariant forall r', c :: 0 <= r' < row && 0 <= c < 9 ==> IsCellValue(grid[r'][c])
        invariant forall c :: 0 <= c < col ==> IsCellValue(grid[row][c])
      {
        var _ :- CheckNumber(grid[row][col], 0);
      }
    }
    assert AllCellValues(grid);
    var b := Flatten(grid);
    forall q | 0 <= q < 81
      ensures IsCellValue(b[q])
    {
      IndexOfCoordinates(q);
      assert b[q] == grid[RowOf(q)][ColOf(q)];
    }
    return Ok(b);
  }

  /** Reading the board out and loading it back are inverse: loading a
      grid and reading it out gives the grid, and reading out a board and
      flattening it gives the board. */
  lemma GetNumbersRoundTrip(b: Board, grid: seq<seq<int>>)
    requires |b| == 81 && Shape(grid)
    ensures Flatten(GetNumbers(b)) == b
    ensures GetNumbers(Flatten(grid)) == grid
  {
    var g := GetNumbers(b);
    forall q | 0 <= q < 81
      ensures Flatten(g)[q] == b[q]
    {
      IndexOfCoordinates(q);
    }
    var f := Flatten(grid);
    forall r | 0 <= r < 9
      ensures GetNumbers(f)[r] == grid[r]
    {
      forall c | 0 <= c < 9
        ensures GetNumbers(f)[r][c] == grid[r][c]
      {
      }
    }
  }

  /** After setNumber(row, col, n), getNumber(row, col) gives n and every
      other cell reads as before. */
  lemma SetThenGet(b: Board, row: int, col: int, n: int, r: int, c: int)
    requires |b| == 81 && InIndex(row) && InIndex(col) && IsDigit(n)
    requires InIndex(r) && InIndex(c) && (r != row || c != col)
    ensures SetNumber(b, row, col, n).Ok?
    ensures GetNumber(SetNumber(b, row, col, n).value, row, col) == Ok(n)
    ensures GetNumber(SetNumber(b, row, col, n).value, r, c) == GetNumber(b, r, c)
  {
    IndexInjective(row, col, r, c);
  }

  /** After removeNumber(row, col), getNumber(row, col) gives 0 and every
      other cell reads as before. */
  lemma RemoveThenGet(b: Board, row: int, col: int, r: int, c: int)
    requires |b| == 81 && InIndex(row) && InIndex(col)
    requires InIndex(r) && InIndex(c) && (r != row || c != col)
    ensures RemoveNumber(b, row, col).Ok?
    ensures GetNumber(RemoveNumber(b, row, col).value, row, col) == Ok(0)
    ensures GetNumber(RemoveNumber(b, row, col).value, r, c) == GetNumber(b, r, c)
  {
    IndexInjective(row, col, r, c);
  }

  /** After clear, every cell reads as empty. */
  lemma ClearThenGet(b: Board, row: int, col: int)
    requires InIndex(row) && InIndex(col)
    ensures GetNumber(Clear(b), row, col) == Ok(0)
  {
  }
}
