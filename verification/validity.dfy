/** The two isValid implementations of the solver, each shown to compute
    Grid.Allowed.

    Both scan in two phases. The first loop runs i over 0..8 and looks at
    (i, col) for every i != row, and at (row, i) for every i != col; the
    source labels the first of these "Row" although it walks the column.
    The second phase walks the 3x3 box of (row, col) but skips every cell
    in row `row` or column `col`, since the first phase saw those. */
module Validity {
  import opened Grid

  /** The first phase has cleared rows/columns 0..k-1. */
  predicate LinesClear(b: Board, row: int, col: int, n: int, k: int)
    requires |b| == 81 && InIndex(row) && InIndex(col) && 0 <= k <= 9
  {
    forall i :: 0 <= i < k ==>
      && (i != row ==> b[Index(i, col)] != n)
      && (i != col ==> b[Index(row, i)] != n)
  }

  /** Box cell (r, c) does not spoil the check: it lies in the skipped row
      or column, or does not hold n. */
  predicate BoxCellClear(b: Board, row: int, col: int, n: int, r: int, c: int)
    requires |b| == 81 && InIndex(r) && InIndex(c)
  {
    r != row && c != col ==> b[Index(r, c)] != n
  }

  /** The box scan has cleared its rows top..r-1. */
  predicate BoxRowsClear(b: Board, row: int, col: int, n: int, r: int)
    requires |b| == 81 && InIndex(row) && InIndex(col)
    requires row - row % 3 <= r <= row - row % 3 + 3
  {
    forall r', c' ::
      row - row % 3 <= r' < r && col - col % 3 <= c' < col - col % 3 + 3 ==>
        BoxCellClear(b, row, col, n, r', c')
  }

  /** The box of a row or column index x starts at x - x % 3 and spans
      three indices; y lies in it exactly when y / 3 == x / 3. */
  lemma BoxSpan(x: int, y: int)
    requires InIndex(x) && InIndex(y)
    ensures 0 <= x - x % 3 <= x <= x - x % 3 + 2 <= 8
    ensures x / 3 == y / 3 <==> x - x % 3 <= y < x - x % 3 + 3
  {
  }

  /** Every peer of (row, col) is seen by one of the two scans. */
  lemma ScansImplyAllowed(b: Board, row: int, col: int, n: int)
    requires |b| == 81 && InIndex(row) && InIndex(col)
    requires LinesClear(b, row, col, n, 9)
    requires BoxRowsClear(b, row, col, n, row - row % 3 + 3)
    ensures Allowed(b, Index(row, col), n)
  {
    var p := Index(row, col);
    forall q | 0 <= q < 81 && Peer(p, q)
      ensures b[q] != n
    {
      IndexOfCoordinates(q);
      var r, c := RowOf(q), ColOf(q);
      PeerInCoordinates(row, col, r, c);
      if r == row {
        assert c != col;
      } else if c == col {
        assert r != row;
      } else {
        BoxSpan(row, r);
        BoxSpan(col, c);
        assert BoxCellClear(b, row, col, n, r, c);
      }
    }
  }

  /** Every cell the two scans look at is a peer of (row, col). */
  lemma AllowedImpliesScans(b: Board, row: int, col: int, n: int)
    requires |b| == 81 && InIndex(row) && InIndex(col)
    requires Allowed(b, Index(row, col), n)
    ensures LinesClear(b, row, col, n, 9)
    ensures BoxRowsClear(b, row, col, n, row - row % 3 + 3)
  {
    var p := Index(row, col);
    forall i | 0 <= i < 9
      ensures (i != row ==> b[Index(i, col)] != n) && (i != col ==> b[Index(row, i)] != n)
    {
      PeerInCoordinates(row, col, i, col);
      PeerInCoordinates(row, col, row, i);
    }
    BoxSpan(row, row);
    BoxSpan(col, col);
    forall r, c | row - row % 3 <= r < row - row % 3 + 3 && col - col % 3 <= c < col - col % 3 + 3
      ensures BoxCellClear(b, row, col, n, r, c)
    {
      PeerInCoordinates(row, col, r, c);
      BoxSpan(row, r);
      BoxSpan(col, c);
    }
  }

  /** The two scans together check exactly the peers of (row, col). */
  lemma ScansCoverPeers(b: Board, row: int, col: int, n: int)
    requires |b| == 81 && InIndex(row) && InIndex(col)
    ensures Allowed(b, Index(row, col), n) <==>
              LinesClear(b, row, col, n, 9) && BoxRowsClear(b, row, col, n, row - row % 3 + 3)
  {
    if Allowed(b, Index(row, col), n) {
      AllowedImpliesScans(b, row, col, n);
    }
    if LinesClear(b, row, col, n, 9) && BoxRowsClear(b, row, col, n, row - row % 3 + 3) {
      ScansImplyAllowed(b, row, col, n);
    }
  }

  /** The box scan has cleared row r of the box up to column c-1. */
  predicate BoxRowClear(b: Board, row: int, col: int, n: int, r: int, c: int)
    requires |b| == 81 && InIndex(col) && InIndex(r)
    requires col - col % 3 <= c <= col - col % 3 + 3
  {
    forall c' :: col - col % 3 <= c' < c ==> BoxCellClear(b, row, col, n, r, c')
  }

  /** Scanning cell (r, c) extends the cleared part of row r by one. */
  lemma NextBoxCell(b: Board, row: int, col: int, n: int, r: int, c: int)
    requires |b| == 81 && InIndex(col) && InIndex(r) && InIndex(c)
    requires col - col % 3 <= c < col - col % 3 + 3
    ensures BoxRowClear(b, row, col, n, r, c + 1) <==>
              BoxRowClear(b, row, col, n, r, c) && BoxCellClear(b, row, col, n, r, c)
  {
  }

  /** Finishing row r of the box extends the cleared rows by one. */
  lemma NextBoxRow(b: Board, row: int, col: int, n: int, r: int)
    requires |b| == 81 && InIndex(row) && InIndex(col) && InIndex(r)
    requires row - row % 3 <= r < row - row % 3 + 3
    ensures BoxRowsClear(b, row, col, n, r + 1) <==>
              BoxRowsClear(b, row, col, n, r) && BoxRowClear(b, row, col, n, r, col - col % 3 + 3)
  {
  }

  /** isValid of Sudoku/src/solver/Solver.java: a boolean flag that any
      clash clears; every loop runs to the end. */
  method IsValidAccumulating(b: Board, row: int, col: int, n: int) returns (valid: bool)
    requires |b| == 81 && InIndex(row) && InIndex(col)
    ensures valid <==> Allowed(b, Index(row, col), n)
  {
    valid := true;
    for i := 0 to 9
      invariant valid <==> LinesClear(b, row, col, n, i)
    {
      if i != row && n == b[Index(i, col)] {
        valid := false;
      }
      if i != col && n == b[Index(row, i)] {
        valid := false;
      }
    }
    ghost var lines := valid;
    BoxSpan(row, row);
    BoxSpan(col, col);
    var rowShift := row % 3;
    var colShift := col % 3;
    var r := row - rowShift;
    while r < row + 3 - rowShift
      invariant row - rowShift <= r <= row + 3 - rowShift
      invariant valid <==> lines && BoxRowsClear(b, row, col, n, r)
    {
      ghost var rowsBefore := valid;
      var c := col - colShift;
      while c < col + 3 - colShift
        invariant col - colShift <= c <= col + 3 - colShift
        invariant valid <==> rowsBefore && BoxRowClear(b, row, col, n, r, c)
      {
        NextBoxCell(b, row, col, n, r, c);
        if r != row && c != col && b[Index(r, c)] == n {
          valid := false;
        }
        c := c + 1;
      }
      NextBoxRow(b, row, col, n, r);
      r := r + 1;
    }
    ScansCoverPeers(b, row, col, n);
  }

  /** isValid of Sudoku_he6285ab/src/solver/Solver.java: returns false at
      the first clash. */
  method IsValidEarlyReturn(b: Board, row: int, col: int, n: int) returns (valid: bool)
    requires |b| == 81 && InIndex(row) && InIndex(col)
    ensures valid <==> Allowed(b, Index(row, col), n)
  {
    ScansCoverPeers(b, row, col, n);
    for i := 0 to 9
      invariant LinesClear(b, row, col, n, i)
    {
      if i != row && n == b[Index(i, col)] {
        return false;
      }
      if i != col && n == b[Index(row, i)] {
        return false;
      }
    }
    BoxSpan(row, row);
    BoxSpan(col, col);
    var boxStartRow := row - row % 3;
    var boxStartCol := col - col % 3;
    for r := boxStartRow to boxStartRow + 3
      invariant BoxRowsClear(b, row, col, n, r)
    {
      for c := boxStartCol to boxStartCol + 3
        invariant BoxRowClear(b, row, col, n, r, c)
      {
        NextBoxCell(b, row, col, n, r, c);
        if r != row && c != col && b[Index(r, c)] == n {
          return false;
        }
      }
      NextBoxRow(b, row, col, n, r);
    }
    return true;
  }
}
