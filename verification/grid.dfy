/** The 9x9 board the solver owns, and the game rules stated over it.

    The board is stored flat, in row-major order: cell (row, col) sits at
    index 9*row + col. A cell holds 0 when it is empty and a digit 1..9
    otherwise. */
module Grid {

  type Board = seq<int>

  /** Coordinates the solver accepts: a row or column in 0..8. */
  predicate InIndex(i: int) {
    0 <= i <= 8
  }

  /** A digit that may be placed in a cell. */
  predicate IsDigit(n: int) {
    1 <= n <= 9
  }

  /** A value a cell may hold: a digit or 0 for "empty". */
  predicate IsCellValue(n: int) {
    0 <= n <= 9
  }

  /** The storage invariant: 81 cells, each holding 0..9. */
  predicate WellFormed(b: Board) {
    |b| == 81 && forall q :: 0 <= q < 81 ==> IsCellValue(b[q])
  }

  function Index(row: int, col: int): int
    requires InIndex(row) && InIndex(col)
  {
    9 * row + col
  }

  function RowOf(p: int): int {
    p / 9
  }

  function ColOf(p: int): int {
    p % 9
  }

  /** The band (group of three rows) and the stack (group of three
      columns) that contain cell p; together they name p's 3x3 box. */
  function BandOf(p: int): int {
    RowOf(p) / 3
  }

  function StackOf(p: int): int {
    ColOf(p) / 3
  }

  /** p and q are different cells that share a row, a column or a box. */
  predicate Peer(p: int, q: int) {
    && p != q
    && (|| RowOf(p) == RowOf(q)
        || ColOf(p) == ColOf(q)
        || (BandOf(p) == BandOf(q) && StackOf(p) == StackOf(q)))
  }

  /** Digit n may stand at cell p: no other cell in p's row, column or box
      holds n. The value stored at p itself is ignored, so the same
      predicate tests a new placement and re-checks a given. */
  predicate Allowed(b: Board, p: int, n: int)
    requires |b| == 81
  {
    forall q :: 0 <= q < 81 && Peer(p, q) ==> b[q] != n
  }

  /** Every cell holds a digit. */
  predicate Full(b: Board) {
    |b| == 81 && forall q :: 0 <= q < 81 ==> IsDigit(b[q])
  }

  /** A solved grid: full, and no two peers share a digit. */
  predicate IsSolution(s: Board) {
    Full(s) && forall q :: 0 <= q < 81 ==> Allowed(s, q, s[q])
  }

  /** s keeps every non-empty cell of b. */
  predicate Extends(s: Board, b: Board)
    requires |s| == 81 && |b| == 81
  {
    forall q :: 0 <= q < 81 && b[q] != 0 ==> s[q] == b[q]
  }

  /** Some solved grid fills in the empty cells of b and keeps the rest. */
  ghost predicate Solvable(b: Board)
    requires |b| == 81
  {
    exists s :: IsSolution(s) && Extends(s, b)
  }

  /** The board a fresh solver starts with, and the one clear() restores. */
  function EmptyBoard(): (b: Board)
    ensures WellFormed(b)
    ensures forall q :: 0 <= q < 81 ==> b[q] == 0
  {
    seq(81, _ => 0)
  }

  /** Every flat index is the index of its own row and column. */
  lemma IndexOfCoordinates(p: int)
    requires 0 <= p < 81
    ensures InIndex(RowOf(p)) && InIndex(ColOf(p))
    ensures Index(RowOf(p), ColOf(p)) == p
  {
  }

  /** Different coordinates name different cells. */
  lemma IndexInjective(row: int, col: int, r: int, c: int)
    requires InIndex(row) && InIndex(col) && InIndex(r) && InIndex(c)
    ensures Index(row, col) == Index(r, c) <==> row == r && col == c
  {
  }

  /** The cell at (row, col) lies in row `row` and column `col`. */
  lemma CoordinatesOfIndex(row: int, col: int)
    requires InIndex(row) && InIndex(col)
    ensures 0 <= Index(row, col) < 81
    ensures RowOf(Index(row, col)) == row && ColOf(Index(row, col)) == col
  {
  }

  /** Peers of (row, col) in coordinates: another cell in the same row,
      the same column, or the same box. */
  lemma PeerInCoordinates(row: int, col: int, r: int, c: int)
    requires InIndex(row) && InIndex(col) && InIndex(r) && InIndex(c)
    ensures Peer(Index(row, col), Index(r, c)) <==>
              && (r != row || c != col)
              && (r == row || c == col || (row / 3 == r / 3 && col / 3 == c / 3))
  {
    CoordinatesOfIndex(row, col);
    CoordinatesOfIndex(r, c);
  }
}
