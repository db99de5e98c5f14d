/** The backtracking search of solve(), stated over the flat cell index.

    Search.Solve(b, p) visits the cells p, p+1, ..., 80 in row-major order,
    which is the order both traversals of the solver produce (see module
    Traversal). At an empty cell it tries the digits 1..9 in ascending
    order, places each allowed one, recurses, and removes the placement
    again when the recursion fails. At a filled cell it re-checks the given
    against its peers and fails at once on a conflict. */
module Search {
  import opened Grid

  /** What a call of solve(row, col) leaves behind: its answer and the
      board as it stands when the call returns. */
  datatype Attempt = Attempt(solved: bool, board: Board)

  /** The common contract of a search step started at cell p on board b. */
  predicate Outcome(b: Board, p: int, r: Attempt)
    requires WellFormed(b) && 0 <= p <= 81
  {
    && WellFormed(r.board)
    // a failed search restores the board exactly
    && (!r.solved ==> r.board == b)
    // cells before p are never written
    && (forall q :: 0 <= q < p ==> r.board[q] == b[q])
    // givens are never overwritten
    && Extends(r.board, b)
    // a successful search leaves p..80 filled and rule-consistent
    && (r.solved ==> forall q :: p <= q < 81 ==> IsDigit(r.board[q]) && Allowed(r.board, q, r.board[q]))
  }

  function Solve(b: Board, p: int): (r: Attempt)
    requires WellFormed(b) && 0 <= p <= 81
    ensures Outcome(b, p, r)
    decreases 81 - p, 10
  {
    if p == 81 then
      Attempt(true, b)
    else if b[p] == 0 then
      TryDigits(b, p, 1)
    else if Allowed(b, p, b[p]) then
      var r := Solve(b, p + 1);
      if r.solved then
        CellStaysAllowed(b, r.board, p);
        r
      else
        r
    else
      Attempt(false, b)
  }

  /** The loop over candidate digits d..9 at the empty cell p. */
  function TryDigits(b: Board, p: int, d: int): (r: Attempt)
    requires WellFormed(b) && 0 <= p < 81 && b[p] == 0 && 1 <= d <= 10
    ensures Outcome(b, p, r)
    decreases 81 - p, 10 - d
  {
    if d > 9 then
      Attempt(false, b)
    else if Allowed(b, p, d) then
      var placed := b[p := d];
      var next := Solve(placed, p + 1);
      if next.solved then
        CellStaysAllowed(b, next.board, p);
        next
      else
        // the failed branch handed back `placed`; removing d restores b
        assert next.board[p := 0] == b;
        TryDigits(next.board[p := 0], p, d + 1)
    else
      TryDigits(b, p, d + 1)
  }

  /** A digit checked at cell p against the board of that moment is still
      consistent once the cells after p are filled consistently: the
      earlier cells have not moved, and every later cell checked itself
      against p. */
  lemma CellStaysAllowed(b: Board, r: Board, p: int)
    requires |b| == 81 && |r| == 81 && 0 <= p < 81
    requires Allowed(b, p, r[p])
    requires forall q :: 0 <= q < p ==> r[q] == b[q]
    requires forall q :: p < q < 81 ==> Allowed(r, q, r[q])
    ensures Allowed(r, p, r[p])
  {
    forall q | 0 <= q < 81 && Peer(p, q)
      ensures r[q] != r[p]
    {
      if p < q {
        assert Peer(q, p);
      }
    }
  }

  /** Completeness: if some solution keeps the givens of b, the search from
      any cell p succeeds. */
  lemma {:induction false} SolveComplete(b: Board, p: int, s: Board)
    requires WellFormed(b) && 0 <= p <= 81
    requires IsSolution(s) && Extends(s, b)
    ensures Solve(b, p).solved
    decreases 81 - p, 10
  {
    if p < 81 {
      if b[p] == 0 {
        TryDigitsComplete(b, p, 1, s);
      } else {
        GivenAllowed(b, p, s);
        SolveComplete(b, p + 1, s);
      }
    }
  }

  /** The digit loop at an empty cell reaches the solution's digit s[p]
      at the latest. */
  lemma {:induction false} TryDigitsComplete(b: Board, p: int, d: int, s: Board)
    requires WellFormed(b) && 0 <= p < 81 && b[p] == 0
    requires IsSolution(s) && Extends(s, b)
    requires 1 <= d <= s[p]
    ensures TryDigits(b, p, d).solved
    decreases 81 - p, 10 - d
  {
    GivenAllowed(b, p, s);
    if Allowed(b, p, d) {
      var placed := b[p := d];
      if d == s[p] {
        SolveComplete(placed, p + 1, s);
      } else if !Solve(placed, p + 1).solved {
        assert Solve(placed, p + 1).board[p := 0] == b;
        TryDigitsComplete(b, p, d + 1, s);
      }
    } else {
      TryDigitsComplete(b, p, d + 1, s);
    }
  }

  /** The solution's digit at p is allowed on any board whose filled cells
      the solution keeps. */
  lemma GivenAllowed(b: Board, p: int, s: Board)
    requires WellFormed(b) && 0 <= p < 81
    requires IsSolution(s) && Extends(s, b)
    ensures Allowed(b, p, s[p])
  {
    forall q | 0 <= q < 81 && Peer(p, q)
      ensures b[q] != s[p]
    {
      assert s[q] != s[p];
    }
  }

  /** solve() answers true exactly when the board is solvable. On true the
      board holds a solution that keeps every given; on false it is exactly
      the board solve() started from. */
  lemma SolveCorrect(b: Board)
    requires WellFormed(b)
    ensures Solve(b, 0).solved <==> Solvable(b)
    ensures Solve(b, 0).solved ==> IsSolution(Solve(b, 0).board) && Extends(Solve(b, 0).board, b)
    ensures !Solve(b, 0).solved ==> Solve(b, 0).board == b
  {
    var r := Solve(b, 0);
    if r.solved {
      assert IsSolution(r.board) && Extends(r.board, b);
    } else if Solvable(b) {
      var s :| IsSolution(s) && Extends(s, b);
      SolveComplete(b, 0, s);
    }
  }

  /** On a board that is already solved the search succeeds and writes
      nothing: only the filled-cell branch runs. */
  lemma {:induction false} SolvedBoardUnchanged(b: Board, p: int)
    requires IsSolution(b) && 0 <= p <= 81
    ensures WellFormed(b)
    ensures Solve(b, p) == Attempt(true, b)
    decreases 81 - p
  {
    if p < 81 {
      SolvedBoardUnchanged(b, p + 1);
    }
  }

  /** A given that clashes with another given makes solve() fail, and the
      board comes back unchanged. */
  lemma ConflictingGivensFail(b: Board, p: int, q: int)
    requires WellFormed(b) && 0 <= p < 81 && 0 <= q < 81
    requires Peer(p, q) && b[p] != 0 && b[p] == b[q]
    ensures Solve(b, 0) == Attempt(false, b)
  {
  }
}
