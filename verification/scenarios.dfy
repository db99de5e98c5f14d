/** The behaviours the solver's unit tests exercise, stated as lemmas
    about the model.

    The witness for the solvable boards is the shifted-row grid: row r is
    1..9 rotated left by 3*(r % 3) + r / 3 places, which is a complete
    sudoku. */
module Scenarios {
  import opened Grid
  import opened Search
  import opened Operations

  /** How far row r of the witness grid is rotated. */
  function Shift(r: int): int {
    3 * (r % 3) + r / 3
  }

  function PatternDigit(r: int, c: int): int {
    (Shift(r) + c) % 9 + 1
  }

  function Pattern(): (s: Board)
    ensures |s| == 81
  {
    seq(81, p => PatternDigit(RowOf(p), ColOf(p)))
  }

  lemma ShiftRange(r: int)
    requires InIndex(r)
    ensures 0 <= Shift(r) <= 8
  {
  }

  /** No two rows are rotated alike, so no column repeats a digit. */
  lemma ShiftInjective(r1: int, r2: int)
    requires InIndex(r1) && InIndex(r2) && r1 != r2
    ensures Shift(r1) != Shift(r2)
  {
  }

  /** Within one band the rotations step by three, so no box repeats. */
  lemma ShiftWithinBand(r1: int, r2: int)
    requires InIndex(r1) && InIndex(r2) && r1 / 3 == r2 / 3
    ensures Shift(r1) - Shift(r2) == 3 * (r1 - r2)
  {
  }

  lemma ColumnsWithinStack(c1: int, c2: int)
    requires InIndex(c1) && InIndex(c2) && c1 / 3 == c2 / 3
    ensures -2 <= c1 - c2 <= 2
  {
  }

  lemma DistinctModNine(a: int, b: int)
    requires -8 <= a - b <= 8 && a != b
    ensures a % 9 != b % 9
  {
  }

  /** Two peers of the witness grid hold different digits. */
  lemma PatternDigitsDiffer(r1: int, c1: int, r2: int, c2: int)
    requires InIndex(r1) && InIndex(c1) && InIndex(r2) && InIndex(c2)
    requires r1 != r2 || c1 != c2
    requires r1 == r2 || c1 == c2 || (r1 / 3 == r2 / 3 && c1 / 3 == c2 / 3)
    ensures PatternDigit(r1, c1) != PatternDigit(r2, c2)
  {
    ShiftRange(r1);
    ShiftRange(r2);
    if r1 == r2 {
    } else if c1 == c2 {
      ShiftInjective(r1, r2);
    } else {
      ShiftWithinBand(r1, r2);
      ColumnsWithinStack(c1, c2);
    }
    DistinctModNine(Shift(r1) + c1, Shift(r2) + c2);
  }

  lemma PatternIsSolution()
    ensures IsSolution(Pattern())
  {
    var s := Pattern();
    forall p | 0 <= p < 81
      ensures Allowed(s, p, s[p])
    {
      forall q | 0 <= q < 81 && Peer(p, q)
        ensures s[q] != s[p]
      {
        IndexOfCoordinates(p);
        IndexOfCoordinates(q);
        PeerInCoordinates(RowOf(p), ColOf(p), RowOf(q), ColOf(q));
        PatternDigitsDiffer(RowOf(p), ColOf(p), RowOf(q), ColOf(q));
      }
    }
  }

  /** An empty board is solvable, and solve() fills it completely. */
  lemma EmptyBoardSolves()
    ensures Solve(EmptyBoard(), 0).solved
    ensures IsSolution(Solve(EmptyBoard(), 0).board)
  {
    PatternIsSolution();
    SolveComplete(EmptyBoard(), 0, Pattern());
    SolveCorrect(EmptyBoard());
  }

  /** With 1 at (0, 0), a 2 may go beside it and a 1 may not. */
  lemma PlacementBesideAOne()
    ensures SetNumber(EmptyBoard(), 0, 0, 1).Ok?
    ensures Allowed(SetNumber(EmptyBoard(), 0, 0, 1).value, Index(0, 1), 2)
    ensures !Allowed(SetNumber(EmptyBoard(), 0, 0, 1).value, Index(0, 1), 1)
  {
    assert Peer(Index(0, 1), Index(0, 0));
  }

  /** Two 1s side by side in row 0: solve() fails and the board is kept. */
  lemma DuplicateInRowFails()
    ensures SetNumber(EmptyBoard(), 0, 0, 1).Ok?
    ensures SetNumber(SetNumber(EmptyBoard(), 0, 0, 1).value, 0, 1, 1).Ok?
    ensures var b := SetNumber(SetNumber(EmptyBoard(), 0, 0, 1).value, 0, 1, 1).value;
            Solve(b, 0) == Attempt(false, b)
  {
    var b := SetNumber(SetNumber(EmptyBoard(), 0, 0, 1).value, 0, 1, 1).value;
    assert Peer(0, 1);
    ConflictingGivensFail(b, 0, 1);
  }

  /** The givens 1 2 3 / 4 5 6 in the top-left box with a 7 at (2, 3). */
  function BlockedBoard(): (b: Board)
    ensures WellFormed(b)
  {
    EmptyBoard()[0 := 1][1 := 2][2 := 3][9 := 4][10 := 5][11 := 6][21 := 7]
  }

  /** The board of BlockedBoard has no solution: the three empty cells of
      row 2 inside the first box may only take 7, 8 or 9, the 7 in the
      same row rules out 7, and three cells cannot share two digits. */
  lemma BlockedBoardUnsolvable()
    ensures !Solvable(BlockedBoard())
  {
    var b := BlockedBoard();
    if Solvable(b) {
      var s :| IsSolution(s) && Extends(s, b);
      assert s[0] == 1 && s[1] == 2 && s[2] == 3 && s[9] == 4 && s[10] == 5 && s[11] == 6 && s[21] == 7;
      forall p | p in {18, 19, 20}
        ensures s[p] == 8 || s[p] == 9
      {
        assert Allowed(s, p, s[p]);
        assert Peer(p, 0) && Peer(p, 1) && Peer(p, 2) && Peer(p, 9) && Peer(p, 10) && Peer(p, 11) && Peer(p, 21);
      }
      assert Allowed(s, 18, s[18]) && Allowed(s, 19, s[19]);
      assert Peer(18, 19) && Peer(18, 20) && Peer(19, 20);
      assert false;
    }
  }

  /** The blocked board with the 7 at (2, 3) removed again. */
  function FreedBoard(): (b: Board)
    ensures WellFormed(b)
  {
    EmptyBoard()[0 := 1][1 := 2][2 := 3][9 := 4][10 := 5][11 := 6]
  }

  lemma PatternExtendsFreedBoard()
    ensures Extends(Pattern(), FreedBoard())
  {
    var s, b := Pattern(), FreedBoard();
    assert s[0] == 1 && s[1] == 2 && s[2] == 3;
    assert s[9] == 4 && s[10] == 5 && s[11] == 6;
    forall q | 0 <= q < 81 && b[q] != 0
      ensures s[q] == b[q]
    {
      assert q in {0, 1, 2, 9, 10, 11};
    }
  }

  /** The test scenario: the blocked board fails and is left as it was;
      removing the 7 at (2, 3) makes the same board solvable. */
  lemma UnsolvableThenSolvable()
    ensures Solve(BlockedBoard(), 0) == Attempt(false, BlockedBoard())
    ensures RemoveNumber(BlockedBoard(), 2, 3) == Ok(FreedBoard())
    ensures Solve(FreedBoard(), 0).solved
  {
    BlockedBoardUnsolvable();
    SolveCorrect(BlockedBoard());
    assert BlockedBoard()[21 := 0] == FreedBoard();
    PatternIsSolution();
    PatternExtendsFreedBoard();
    SolveComplete(FreedBoard(), 0, Pattern());
  }
}
