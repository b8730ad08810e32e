/**
 * The two puzzles shipped with the game, the solution they both belong to, and the
 * page's start-up sequence: build the grid, load `initMatrix`, refresh without the
 * completion check, and then the two key presses that complete it.
 */
module Shipped {
  import opened Wrappers
  import opened Geometry
  import opened Rules
  import opened Keys
  import opened Game

  /** The alternative puzzle: 38 givens. */
  const InitMatrix1: Board := [
    [0, 0, 8, 2, 0, 0, 9, 0, 3],
    [3, 4, 2, 0, 9, 5, 0, 0, 7],
    [1, 9, 7, 0, 0, 0, 0, 0, 4],
    [0, 0, 5, 3, 1, 2, 4, 7, 9],
    [0, 0, 0, 0, 0, 0, 0, 0, 0],
    [2, 0, 0, 0, 7, 4, 5, 0, 0],
    [0, 2, 0, 0, 0, 1, 0, 0, 5],
    [0, 7, 0, 0, 0, 6, 8, 9, 1],
    [8, 0, 0, 4, 3, 0, 7, 0, 6]]

  /** The puzzle loaded at start-up: two cells of row 1 are left to fill. */
  const InitMatrix: Board := [
    [5, 6, 8, 2, 4, 7, 9, 1, 3],
    [3, 4, 2, 1, 9, 5, 0, 0, 7],
    [1, 9, 7, 8, 6, 3, 2, 5, 4],
    [6, 8, 5, 3, 1, 2, 4, 7, 9],
    [7, 3, 4, 9, 5, 8, 1, 6, 2],
    [2, 1, 9, 6, 7, 4, 5, 3, 8],
    [9, 2, 6, 7, 8, 1, 3, 4, 5],
    [4, 7, 3, 5, 2, 6, 8, 9, 1],
    [8, 5, 1, 4, 3, 9, 7, 2, 6]]

  /** The completed grid both puzzles are drawn from. */
  const Solution: Board := [
    [5, 6, 8, 2, 4, 7, 9, 1, 3],
    [3, 4, 2, 1, 9, 5, 6, 8, 7],
    [1, 9, 7, 8, 6, 3, 2, 5, 4],
    [6, 8, 5, 3, 1, 2, 4, 7, 9],
    [7, 3, 4, 9, 5, 8, 1, 6, 2],
    [2, 1, 9, 6, 7, 4, 5, 3, 8],
    [9, 2, 6, 7, 8, 1, 3, 4, 5],
    [4, 7, 3, 5, 2, 6, 8, 9, 1],
    [8, 5, 1, 4, 3, 9, 7, 2, 6]]

  // ---------------------------------------------------------------------------
  // The solution is a solved grid

  lemma SolutionRows()
    ensures forall u | 0 <= u < 9 :: HasAllDigits(Solution[u])
  {
    assert HasAllDigits(Solution[0]);
    assert HasAllDigits(Solution[1]);
    assert HasAllDigits(Solution[2]);
    assert HasAllDigits(Solution[3]);
    assert HasAllDigits(Solution[4]);
    assert HasAllDigits(Solution[5]);
    assert HasAllDigits(Solution[6]);
    assert HasAllDigits(Solution[7]);
    assert HasAllDigits(Solution[8]);
  }

  lemma SolutionColumn(u: int)
    requires 0 <= u < 9
    ensures HasAllDigits(Column(Solution, u))
  {
  }

  lemma SolutionBox(u: int)
    requires 0 <= u < 9
    ensures HasAllDigits(Box(Solution, u))
  {
  }

  /** Every row, column and subregion of the solution holds all nine digits, so the game accepts it. */
  lemma SolutionFinished()
    ensures Solved(Solution) && Finished(Solution)
  {
    forall u | 0 <= u < 9
      ensures HasAllDigits(Solution[u]) && HasAllDigits(Column(Solution, u)) && HasAllDigits(Box(Solution, u))
    {
      SolutionRows();
      SolutionColumn(u);
      SolutionBox(u);
    }
    SolvedImpliesFinished(Solution);
  }

  /** No cell of the solution is flagged. */
  lemma SolutionConflictFree()
    ensures ConflictFree(Solution) && ConflictSet(Solution) == {}
  {
    SolutionFinished();
    ConflictSetMembers(Solution);
  }

  // ---------------------------------------------------------------------------
  // The shipped puzzles

  lemma InitMatrixDigits()
    ensures DigitsOnly(InitMatrix)
  {
  }

  lemma InitMatrix1Digits()
    ensures DigitsOnly(InitMatrix1)
  {
  }

  lemma InitMatrixExtends()
    ensures Extends(Solution, InitMatrix)
  {
  }

  lemma InitMatrix1Extends()
    ensures Extends(Solution, InitMatrix1)
  {
  }

  /** Both shipped puzzles are sub-boards of the solution, so neither shows a conflict when loaded. */
  lemma ShippedConflictFree()
    ensures ConflictFree(InitMatrix) && ConflictSet(InitMatrix) == {}
    ensures ConflictFree(InitMatrix1) && ConflictSet(InitMatrix1) == {}
  {
    SolutionConflictFree();
    InitMatrixExtends();
    InitMatrix1Extends();
    ExtendsConflictFree(Solution, InitMatrix);
    ExtendsConflictFree(Solution, InitMatrix1);
    ConflictSetMembers(InitMatrix);
    ConflictSetMembers(InitMatrix1);
  }

  /** `initMatrix` is empty in exactly two cells, both in row 1, so it is not finished. */
  lemma InitMatrixGaps()
    ensures forall r, c | 0 <= r < 9 && 0 <= c < 9 :: InitMatrix[r][c] == 0 <==> r == 1 && (c == 6 || c == 7)
    ensures !Finished(InitMatrix)
  {
    assert Unfinished(InitMatrix, 1, 6);
  }

  /** With only the 6 entered, the board is still conflict-free but not finished. */
  lemma RightOrderHalfway()
    ensures var b := Place(InitMatrix, 1, 6, 6); ConflictSet(b) == {} && !Finished(b)
  {
    InitMatrixExtends();
    SolutionConflictFree();
    ExtendsPlace(Solution, InitMatrix, 1, 6);
    assert Unfinished(Place(InitMatrix, 1, 6, 6), 1, 7);
  }

  /** Filling the two gaps with 6 and then 8 gives the solution, a finished board. */
  lemma RightOrderFinishes()
    ensures Place(Place(InitMatrix, 1, 6, 6), 1, 7, 8) == Solution
    ensures var b := Place(Place(InitMatrix, 1, 6, 6), 1, 7, 8); Finished(b) && ConflictSet(b) == {}
  {
    SameCells(Place(Place(InitMatrix, 1, 6, 6), 1, 7, 8), Solution);
    SolutionFinished();
    SolutionConflictFree();
  }

  /** Outside the two gaps, `initMatrix` holds the solution's digits. */
  lemma InitMatrixOffGaps()
    ensures forall r, c | 0 <= r < 9 && 0 <= c < 9 && (r != 1 || c != 6) && (r != 1 || c != 7) ::
      InitMatrix[r][c] == Solution[r][c]
  {
  }

  /** Besides (7, 1), the only peer of (6, 1) holding 8 in the solution is (6, 7). */
  lemma SolutionEightsSeenFromGap(r: int, c: int)
    requires Peer(1, 6, r, c) && (r != 1 || c != 7) && Solution[r][c] == 8
    ensures r == 7 && c == 6
  {
    if r != 1 && c != 6 {
      SubregionSpan(6, 1, c, r);
    }
  }

  /** Besides (6, 1), the only peer of (7, 1) holding 6 in the solution is (7, 4). */
  lemma SolutionSixesSeenFromGap(r: int, c: int)
    requires Peer(1, 7, r, c) && (r != 1 || c != 6) && Solution[r][c] == 6
    ensures r == 4 && c == 7
  {
    if r != 1 && c != 7 {
      SubregionSpan(7, 1, c, r);
    }
  }

  /** 8 entered at (6, 1) clashes with the 8 at (6, 7): those two cells, and no others, are flagged. */
  lemma WrongOrderHalfway()
    ensures var b := Place(InitMatrix, 1, 6, 8);
      ConflictSet(b) == {Coordinate(6, 1), Coordinate(6, 7)} && !Finished(b)
  {
    var b := Place(InitMatrix, 1, 6, 8);
    assert b[1][7] == 0;
    ConflictSymmetric(b, 1, 6, 7, 6);
    ConflictSetMembers(b);
    SolutionConflictFree();
    InitMatrixOffGaps();
    forall p | p in ConflictSet(b)
      ensures p == Coordinate(6, 1) || p == Coordinate(6, 7)
    {
      ConflictNearChanges(Solution, b, 1, 6, 1, 7, p.y, p.x);
      if (p.y != 1 || p.x != 6) && (p.y != 1 || p.x != 7) {
        SolutionEightsSeenFromGap(p.y, p.x);
      }
    }
    assert Unfinished(b, 1, 6);
  }

  /**
   * Filling the gaps the other way round puts 8 in column 6, which already has 8 in
   * row 7, and 6 in column 7, which already has 6 in row 4: exactly those four cells
   * are flagged.
   */
  lemma WrongOrderConflicts()
    ensures var b := Place(Place(InitMatrix, 1, 6, 8), 1, 7, 6);
      && ConflictSet(b) == {Coordinate(6, 1), Coordinate(6, 7), Coordinate(7, 1), Coordinate(7, 4)}
      && !Finished(b)
  {
    var b := Place(Place(InitMatrix, 1, 6, 8), 1, 7, 6);
    ConflictSymmetric(b, 1, 6, 7, 6);
    ConflictSymmetric(b, 1, 7, 4, 7);
    ConflictSetMembers(b);
    SolutionConflictFree();
    InitMatrixOffGaps();
    forall p | p in ConflictSet(b)
      ensures p in {Coordinate(6, 1), Coordinate(6, 7), Coordinate(7, 1), Coordinate(7, 4)}
    {
      ConflictNearChanges(Solution, b, 1, 6, 1, 7, p.y, p.x);
      if (p.y != 1 || p.x != 6) && (p.y != 1 || p.x != 7) {
        if b[p.y][p.x] == 8 {
          SolutionEightsSeenFromGap(p.y, p.x);
        } else {
          SolutionSixesSeenFromGap(p.y, p.x);
        }
      }
    }
    assert Unfinished(b, 1, 6);
  }

  // ---------------------------------------------------------------------------
  // The page's start-up and a player finishing the puzzle

  /**
   * Builds the grid, loads `initMatrix` and refreshes without the completion check,
   * as the page does when it is ready.
   */
  method Start() returns (game: Sudoku, loaded: View)
    ensures fresh(game) && fresh(game.values) && fresh(game.init) && game.Valid()
    ensures game.Cells() == InitMatrix && game.givens == InitMatrix && game.selected == None
    ensures loaded == View({}, false)
  {
    game := new Sudoku();
    InitMatrixDigits();
    game.FillIn(InitMatrix);
    SameCells(game.Cells(), InitMatrix);
    ShippedConflictFree();
    loaded := game.Refresh(false);
  }

  /** After the start-up, click (6, 1) and press '6': no conflict, and no "Good Job" yet. */
  method EnterSix() returns (game: Sudoku, loaded: View, clicked: View, first: Option<View>)
    ensures fresh(game) && fresh(game.values) && fresh(game.init) && game.Valid()
    ensures game.Cells() == Place(InitMatrix, 1, 6, 6) && game.givens == InitMatrix
    ensures loaded == View({}, false) && clicked == View({}, false)
    ensures first == Some(View({}, false))
  {
    game, loaded := Start();
    clicked := game.Select(Coordinate(6, 1));
    assert game.values[1, 6] == 0 && !game.init[1, 6];
    first := game.KeyUp(DigitZero + 6);
    RightOrderHalfway();
  }

  /**
   * Then click (7, 1) and press '8': the puzzle is complete and "Good Job" is announced.
   * Only the key presses check completion; the load and the clicks show the board without it.
   */
  method PlayRightOrder() returns (loaded: View, clicked: View, first: Option<View>, last: Option<View>)
    ensures loaded == View({}, false) && clicked == View({}, false)
    ensures first == Some(View({}, false))
    ensures last == Some(View({}, true))
  {
    var game;
    game, loaded, clicked, first := EnterSix();
    var _ := game.Select(Coordinate(7, 1));
    assert game.values[1, 7] == 0 && !game.init[1, 7];
    last := game.KeyUp(DigitZero + 8);
    RightOrderFinishes();
  }

  /** After the start-up, click (6, 1) and press '8': exactly the new 8 and the 8 below it in column 6 are flagged. */
  method EnterEight() returns (game: Sudoku, first: Option<View>)
    ensures fresh(game) && fresh(game.values) && fresh(game.init) && game.Valid()
    ensures game.Cells() == Place(InitMatrix, 1, 6, 8) && game.givens == InitMatrix
    ensures first == Some(View({Coordinate(6, 1), Coordinate(6, 7)}, false))
  {
    var loaded;
    game, loaded := Start();
    var _ := game.Select(Coordinate(6, 1));
    assert game.values[1, 6] == 0 && !game.init[1, 6];
    first := game.KeyUp(DigitZero + 8);
    WrongOrderHalfway();
  }

  /**
   * Then click (7, 1) and press '6': the 6 clashes with the 6 in column 7, the 8 still
   * clashes, exactly those four cells are flagged, and "Good Job" never appears.
   */
  method PlayWrongOrder() returns (first: Option<View>, last: Option<View>)
    ensures first == Some(View({Coordinate(6, 1), Coordinate(6, 7)}, false))
    ensures last == Some(View({Coordinate(6, 1), Coordinate(6, 7), Coordinate(7, 1), Coordinate(7, 4)}, false))
  {
    var game;
    game, first := EnterEight();
    var _ := game.Select(Coordinate(7, 1));
    assert game.values[1, 7] == 0 && !game.init[1, 7];
    last := game.KeyUp(DigitZero + 6);
    WrongOrderConflicts();
  }
}
