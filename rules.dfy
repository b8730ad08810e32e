/**
 * The Sudoku rules the game checks after every refresh: when a filled cell is in
 * conflict, and when the board counts as finished. Boards are values here; the
 * mutable game state in module Game is read into a Board before it is judged.
 */
module Rules {
  import opened Geometry

  /** Nine rows of nine cells; b[r][c] is the digit in row r, column c, and 0 means empty. */
  type Board = b: seq<seq<int>> | IsGrid(b) witness Blank

  predicate IsGrid(b: seq<seq<int>>) {
    |b| == 9 && forall r | 0 <= r < 9 :: |b[r]| == 9
  }

  const Blank: seq<seq<int>> := seq(9, _ => seq(9, _ => 0))

  /** Every cell holds 0 (empty) or a digit 1..9. */
  predicate DigitsOnly(b: Board) {
    forall r, c | 0 <= r < 9 && 0 <= c < 9 :: 0 <= b[r][c] <= 9
  }

  /** (r2, c2) is another cell of the board in the same row, column or subregion as (r, c). */
  predicate Peer(r: int, c: int, r2: int, c2: int) {
    && 0 <= r < 9 && 0 <= c < 9 && 0 <= r2 < 9 && 0 <= c2 < 9
    && (r2 != r || c2 != c)
    && (r2 == r || c2 == c || SubregionIndex(c2, r2) == SubregionIndex(c, r))
  }

  /** A filled cell is in conflict when one of its peers holds the same digit; an empty cell never is. */
  predicate Conflicts(b: Board, r: int, c: int)
    requires 0 <= r < 9 && 0 <= c < 9
  {
    b[r][c] != 0 && exists r2, c2 | 0 <= r2 < 9 && 0 <= c2 < 9 :: Peer(r, c, r2, c2) && b[r2][c2] == b[r][c]
  }

  /** The cells flagged as conflicting, as coordinates (x = column, y = row). */
  function ConflictSet(b: Board): set<Coordinate> {
    set r, c | 0 <= r < 9 && 0 <= c < 9 && Conflicts(b, r, c) :: Coordinate(c, r)
  }

  /** The board with the digit in row r, column c replaced by v. */
  function Place(b: Board, r: int, c: int, v: int): (b': Board)
    requires 0 <= r < 9 && 0 <= c < 9
    ensures b'[r][c] == v
    ensures forall r2, c2 | 0 <= r2 < 9 && 0 <= c2 < 9 && (r2 != r || c2 != c) :: b'[r2][c2] == b[r2][c2]
  {
    b[r := b[r][c := v]]
  }

  /** Boards are equal when they agree cell by cell. */
  lemma SameCells(a: Board, b: Board)
    requires forall r, c | 0 <= r < 9 && 0 <= c < 9 :: a[r][c] == b[r][c]
    ensures a == b
  {
    forall r | 0 <= r < 9 ensures a[r] == b[r] {
      assert forall c | 0 <= c < 9 :: a[r][c] == b[r][c];
    }
  }

  /** The completion test: every cell is filled and no cell is in conflict. */
  predicate Finished(b: Board) {
    forall r, c | 0 <= r < 9 && 0 <= c < 9 :: b[r][c] != 0 && !Conflicts(b, r, c)
  }

  /** The cell keeps the puzzle from being finished: it is empty or in conflict. */
  predicate Unfinished(b: Board, r: int, c: int)
    requires 0 <= r < 9 && 0 <= c < 9
  {
    b[r][c] == 0 || Conflicts(b, r, c)
  }

  /** Refresh's reading of completion: no cell is empty or in conflict. */
  lemma FinishedIffNothingUnfinished(b: Board)
    ensures Finished(b) <==> !exists r, c | 0 <= r < 9 && 0 <= c < 9 :: Unfinished(b, r, c)
  {
    if !Finished(b) {
      var r, c :| 0 <= r < 9 && 0 <= c < 9 && !(b[r][c] != 0 && !Conflicts(b, r, c));
      assert Unfinished(b, r, c);
    }
  }

  // ---------------------------------------------------------------------------
  // Rows, columns and subregions as sequences of nine cells

  function Column(b: Board, c: int): seq<int>
    requires 0 <= c < 9
  {
    [b[0][c], b[1][c], b[2][c], b[3][c], b[4][c], b[5][c], b[6][c], b[7][c], b[8][c]]
  }

  /** Subregion k read row by row: position p is row 3 * (k / 3) + p / 3, column 3 * (k % 3) + p % 3. */
  function Box(b: Board, k: int): seq<int>
    requires 0 <= k < 9
  {
    var r, c := 3 * Third(k), 3 * (k - 3 * Third(k));
    [b[r][c], b[r][c + 1], b[r][c + 2],
     b[r + 1][c], b[r + 1][c + 1], b[r + 1][c + 2],
     b[r + 2][c], b[r + 2][c + 1], b[r + 2][c + 2]]
  }

  predicate HasAllDigits(s: seq<int>) {
    forall d | 1 <= d <= 9 :: d in s
  }

  /** The usual definition of a solved Sudoku: every row, column and subregion holds each digit 1..9. */
  predicate Solved(b: Board) {
    forall u | 0 <= u < 9 :: HasAllDigits(b[u]) && HasAllDigits(Column(b, u)) && HasAllDigits(Box(b, u))
  }

  /** `partial` is a sub-board of `full`: every filled cell of `partial` holds the same digit in `full`. */
  predicate Extends(full: Board, partial: Board) {
    forall r, c | 0 <= r < 9 && 0 <= c < 9 :: partial[r][c] != 0 ==> full[r][c] == partial[r][c]
  }

  predicate ConflictFree(b: Board) {
    forall r, c | 0 <= r < 9 && 0 <= c < 9 :: !Conflicts(b, r, c)
  }

  // ---------------------------------------------------------------------------
  // Properties of the conflict flag

  /** Conflicts come in pairs: two peers holding the same digit are both flagged. */
  lemma ConflictSymmetric(b: Board, r: int, c: int, r2: int, c2: int)
    requires Peer(r, c, r2, c2) && b[r][c] != 0 && b[r2][c2] == b[r][c]
    ensures Conflicts(b, r, c) && Conflicts(b, r2, c2)
  {
    assert Peer(r2, c2, r, c);
  }

  /** A flagged cell always has a flagged peer holding the same digit. */
  lemma ConflictHasPartner(b: Board, r: int, c: int)
    requires 0 <= r < 9 && 0 <= c < 9 && Conflicts(b, r, c)
    ensures exists r2, c2 | 0 <= r2 < 9 && 0 <= c2 < 9 ::
      Peer(r, c, r2, c2) && b[r2][c2] == b[r][c] && Conflicts(b, r2, c2)
  {
    var r2, c2 :| 0 <= r2 < 9 && 0 <= c2 < 9 && Peer(r, c, r2, c2) && b[r2][c2] == b[r][c];
    ConflictSymmetric(b, r, c, r2, c2);
  }

  /** ConflictSet holds exactly the flagged cells; it is empty on a conflict-free board. */
  lemma ConflictSetMembers(b: Board)
    ensures forall p :: p in ConflictSet(b) <==> InRange(p) && Conflicts(b, p.y, p.x)
    ensures ConflictFree(b) ==> ConflictSet(b) == {}
  {
  }

  /** Clearing cells never creates a conflict: a sub-board of a conflict-free board is conflict-free. */
  lemma ExtendsConflictFree(full: Board, partial: Board)
    requires Extends(full, partial) && ConflictFree(full)
    ensures ConflictFree(partial)
  {
    forall r, c | 0 <= r < 9 && 0 <= c < 9
      ensures !Conflicts(partial, r, c)
    {
      assert !Conflicts(full, r, c);
    }
  }

  /**
   * Copying one cell of a conflict-free `full` into a sub-board of it keeps it a
   * sub-board, so nothing is flagged.
   */
  lemma ExtendsPlace(full: Board, partial: Board, r: int, c: int)
    requires Extends(full, partial) && ConflictFree(full) && 0 <= r < 9 && 0 <= c < 9
    ensures Extends(full, Place(partial, r, c, full[r][c]))
    ensures ConflictSet(Place(partial, r, c, full[r][c])) == {}
  {
    var b := Place(partial, r, c, full[r][c]);
    ExtendsConflictFree(full, b);
    ConflictSetMembers(b);
  }

  /**
   * Changing at most two cells of a conflict-free board: every cell in conflict
   * afterwards is one of the changed cells, or a peer of one holding its new digit.
   */
  lemma ConflictNearChanges(full: Board, b: Board, r0: int, c0: int, r1: int, c1: int, r: int, c: int)
    requires ConflictFree(full)
    requires 0 <= r0 < 9 && 0 <= c0 < 9 && 0 <= r1 < 9 && 0 <= c1 < 9 && 0 <= r < 9 && 0 <= c < 9
    requires forall r2, c2 | 0 <= r2 < 9 && 0 <= c2 < 9 && (r2 != r0 || c2 != c0) && (r2 != r1 || c2 != c1) ::
      b[r2][c2] == full[r2][c2]
    requires Conflicts(b, r, c)
    ensures || (r == r0 && c == c0) || (r == r1 && c == c1)
            || (Peer(r0, c0, r, c) && b[r][c] == b[r0][c0])
            || (Peer(r1, c1, r, c) && b[r][c] == b[r1][c1])
  {
    if (r != r0 || c != c0) && (r != r1 || c != c1) {
      var r2, c2 :| 0 <= r2 < 9 && 0 <= c2 < 9 && Peer(r, c, r2, c2) && b[r2][c2] == b[r][c];
      assert !Conflicts(full, r, c);
      assert full[r2][c2] != b[r][c];
      assert Peer(r2, c2, r, c);
    }
  }

  // ---------------------------------------------------------------------------
  // Finished is the same as Solved: the pigeonhole argument

  function Elements(s: seq<int>): set<int> {
    set x | x in s
  }

  const DigitSet: set<int> := set d | 1 <= d <= 9

  lemma DigitSetSize()
    ensures |DigitSet| == 9
  {
    assert DigitSet == {1, 2, 3, 4, 5, 6, 7, 8, 9};
  }

  predicate AllDistinct(s: seq<int>) {
    forall i, j | 0 <= i < |s| && 0 <= j < |s| && i != j :: s[i] != s[j]
  }

  /** A sequence has at most as many distinct elements as entries, and exactly as many iff no entry repeats. */
  lemma {:induction false} ElementsSize(s: seq<int>)
    ensures |Elements(s)| <= |s|
    ensures |Elements(s)| == |s| <==> AllDistinct(s)
  {
    if s != [] {
      var t := s[1..];
      ElementsSize(t);
      assert Elements(s) == {s[0]} + Elements(t) by {
        forall x ensures x in Elements(s) <==> x in {s[0]} + Elements(t) {
          if x in s && x != s[0] {
            var i :| 0 <= i < |s| && s[i] == x;
            assert t[i - 1] == x;
          }
        }
      }
      if s[0] in t {
        var j :| 0 <= j < |t| && t[j] == s[0];
        assert s[j + 1] == s[0];
        assert !AllDistinct(s);
      } else {
        assert |Elements(s)| == |Elements(t)| + 1;
        if AllDistinct(s) {
          assert AllDistinct(t) by {
            forall i, j | 0 <= i < |t| && 0 <= j < |t| && i != j ensures t[i] != t[j] {
              assert s[i + 1] != s[j + 1];
            }
          }
        } else {
          var i, j :| 0 <= i < |s| && 0 <= j < |s| && i != j && s[i] == s[j];
          assert i != 0 && j != 0;
          assert t[i - 1] == t[j - 1];
          assert !AllDistinct(t);
        }
      }
    }
  }

  lemma SubsetSize(a: set<int>, b: set<int>)
    requires a <= b
    ensures |a| <= |b|
    ensures |a| == |b| ==> a == b
  {
    assert b == a + (b - a);
    assert |b| == |a| + |b - a|;
    if |a| == |b| {
      assert |b - a| == 0;
      assert b - a == {};
    }
  }

  /** Every digit of a complete unit is an element of it. */
  lemma DigitsInElements(s: seq<int>)
    requires HasAllDigits(s)
    ensures DigitSet <= Elements(s)
  {
    forall d | d in DigitSet ensures d in Elements(s) {
      assert d in s;
    }
  }

  /** Nine cells that hold every digit hold each exactly once and nothing else. */
  lemma CompleteUnit(s: seq<int>)
    requires |s| == 9 && HasAllDigits(s)
    ensures AllDistinct(s) && forall i | 0 <= i < 9 :: 1 <= s[i] <= 9
  {
    DigitSetSize();
    ElementsSize(s);
    DigitsInElements(s);
    SubsetSize(DigitSet, Elements(s));
    assert Elements(s) == DigitSet;
    forall i | 0 <= i < 9 ensures 1 <= s[i] <= 9 {
      assert s[i] in Elements(s);
    }
  }

  /** Nine distinct digits from 1..9 are all of them. */
  lemma DistinctDigitsComplete(s: seq<int>)
    requires |s| == 9 && AllDistinct(s) && forall i | 0 <= i < 9 :: 1 <= s[i] <= 9
    ensures HasAllDigits(s)
  {
    DigitSetSize();
    ElementsSize(s);
    assert Elements(s) <= DigitSet;
    SubsetSize(Elements(s), DigitSet);
    assert Elements(s) == DigitSet;
    forall d | 1 <= d <= 9 ensures d in s {
      assert d in Elements(s);
    }
  }

  /** Two positions of a complete unit hold different digits. */
  lemma UnitEntriesDiffer(s: seq<int>, i: int, j: int)
    requires |s| == 9 && HasAllDigits(s) && 0 <= i < 9 && 0 <= j < 9 && i != j
    ensures s[i] != s[j]
  {
    CompleteUnit(s);
  }

  /** Where cell (r, c) sits inside its subregion's sequence. */
  lemma BoxCell(b: Board, r: int, c: int)
    requires 0 <= r < 9 && 0 <= c < 9
    ensures var k := SubregionIndex(c, r); Box(b, k)[3 * (r % 3) + c % 3] == b[r][c]
  {
    var k := SubregionIndex(c, r);
    assert Third(k) == r / 3;
    assert k - 3 * Third(k) == c / 3;
  }

  /** Which cell sits at position p of subregion k. */
  lemma BoxPosition(b: Board, k: int, p: int)
    requires 0 <= k < 9 && 0 <= p < 9
    ensures var r, c := 3 * (k / 3) + p / 3, 3 * (k % 3) + p % 3;
      0 <= r < 9 && 0 <= c < 9 && SubregionIndex(c, r) == k && Box(b, k)[p] == b[r][c]
  {
    assert Third(k) == k / 3;
  }

  /** Column c read as a sequence holds b[r][c] at position r. */
  lemma ColumnCell(b: Board, r: int, c: int)
    requires 0 <= r < 9 && 0 <= c < 9
    ensures Column(b, c)[r] == b[r][c]
  {
  }

  /** Two distinct cells of one row, column or subregion hold different digits on a solved board. */
  lemma SolvedPeersDiffer(b: Board, r: int, c: int, r2: int, c2: int)
    requires Solved(b) && Peer(r, c, r2, c2)
    ensures b[r2][c2] != b[r][c]
  {
    if r2 == r {
      assert HasAllDigits(b[r]);
      UnitEntriesDiffer(b[r], c, c2);
    } else if c2 == c {
      assert HasAllDigits(Column(b, c));
      ColumnCell(b, r, c);
      ColumnCell(b, r2, c);
      UnitEntriesDiffer(Column(b, c), r, r2);
    } else {
      var k := SubregionIndex(c, r);
      assert HasAllDigits(Box(b, k));
      SameSubregionIff(c, r, c2, r2);
      BoxCell(b, r, c);
      BoxCell(b, r2, c2);
      UnitEntriesDiffer(Box(b, k), 3 * (r % 3) + c % 3, 3 * (r2 % 3) + c2 % 3);
    }
  }

  lemma SolvedImpliesFinished(b: Board)
    requires Solved(b)
    ensures Finished(b)
  {
    forall r, c | 0 <= r < 9 && 0 <= c < 9
      ensures b[r][c] != 0 && !Conflicts(b, r, c)
    {
      assert HasAllDigits(b[r]);
      CompleteUnit(b[r]);
      forall r2, c2 | 0 <= r2 < 9 && 0 <= c2 < 9 && Peer(r, c, r2, c2)
        ensures b[r2][c2] != b[r][c]
      {
        SolvedPeersDiffer(b, r, c, r2, c2);
      }
    }
  }

  /** On a finished board, peers hold different digits. */
  lemma FinishedPeersDiffer(b: Board, r: int, c: int, r2: int, c2: int)
    requires Finished(b) && Peer(r, c, r2, c2)
    ensures b[r2][c2] != b[r][c]
  {
    assert b[r][c] != 0 && !Conflicts(b, r, c);
  }

  lemma FinishedRow(b: Board, u: int)
    requires DigitsOnly(b) && Finished(b) && 0 <= u < 9
    ensures HasAllDigits(b[u])
  {
    forall i, j | 0 <= i < 9 && 0 <= j < 9 && i != j
      ensures b[u][i] != b[u][j]
    {
      FinishedPeersDiffer(b, u, i, u, j);
    }
    forall i | 0 <= i < 9
      ensures 1 <= b[u][i] <= 9
    {
      assert b[u][i] != 0;
    }
    DistinctDigitsComplete(b[u]);
  }

  lemma FinishedColumn(b: Board, u: int)
    requires DigitsOnly(b) && Finished(b) && 0 <= u < 9
    ensures HasAllDigits(Column(b, u))
  {
    var col := Column(b, u);
    forall i, j | 0 <= i < 9 && 0 <= j < 9 && i != j
      ensures col[i] != col[j]
    {
      ColumnCell(b, i, u);
      ColumnCell(b, j, u);
      FinishedPeersDiffer(b, i, u, j, u);
    }
    forall i | 0 <= i < 9
      ensures 1 <= col[i] <= 9
    {
      ColumnCell(b, i, u);
      assert b[i][u] != 0;
    }
    DistinctDigitsComplete(col);
  }

  /** Distinct positions of one subregion are peers, so on a finished board they hold different digits. */
  lemma FinishedBoxPair(b: Board, u: int, i: int, j: int)
    requires Finished(b) && 0 <= u < 9 && 0 <= i < 9 && 0 <= j < 9 && i != j
    ensures Box(b, u)[i] != Box(b, u)[j]
  {
    BoxPosition(b, u, i);
    BoxPosition(b, u, j);
    var ri, ci := 3 * (u / 3) + i / 3, 3 * (u % 3) + i % 3;
    var rj, cj := 3 * (u / 3) + j / 3, 3 * (u % 3) + j % 3;
    assert ri != rj || ci != cj;
    FinishedPeersDiffer(b, ri, ci, rj, cj);
  }

  lemma FinishedBox(b: Board, u: int)
    requires DigitsOnly(b) && Finished(b) && 0 <= u < 9
    ensures HasAllDigits(Box(b, u))
  {
    var box := Box(b, u);
    forall i, j | 0 <= i < 9 && 0 <= j < 9 && i != j
      ensures box[i] != box[j]
    {
      FinishedBoxPair(b, u, i, j);
    }
    forall p | 0 <= p < 9
      ensures 1 <= box[p] <= 9
    {
      BoxPosition(b, u, p);
      var r, c := 3 * (u / 3) + p / 3, 3 * (u % 3) + p % 3;
      assert b[r][c] != 0;
    }
    DistinctDigitsComplete(box);
  }

  lemma FinishedImpliesSolved(b: Board)
    requires DigitsOnly(b) && Finished(b)
    ensures Solved(b)
  {
    forall u | 0 <= u < 9
      ensures HasAllDigits(b[u]) && HasAllDigits(Column(b, u)) && HasAllDigits(Box(b, u))
    {
      FinishedRow(b, u);
      FinishedColumn(b, u);
      FinishedBox(b, u);
    }
  }

  /**
   * The game's completion test is the usual notion of a solved Sudoku: a board of
   * digits is finished exactly when every row, column and subregion holds 1..9.
   */
  lemma FinishedIffSolved(b: Board)
    requires DigitsOnly(b)
    ensures Finished(b) <==> Solved(b)
  {
    if Finished(b) {
      FinishedImpliesSolved(b);
    }
    if Solved(b) {
      SolvedImpliesFinished(b);
    }
  }
}
