/**
 * The puzzle state and the event handlers that change it: loading a puzzle,
 * clicking a cell, releasing a key, and the refresh that recomputes which cells
 * are in conflict and whether the puzzle is complete.
 */
module Game {
  import opened Wrappers
  import opened Geometry
  import opened Rules
  import opened Keys

  /** What a refresh shows: the cells drawn in the conflict colour, and whether "Good Job" is announced. */
  datatype View = View(conflicts: set<Coordinate>, goodJob: bool)

  /** A user event the page listens for: a click on a cell, or a key released. */
  datatype Event = Click(p: Coordinate) | Key(which: int)

  /** The digits of a 9x9 array as a board value. */
  ghost function Snapshot(a: array2<int>): (b: Board)
    reads a
    requires a.Length0 == 9 && a.Length1 == 9
    ensures forall r, c | 0 <= r < 9 && 0 <= c < 9 :: b[r][c] == a[r, c]
  {
    seq(9, r requires 0 <= r < 9 reads a => seq(9, c requires 0 <= c < 9 reads a => a[r, c]))
  }

  class Sudoku {
    /** values[r, c] is the digit shown in row r, column c; 0 is an empty cell. */
    var values: array2<int>
    /** init[r, c] marks a cell given by the loaded puzzle. */
    var init: array2<bool>
    /** The cell last clicked, if any. */
    var selected: Option<Coordinate>
    /** The puzzle last loaded (all zeros before any load). */
    ghost var givens: Board

    /**
     * The object invariant: every cell holds a digit or is empty, the selection is on
     * the board, and the given cells are exactly the nonzero entries of the last
     * loaded puzzle and still hold its digits.
     */
    ghost predicate Valid()
      reads this, values, init
    {
      && values.Length0 == 9 && values.Length1 == 9
      && init.Length0 == 9 && init.Length1 == 9
      && (forall r, c | 0 <= r < 9 && 0 <= c < 9 :: 0 <= values[r, c] <= 9)
      && (selected.Some? ==> InRange(selected.value))
      && DigitsOnly(givens)
      && (forall r, c | 0 <= r < 9 && 0 <= c < 9 :: init[r, c] == (givens[r][c] != 0))
      && (forall r, c | 0 <= r < 9 && 0 <= c < 9 :: init[r, c] ==> values[r, c] == givens[r][c])
    }

    /** The board as a value. */
    ghost function Cells(): Board
      reads this, values
      requires values.Length0 == 9 && values.Length1 == 9
    {
      Snapshot(values)
    }

    /** A key press can act: some cell is selected and it is not a given. */
    ghost predicate Editable()
      reads this, init
      requires init.Length0 == 9 && init.Length1 == 9
      requires selected.Some? ==> InRange(selected.value)
    {
      selected.Some? && !init[selected.value.y, selected.value.x]
    }

    /** The freshly built grid: every cell empty, none given, nothing selected. */
    constructor ()
      ensures Valid() && fresh(values) && fresh(init)
      ensures Cells() == Blank && selected == None
      ensures forall r, c | 0 <= r < 9 && 0 <= c < 9 :: !init[r, c]
    {
      values := new int[9, 9]((r, c) => 0);
      init := new bool[9, 9]((r, c) => false);
      selected := None;
      givens := Blank;
      new;
      SameCells(Cells(), Blank);
    }

    /**
     * Loads a puzzle: a nonzero entry makes its cell a given holding that digit; a zero
     * entry makes its cell editable and leaves the digit it already shows in place.
     */
    method FillIn(m: Board)
      requires Valid() && DigitsOnly(m)
      modifies values, init, this`givens
      ensures Valid() && givens == m
      ensures forall r, c | 0 <= r < 9 && 0 <= c < 9 :: init[r, c] == (m[r][c] != 0)
      ensures forall r, c | 0 <= r < 9 && 0 <= c < 9 ::
        values[r, c] == if m[r][c] != 0 then m[r][c] else old(values[r, c])
    {
      for i := 0 to 9
        invariant forall r, c | 0 <= r < i && 0 <= c < 9 ::
          init[r, c] == (m[r][c] != 0) && values[r, c] == if m[r][c] != 0 then m[r][c] else old(values[r, c])
        invariant forall r, c | i <= r < 9 && 0 <= c < 9 ::
          init[r, c] == old(init[r, c]) && values[r, c] == old(values[r, c])
      {
        for j := 0 to 9
          invariant forall r, c | 0 <= r < i && 0 <= c < 9 ::
            init[r, c] == (m[r][c] != 0) && values[r, c] == if m[r][c] != 0 then m[r][c] else old(values[r, c])
          invariant forall c | 0 <= c < j ::
            init[i, c] == (m[i][c] != 0) && values[i, c] == if m[i][c] != 0 then m[i][c] else old(values[i, c])
          invariant forall r, c | i <= r < 9 && 0 <= c < 9 && (r != i || c >= j) ::
            init[r, c] == old(init[r, c]) && values[r, c] == old(values[r, c])
        {
          if m[i][j] != 0 {
            init[i, j] := true;
            values[i, j] := m[i][j];
          } else {
            init[i, j] := false;
          }
        }
      }
      givens := m;
    }

    /** A click selects the cell and refreshes without the completion check. */
    method Select(p: Coordinate) returns (view: View)
      requires Valid() && InRange(p)
      modifies this`selected
      ensures Valid() && selected == Some(p)
      ensures view == View(ConflictSet(Cells()), false)
    {
      selected := Some(p);
      view := Refresh(false);
    }

    /**
     * A released key. With no selection or a given selected, or with a key that is
     * neither a clear key nor a digit key, nothing changes and nothing is refreshed.
     * Otherwise the selected cell alone takes the digit KeyEdit gives, and the refresh
     * runs with the completion check.
     */
    method KeyUp(which: int) returns (shown: Option<View>)
      requires Valid()
      modifies values
      ensures Valid()
      ensures !Editable() ==> Cells() == old(Cells()) && shown == None
      ensures Editable() ==>
        var p := selected.value;
        match KeyEdit(old(values[p.y, p.x]), which)
        case None => Cells() == old(Cells()) && shown == None
        case Some(v) =>
          && Cells() == Place(old(Cells()), p.y, p.x, v)
          && shown == Some(View(ConflictSet(Cells()), Finished(Cells())))
    {
      if selected.None? || init[selected.value.y, selected.value.x] {
        SameCells(Cells(), old(Cells()));
        return None;
      }
      var p := selected.value;
      var digit: int;
      if which == Backspace || which == Delete || which == DigitZero {
        digit := 0;
      } else {
        var number := which - DigitZero;
        if number < 1 || number > 9 {
          SameCells(Cells(), old(Cells()));
          return None;
        }
        digit := number;
        if values[p.y, p.x] == digit {
          digit := 0;
        }
      }
      ghost var before := Cells();
      values[p.y, p.x] := digit;
      SameCells(Cells(), Place(before, p.y, p.x, digit));
      var view := Refresh(true);
      shown := Some(view);
    }

    /**
     * The conflict scan of one filled cell: its row, then its column, then its 3x3
     * subregion, each loop leaving at the first cell found holding the same digit.
     */
    method ScanCell(i: int, j: int) returns (found: bool)
      requires Valid() && 0 <= i < 9 && 0 <= j < 9 && values[i, j] != 0
      ensures found == Conflicts(Cells(), i, j)
    {
      ghost var b := Cells();
      var v := values[i, j];
      found := false;
      for k := 0 to 9
        invariant !found
        invariant forall k' | 0 <= k' < k && k' != j :: values[i, k'] != v
      {
        if k == j {
          continue;
        }
        if values[i, k] == v {
          assert Peer(i, j, i, k);
          found := true;
          break;
        }
      }
      ghost var inRow := found;
      for k := 0 to 9
        invariant found == inRow
        invariant forall k' | 0 <= k' < k && k' != i :: values[k', j] != v
      {
        if k == i {
          continue;
        }
        if values[k, j] == v {
          assert Peer(i, j, k, j);
          found := true;
          break;
        }
      }
      ghost var inLine := found;
      var rowStart := (i / 3) * 3;
      var columnStart := (j / 3) * 3;
      for m := rowStart to rowStart + 3
        invariant found == inLine
        invariant forall m', n' | rowStart <= m' < m && columnStart <= n' < columnStart + 3 && (m' != i || n' != j) ::
          values[m', n'] != v
      {
        for n := columnStart to columnStart + 3
          invariant found == inLine
          invariant forall n' | columnStart <= n' < n && (m != i || n' != j) :: values[m, n'] != v
        {
          if m == i && n == j {
            continue;
          }
          if values[m, n] == v {
            SubregionSpan(j, i, n, m);
            assert Peer(i, j, m, n);
            found := true;
            break break;
          }
        }
      }
      if !found {
        forall r2, c2 | 0 <= r2 < 9 && 0 <= c2 < 9 && Peer(i, j, r2, c2)
          ensures b[r2][c2] != b[i][j]
        {
          SubregionSpan(j, i, c2, r2);
        }
      }
    }

    /**
     * The scan over every cell: a filled cell is flagged when ScanCell finds a clash,
     * and the puzzle is unfinished as soon as one cell is empty or flagged. "Good Job"
     * is announced only when the completion check is asked for and nothing was unfinished.
     * The scan reads the board and changes nothing.
     */
    method Refresh(checkCompletion: bool) returns (view: View)
      requires Valid()
      ensures view.conflicts == ConflictSet(Cells())
      ensures view.goodJob <==> checkCompletion && Finished(Cells())
    {
      ghost var b := Cells();
      var conflicts: set<Coordinate> := {};
      var notFinished := false;
      for i := 0 to 9
        invariant forall p :: p in conflicts <==> InRange(p) && p.y < i && Conflicts(b, p.y, p.x)
        invariant notFinished <==> exists r, c | 0 <= r < i && 0 <= c < 9 :: Unfinished(b, r, c)
      {
        for j := 0 to 9
          invariant forall p :: p in conflicts <==>
            InRange(p) && (p.y < i || (p.y == i && p.x < j)) && Conflicts(b, p.y, p.x)
          invariant notFinished <==>
            exists r, c | 0 <= r < 9 && 0 <= c < 9 && (r < i || (r == i && c < j)) :: Unfinished(b, r, c)
        {
          if values[i, j] != 0 {
            var found := ScanCell(i, j);
            assert Unfinished(b, i, j) <==> found;
            if found {
              conflicts := conflicts + {Coordinate(j, i)};
              notFinished := true;
            }
          } else {
            assert Unfinished(b, i, j);
            notFinished := true;
          }
        }
      }
      ConflictSetMembers(b);
      FinishedIffNothingUnfinished(b);
      view := View(conflicts, !notFinished && checkCompletion);
    }

    /**
     * Any sequence of clicks and key presses, handled one after the other: whatever the
     * events, every given cell still holds the digit it was loaded with.
     */
    method Replay(events: seq<Event>)
      requires Valid()
      requires forall e | e in events && e.Click? :: InRange(e.p)
      modifies values, this`selected
      ensures Valid() && givens == old(givens)
      ensures forall r, c | 0 <= r < 9 && 0 <= c < 9 && init[r, c] :: values[r, c] == old(values[r, c])
    {
      for k := 0 to |events|
        invariant Valid() && givens == old(givens)
        invariant forall r, c | 0 <= r < 9 && 0 <= c < 9 && init[r, c] :: values[r, c] == old(values[r, c])
      {
        match events[k]
        case Click(p) =>
          var _ := Select(p);
        case Key(which) =>
          var _ := KeyUp(which);
      }
    }
  }
}
