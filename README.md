# WebSudoku puzzle state in Dafny

A model of the game logic in `sudoku.js`, a Sudoku page played in the browser. The
page keeps a 9x9 grid of cells. Each cell shows a digit or nothing and may be a
given of the loaded puzzle. The page also remembers the last cell clicked. The
model covers the handlers that change that state and the rules that judge it:

- loading a puzzle (`fillInGrids`);
- clicking a cell (`onTdClicked`);
- releasing a key (`onKeyUp`);
- the refresh that flags conflicting cells and announces "Good Job" when the puzzle is
  complete (`refreshGrids`), including the scan of one cell's row, column and 3x3
  subregion with its early exits;
- the subregion numbering (`getSugregionIndex`);
- the two puzzles the page ships with (`initMatrix`, `initMatrix1`).

Modules, one per file:

- `Geometry` (geometry.dfy): coordinates (x is the column, y the row) and subregion indices.
- `Rules` (rules.dfy): boards as values (`Board`, indexed `[row][column]`) and the
  specification of the refresh:
  - `Conflicts` holds when a filled cell has a row, column or subregion peer with the same digit;
  - `ConflictSet` is the set of cells that are in conflict;
  - `Finished` holds when every cell is filled and none is in conflict.

  It also proves that `Finished` coincides with the textbook `Solved`: every row,
  column and subregion holds all nine digits.
- `Keys` (keys.dfy): the edit rule for one key code, as a pure function.
- `Game` (game.dfy): the class `Sudoku` with the page's state:
  - a 9x9 array of digits;
  - a 9x9 array of given flags;
  - the selected cell.

  Its methods are the handlers. The conflict scan and the refresh are loops
  proved equal to the `Rules` specification.
- `Shipped` (shipped.dfy): the shipped puzzles, the solution they come from, and
  the start-up sequence followed by the two key presses that complete `initMatrix`.
- `Wrappers` (wrappers.dfy): `Option`.

The board's text is modelled as an integer 0..9, where 0 is an empty cell. The
`alert("Good Job.")` is the `goodJob` flag of the `View` a refresh returns, and the
conflict colour of a cell is its membership in the view's `conflicts`. A key press
that returns before refreshing yields `None`.

## Model

| member | source | states |
|---|---|---|
| Geometry.SubregionIndex | sudoku.js:33-36 | for a cell on the board the index is in 0..8, its band of rows is index / 3 and its stack of columns is index % 3 |
| Geometry.SameSubregionIff | sudoku.js:33-36 | two cells get the same index iff they share a band of rows and a stack of columns |
| Geometry.SubregionSpan | sudoku.js:95-98 | the block the scan visits (three rows from floor(i/3)*3, three columns from floor(j/3)*3) is exactly the cells sharing the scanned cell's subregion index |
| Rules.Peer | sudoku.js:77-111 | the cells the scan compares with (row i, column j): the other cells of the row, of the column and of the 3x3 subregion |
| Rules.Conflicts | sudoku.js:73-115 | a cell is drawn in the conflict colour iff it holds a digit and some peer holds the same digit; an empty cell never is |
| Rules.Finished | sudoku.js:50-121 | the completion test: every cell holds a digit and none is in conflict |
| Rules.Place | sudoku.js:146 | writing a digit into one cell sets that cell and leaves every other cell as it was |
| Rules.ConflictSymmetric | sudoku.js:73-115 | two peers holding the same digit are both flagged |
| Rules.ConflictHasPartner | sudoku.js:73-115 | a flagged cell has a peer holding the same digit |
| Rules.ConflictSetMembers | sudoku.js:112-115 | the flagged set holds exactly the on-board cells in conflict, and is empty on a conflict-free board |
| Rules.FinishedIffNothingUnfinished | sudoku.js:112-121 | the board is finished iff no cell is empty or in conflict, which is how the refresh decides it |
| Rules.ExtendsConflictFree | sudoku.js:73-111 | clearing cells of a conflict-free board never creates a conflict |
| Rules.ExtendsPlace | sudoku.js:146 | copying a cell of a conflict-free board into one of its sub-boards keeps it a sub-board, with nothing flagged |
| Rules.ConflictNearChanges | sudoku.js:73-115 | after changing at most two cells of a conflict-free board, a flagged cell is a changed cell or a peer of one holding its digit |
| Rules.ElementsSize | sudoku.js:112-121 | support for Rules.FinishedIffSolved: a unit of cells holds at most as many distinct digits as cells, and exactly as many iff its entries are pairwise different |
| Rules.CompleteUnit | sudoku.js:112-121 | support for Rules.FinishedIffSolved: a unit of nine cells holding all nine digits holds each once and nothing else |
| Rules.DistinctDigitsComplete | sudoku.js:112-121 | support for Rules.FinishedIffSolved: nine pairwise different digits 1..9 are all nine digits |
| Rules.BoxCell | sudoku.js:95-98 | support for Rules.FinishedIffSolved: each cell sits in the unit of its own subregion index, at position 3 * (row % 3) + column % 3 |
| Rules.SolvedPeersDiffer | sudoku.js:73-111 | on a solved board no two peers hold the same digit |
| Rules.SolvedImpliesFinished | sudoku.js:112-121 | a solved board passes the refresh's completion test |
| Rules.FinishedPeersDiffer | sudoku.js:73-111 | on a finished board no two peers hold the same digit |
| Rules.FinishedImpliesSolved | sudoku.js:112-121 | a board of digits that passes the completion test has every digit in every row, column and subregion |
| Rules.FinishedIffSolved | sudoku.js:112-121 | for boards of digits 0..9, passing the completion test is the same as being solved |
| Keys.KeyEdit | sudoku.js:132-145 | a key acts iff it is backspace, delete or a digit key; the clear keys give an empty cell; a digit key writes its digit, or empties a cell already holding it; every accepted digit differs from the old one |
| Keys.DigitKeyChangesCell | sudoku.js:137-144 | a digit key always changes the cell |
| Keys.DigitKeyTwice | sudoku.js:137-144 | pressing a digit key twice restores a cell that was empty or held that digit |
| Keys.DigitKeyTwiceEmpties | sudoku.js:137-144 | pressing a digit key twice empties a cell that held another digit |
| Game.Sudoku.constructor | sudoku.js:27-31 | a fresh grid has every cell empty, no given cell and no selection |
| Game.Sudoku.FillIn | sudoku.js:150-164 | a nonzero entry makes its cell a given holding that digit; a zero entry makes it editable and keeps its digit; the selection is untouched |
| Game.Sudoku.Select | sudoku.js:37-41 | a click selects the cell, changes no digit and no flag, and refreshes without the completion check |
| Game.Sudoku.KeyUp | sudoku.js:126-148 | with no selection, a given selected or an ignored key nothing changes and nothing is shown; otherwise only the selected cell changes, to the digit the edit rule gives, and the refresh runs with the completion check |
| Game.Sudoku.ScanCell | sudoku.js:73-111 | the row, column and subregion loops, with their early exits, find a clash iff the filled cell is in conflict |
| Game.Sudoku.Refresh | sudoku.js:43-124 | the cells flagged are exactly the conflict set; "Good Job" is announced iff completion is checked and the board is finished; no cell or flag changes |
| Game.Sudoku.Replay | sudoku.js:126-148 | after any sequence of clicks and key presses every given cell still holds its loaded digit |
| Shipped.InitMatrix1 | sudoku.js:198-208 | the alternative puzzle, digit for digit |
| Shipped.InitMatrix | sudoku.js:210-220 | the puzzle loaded at start-up, digit for digit |
| Shipped.SolutionFinished | sudoku.js:210-220 | the grid `initMatrix` is taken from has all nine digits in every row, column and subregion and passes the completion test |
| Shipped.SolutionConflictFree | sudoku.js:210-220 | no cell of that grid is flagged |
| Shipped.InitMatrixDigits | sudoku.js:210-220 | `initMatrix` holds only 0..9, as loading requires |
| Shipped.InitMatrix1Digits | sudoku.js:198-208 | `initMatrix1` holds only 0..9 |
| Shipped.InitMatrixExtends | sudoku.js:210-220 | every given of `initMatrix` agrees with the solution |
| Shipped.InitMatrix1Extends | sudoku.js:198-208 | every given of `initMatrix1` agrees with the solution |
| Shipped.ShippedConflictFree | sudoku.js:198-220 | both shipped puzzles load with no cell flagged |
| Shipped.InitMatrixGaps | sudoku.js:210-220 | `initMatrix` is empty exactly at columns 6 and 7 of row 1, so it is not finished |
| Shipped.RightOrderHalfway | sudoku.js:210-220 | with 6 entered at (6, 1) nothing is flagged and the puzzle is not finished |
| Shipped.RightOrderFinishes | sudoku.js:210-220 | 6 at (6, 1) and then 8 at (7, 1) give the solution, which is finished with nothing flagged |
| Shipped.InitMatrixOffGaps | sudoku.js:210-220 | outside its two gaps `initMatrix` holds the solution's digits |
| Shipped.SolutionEightsSeenFromGap | sudoku.js:210-220 | apart from (7, 1), the only 8 a scan from (6, 1) meets in the solution is at (6, 7) |
| Shipped.SolutionSixesSeenFromGap | sudoku.js:210-220 | apart from (6, 1), the only 6 a scan from (7, 1) meets in the solution is at (7, 4) |
| Shipped.WrongOrderHalfway | sudoku.js:210-220 | 8 entered at (6, 1) clashes with the 8 at (6, 7): the flagged set is exactly those two cells, and the board is not finished |
| Shipped.WrongOrderConflicts | sudoku.js:210-220 | 8 at (6, 1) and 6 at (7, 1): the flagged set is exactly (6, 1), (6, 7), (7, 1) and (7, 4), and the board is not finished |
| Shipped.Start | sudoku.js:222-226 | building the grid, loading `initMatrix` and refreshing shows the puzzle with no conflict and no "Good Job" |
| Shipped.EnterSix | sudoku.js:222-226 | after start-up, clicking (6, 1) and pressing '6' shows no conflict and no "Good Job" |
| Shipped.PlayRightOrder | sudoku.js:222-226 | then clicking (7, 1) and pressing '8' announces "Good Job"; the load and the click never do |
| Shipped.EnterEight | sudoku.js:222-226 | after start-up, clicking (6, 1) and pressing '8' shows exactly (6, 1) and (6, 7) flagged and no "Good Job" |
| Shipped.PlayWrongOrder | sudoku.js:222-226 | then clicking (7, 1) and pressing '6' shows exactly (6, 1), (6, 7), (7, 1) and (7, 4) flagged, and "Good Job" never appears |

## Left out

- The DOM and jQuery plumbing. This covers `createGrids` (sudoku.js:166-196), storing
  digits as cell text, the `$(document).ready` wiring, `alert` and `console.log`. The
  grid is the two arrays of `Game.Sudoku`; the alert is the `goodJob` flag.
- Presentation is left out, because it does not affect the game state:
  - the colour constants and text colours, except the conflict flag itself;
  - the background highlight of the selected cell, its row, its column and subregion parity;
  - the bold givens;
  - the subregion borders.
- Game.Sudoku.FillIn: the comment at sudoku.js:149 asks only for a 9x9 array of
  numbers; the model narrows this to the digits 0..9. Multi-digit entries are not
  modelled: with an entry such as 12 the page shows the text "12", and `refreshGrids`
  counts that cell as unfinished (the length test at sudoku.js:73 fails and
  sudoku.js:117 runs) without ever testing it for conflicts.
- The browser's event objects. A click is the coordinate of the clicked cell, and a
  key release is its key code.
- Repainting. The refresh is modelled as reading the state and returning a `View`,
  not as restyling cells.
- Undo history, move records and a catalog of further puzzles. The code has none.
- Clearing on load. Loading keeps a cell's digit on a zero entry (sudoku.js:159-161);
  the cell is not cleared.
- `initMatrix` completes with 6 at (6, 1) and 8 at (7, 1) (`Shipped.RightOrderFinishes`);
  with 8 and 6 there, column 6 holds two 8s and column 7 two 6s
  (`Shipped.WrongOrderConflicts`).
