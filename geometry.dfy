/**
 * Coordinates on the 9x9 board and the 3x3 subregions ("boxes") that partition it.
 * A coordinate is (x, y) with x the column and y the row, as the board's grid objects store it.
 */
module Geometry {

  datatype Coordinate = Coordinate(x: int, y: int)

  predicate InRange(c: Coordinate) {
    0 <= c.x < 9 && 0 <= c.y < 9
  }

  /**
   * Index of the subregion holding column x, row y: subregions are numbered
   * row by row, 0 to 8. Dafny's `/` by a positive divisor rounds down, exactly as
   * the floor of a division does, so no precondition is needed.
   */
  function SubregionIndex(x: int, y: int): (k: int)
    ensures 0 <= x < 9 && 0 <= y < 9 ==> 0 <= k < 9
    ensures 0 <= x < 9 && 0 <= y < 9 ==> k / 3 == y / 3 && k % 3 == x / 3
  {
    (y / 3) * 3 + x / 3
  }

  /** Two cells lie in the same subregion exactly when they share a band of rows and a stack of columns. */
  lemma SameSubregionIff(x1: int, y1: int, x2: int, y2: int)
    requires 0 <= x1 < 9 && 0 <= y1 < 9 && 0 <= x2 < 9 && 0 <= y2 < 9
    ensures SubregionIndex(x1, y1) == SubregionIndex(x2, y2) <==> x1 / 3 == x2 / 3 && y1 / 3 == y2 / 3
  {
  }

  /**
   * The 3x3 block scanned for column x, row y (rows and columns from the start of
   * their band, three of each) is exactly the cells sharing its subregion index.
   */
  lemma SubregionSpan(x: int, y: int, x2: int, y2: int)
    requires 0 <= x < 9 && 0 <= y < 9 && 0 <= x2 < 9 && 0 <= y2 < 9
    ensures SubregionIndex(x2, y2) == SubregionIndex(x, y) <==>
      (y / 3) * 3 <= y2 < (y / 3) * 3 + 3 && (x / 3) * 3 <= x2 < (x / 3) * 3 + 3
  {
    SameSubregionIff(x, y, x2, y2);
  }

  /** The row band (0, 1 or 2) of a position 0..8, written as a case split so that it evaluates on literals. */
  function Third(p: int): (t: int)
    requires 0 <= p < 9
    ensures t == p / 3
  {
    if p < 3 then 0 else if p < 6 then 1 else 2
  }
}
