/**
 * The key-input edit rule: what a released key does to the digit of the selected,
 * editable cell. Key codes are the browser's: 8 is backspace, 46 delete, 48..57 the
 * digit keys '0'..'9'.
 */
module Keys {
  import opened Wrappers

  const Backspace := 8
  const Delete := 46
  const DigitZero := 48

  predicate IsClearKey(which: int) {
    which == Backspace || which == Delete || which == DigitZero
  }

  predicate IsDigitKey(which: int) {
    DigitZero + 1 <= which <= DigitZero + 9
  }

  /**
   * The new digit of a cell holding `current` after key `which`, or None when the
   * key is ignored. A clear key empties the cell; digit key d writes d, except that
   * a cell already holding d is emptied instead (pressing the same digit toggles).
   */
  function KeyEdit(current: int, which: int): (r: Option<int>)
    ensures r.Some? <==> IsClearKey(which) || IsDigitKey(which)
    ensures IsClearKey(which) ==> r == Some(0)
    ensures r.Some? ==> 0 <= r.value <= 9
    ensures r.Some? && r.value != 0 ==> IsDigitKey(which) && r.value == which - DigitZero && r.value != current
    ensures IsDigitKey(which) && r.value == 0 ==> current == which - DigitZero
  {
    if which == Backspace || which == Delete || which == DigitZero then
      Some(0)
    else
      var number := which - DigitZero;
      if number < 1 || number > 9 then None
      else if current == number then Some(0)
      else Some(number)
  }

  /** A digit key always changes the cell: an accepted digit entry is never a no-op. */
  lemma DigitKeyChangesCell(current: int, which: int)
    requires IsDigitKey(which)
    ensures KeyEdit(current, which).Some? && KeyEdit(current, which).value != current
  {
  }

  /** Pressing the same digit key twice restores a cell that was empty or already held that digit. */
  lemma DigitKeyTwice(current: int, which: int)
    requires IsDigitKey(which) && (current == 0 || current == which - DigitZero)
    ensures KeyEdit(KeyEdit(current, which).value, which) == Some(current)
  {
  }

  /** Pressing a digit key twice leaves the cell empty unless it held that digit to begin with. */
  lemma DigitKeyTwiceEmpties(current: int, which: int)
    requires IsDigitKey(which) && current != which - DigitZero
    ensures KeyEdit(KeyEdit(current, which).value, which) == Some(0)
  {
  }
}
