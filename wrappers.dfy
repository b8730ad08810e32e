/** The optional value used where the game has "nothing" (no selected cell, a key that is ignored). */
module Wrappers {
  datatype Option<+T> = None | Some(value: T)
}
