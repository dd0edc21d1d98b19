/** The optional value used where the game code returns `null` or a value. */
module Wrappers {

  datatype Option<+T> = None | Some(value: T)
}
