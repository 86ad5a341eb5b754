/** The optional value the game uses for "no direction buffered" (Python's None). */
module Wrappers {
  datatype Option<+T> = None | Some(value: T)
}
