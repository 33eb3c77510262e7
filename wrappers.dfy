/** The optional value returned by a parse that may fail. */
module Wrappers {
  datatype Option<+T> = None | Some(value: T)
}
