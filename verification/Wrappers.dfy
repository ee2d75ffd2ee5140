/** A value that can be missing. */
module Wrappers {
  datatype Option<+T> = None | Some(value: T)
}
