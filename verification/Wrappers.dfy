/** A value that may be absent: a null pointer, an error return, a missing field. */
module Wrappers {
  datatype Option<+T> = None | Some(value: T)
}
