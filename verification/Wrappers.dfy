module Wrappers {
  /** A value that may be absent: a NULL pointer, a failed lookup. */
  datatype Option<+T> = None | Some(value: T)
}
