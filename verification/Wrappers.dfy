/** A value that may be absent: uninitialised storage, a failed lookup, an idle timer. */
module Wrappers {
  datatype Option<+T> = None | Some(value: T)
}
