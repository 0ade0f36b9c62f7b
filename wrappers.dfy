/** A value that may be absent: an optional request field or a lookup result. */
module Wrappers {
  datatype Option<+T> = None | Some(value: T)
}
