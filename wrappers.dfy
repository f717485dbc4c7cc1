/** A value that may be absent: JavaScript's `null` or a missing attribute. */
module Wrappers {
  datatype Option<T> = None | Some(value: T)
}
