/** A value that may be absent: Python's `None`, a missing session key,
    a query's `.first()` on an empty result. */
module Wrappers {
  datatype Option<+T> = None | Some(value: T)
}
