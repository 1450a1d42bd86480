/** Failure-carrying values used across the model. */
module Wrappers {

  /** A value that may be missing: Python's `False` or a raised exception
      where the source returns or throws instead of producing a value. */
  datatype Option<+T> = None | Some(value: T)
}
