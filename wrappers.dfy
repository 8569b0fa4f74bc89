/** Outcome values used instead of the exceptions and None returns of the Python code. */
module Wrappers {

  /** A value that may be absent: Python's `None` or a missing key. */
  datatype Option<+T> = None | Some(value: T)
}
