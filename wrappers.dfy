/** Option and Result values, used where the tools return "nothing" or raise. */
module Wrappers {

  datatype Option<+T> = None | Some(value: T)

  /** A computation that either yields a value or stops with an error,
      the way a Python function returns or raises. */
  datatype Result<+T, +E> = Ok(value: T) | Err(error: E)

  /** A step that has no value of its own: it passes or fails with an error. */
  datatype Outcome<+E> = Pass | Fail(error: E)
}
