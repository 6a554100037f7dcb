/** Option and Result: Java's null and thrown exceptions, made explicit. */
module Wrappers {

  /** A value that may be absent (Java `null`). */
  datatype Option<+T> = None | Some(value: T)

  /** The outcome of a call that may throw: a value, or the exception it raised. */
  datatype Result<+T, +E> = Ok(value: T) | Fail(error: E)
}
