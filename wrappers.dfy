/** Option and Result, for an optional cell link and for the operations that throw. */
module Wrappers {

  /** A value that may be absent, like a null cell reference. */
  datatype Option<+T> = None | Some(value: T)

  /** The outcome of an operation that either returns a value or throws. */
  datatype Result<+T, +E> = Success(value: T) | Failure(error: E)
}
