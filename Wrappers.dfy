/** Option and Result: how the model writes C#'s `null` and thrown exceptions. */
module Wrappers {

  /** A value that C# may hold as `null`. */
  datatype Option<+T> = None | Some(value: T)

  /** The outcome of an operation that returns a value or throws. */
  datatype Result<+T, +E> = Success(value: T) | Failure(error: E)
}
