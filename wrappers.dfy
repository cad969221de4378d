/** Option and Result values standing in for C#'s null returns and thrown exceptions. */
module Wrappers {

  /** A value that may be missing; `None` plays the part of a C# `null`. */
  datatype Option<+T> = None | Some(value: T)

  /** The outcome of an operation that either returns a value or throws an exception. */
  datatype Result<+T, +E> = Success(value: T) | Failure(error: E)
}
