/** Option and Result values standing in for the source's nulls and exceptions. */
module Wrappers {

  /** `None` plays the role of a C# `null` reference or of an operation that threw. */
  datatype Option<+T> = None | Some(value: T)

  /** The outcome of an operation that either returns a value or raises an error. */
  datatype Result<+R, +E> = Success(value: R) | Failure(error: E)
}
