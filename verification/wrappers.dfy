/** Failure-carrying datatypes used throughout the model. */
module Wrappers {

  /** A value that may be absent, such as an HTML attribute that an element does not carry. */
  datatype Option<T> = None | Some(value: T)

  /** The outcome of an operation that can fail with an error of type `E`. */
  datatype Result<T, E> = Success(value: T) | Failure(error: E)
}
