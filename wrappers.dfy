/** Small failure-carrying wrappers shared by the other modules. */
module Wrappers {

  datatype Option<+T> = None | Some(value: T)

  /** The outcome of an operation that either yields a value or fails with an error. */
  datatype Result<+T, +E> = Success(value: T) | Failure(error: E)
}
