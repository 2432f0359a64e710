/** Result types used for the error returns of the codec. */
module Wrappers {

  datatype Option<+T> = None | Some(value: T)

  /** The value of an operation that either yields a value or reports an error. */
  datatype Result<+T, +E> = Success(value: T) | Failure(error: E)

  /** The value of an operation that yields nothing but may report an error. */
  datatype Outcome<+E> = Pass | Fail(error: E)
}
