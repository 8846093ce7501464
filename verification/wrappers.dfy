/** An optional value and a value-or-error result. */
module Wrappers {

  /** An optional value, standing in for a nullable reference. */
  datatype Option<+T> = None | Some(value: T)

  /** Either a value or an error, standing in for a thrown exception. */
  datatype Result<+R, +E> = Success(value: R) | Failure(error: E)
}
