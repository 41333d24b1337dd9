/** Option and Result, the failure-carrying values of the model. */
module Wrappers {

  /** A possibly missing value; `None` stands for a Java `null` reference. */
  datatype Option<+T> = None | Some(value: T)

  /** A value or an error, for operations whose Java original throws. */
  datatype Result<+T, +E> = Success(value: T) | Failure(error: E)
}
