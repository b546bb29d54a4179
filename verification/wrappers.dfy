/** Failure-carrying datatypes used throughout the model. */
module Wrappers {

  /** An optional value; also stands for a JavaScript value tested for truthiness. */
  datatype Option<+T> = None | Some(value: T)

  /** Either a value or the error crypto.js would throw. */
  datatype Result<+R, +E> = Success(value: R) | Failure(error: E)
}
