/** Small failure-carrying datatypes shared by the other modules. */
module Wrappers {

  datatype Option<+T> = None | Some(value: T)

  /** Either a value or the error that ended the computation. */
  datatype Result<+R, +E> = Success(value: R) | Failure(error: E)
}
