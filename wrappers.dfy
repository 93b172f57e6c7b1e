/** Option and Result, the two sum types the rest of the model returns. */
module Wrappers {

  datatype Option<+T> = None | Some(value: T)

  /** An outcome that is either a value or the error that stopped the computation. */
  datatype Result<+R, +E> = Success(value: R) | Failure(error: E)
}
