/** Option and Result values shared by the modules of the model. */
module Wrappers {

  datatype Option<+T> = None | Some(value: T)

  /** The outcome of an operation that may throw: Failure carries the error message. */
  datatype Result<+R> = Success(value: R) | Failure(error: string)
}
