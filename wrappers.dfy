/** Option and Result types shared by the modules of the model. */
module Wrappers {

  /** A value that may be missing. */
  datatype Option<+T> = None | Some(value: T)

  /** The outcome of an operation that returns either a value or an error. */
  datatype Result<+T, +E> = Success(value: T) | Failure(error: E)
}
