/** Option and Result values shared by the model's modules. */
module Wrappers {

  datatype Option<+T> = None | Some(value: T)

  /** The outcome of an operation that can raise: Success carries the
      returned value, Failure the exception that was raised. */
  datatype Result<+T, +E> = Success(value: T) | Failure(error: E)
}
