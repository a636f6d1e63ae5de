/** The optional value and the success-or-error outcome used across the model. */
module Wrappers {

  /** An optional value; `None` also stands for a floating-point NaN. */
  datatype Option<T> = None | Some(value: T)

  /** The outcome of an operation that may raise. */
  datatype Result<T, E> = Success(value: T) | Failure(error: E)
}
