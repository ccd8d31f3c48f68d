/** `Option` and `Result`, used across the model. */
module Wrappers {

  /** An optional value: `None` stands for "not set". */
  datatype Option<+T> = None | Some(value: T)

  /** Either a value or an error, as a Go function returning `(T, error)`. */
  datatype Result<+R, +E> = Success(value: R) | Failure(error: E)
}
