/** Option and Result types used across the model: Python's `Optional[T]`
    becomes `Option<T>`, an operation that may raise becomes a `Result`. */
module Wrappers {

  datatype Option<+T> = None | Some(value: T)

  datatype Result<+R, +E> = Success(value: R) | Failure(error: E)
}
