/** Failure-carrying value types shared by every module: Go's `(T, error)`
    returns become `Result<T, E>`, Go's nilable pointers become `Option<T>`. */
module Wrappers {

  datatype Option<+T> = None | Some(value: T)

  datatype Result<+T, +E> = Success(value: T) | Failure(error: E)
}
