/** Failure-carrying values used across the model: a nullable reference is an `Option`,
    an API call that can fail is a `Result`. */
module Wrappers {

  datatype Option<+T> = None | Some(value: T)

  datatype Result<+T, +E> = Success(value: T) | Failure(error: E)
}
