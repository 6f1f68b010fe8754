/** Failure-carrying values used throughout the model: Java's `null` results
    become `Option`, and exceptions thrown to the caller become `Result`. */
module Wrappers {

  datatype Option<+T> = None | Some(value: T)

  datatype Result<+R, +E> = Success(value: R) | Failure(error: E)
}
