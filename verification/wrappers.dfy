/** Failure-carrying result types shared by the modules of this project. */
module Wrappers {

  /** An optional value: Go's nil pointer or "not found" marker. */
  datatype Option<+T> = None | Some(value: T)

  /** A value or an error, for operations that report a failure to their caller. */
  datatype Result<+T, +E> = Success(value: T) | Failure(error: E)
}
