/** Failure-compatible wrappers: `Option` for values that may be absent
    (a Go `nil` result) and `Result` for operations that may return an error. */
module Wrappers {

  datatype Option<+T> = None | Some(value: T)

  datatype Result<+R, +E> = Success(value: R) | Failure(error: E)
}
