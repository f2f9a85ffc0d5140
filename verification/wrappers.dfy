/** Wrappers: `Option` stands for a Go pointer that may be nil,
    `Result` for a Go `(value, error)` pair. */
module Wrappers {

  datatype Option<+T> = None | Some(value: T)

  datatype Result<+R, +E> = Success(value: R) | Failure(error: E)
}
