/** Failure-carrying wrappers used by the hero operations. */
module Wrappers {

  /** An optional value: Go's nil-able pointers and its always-nil errors. */
  datatype Option<+T> = None | Some(value: T)

  /** The `(value, error)` pair a Go operation returns: exactly one side is meaningful. */
  datatype Result<+R, +E> = Success(value: R) | Failure(error: E)
}
