/** Typed success/failure values. Every operation of the model returns one of these where
    the Go code returns an `error`, a `found` flag or an `sdk.Result` carrying an error code. */
module Outcomes {

  /** A value that may be absent: Go's `(value, found bool)` and `(value, error)` pairs
      whose error carries no information the model needs. */
  datatype Option<+T> = None | Some(value: T)

  /** A value or an error kind. */
  datatype Result<+T, +E> = Success(value: T) | Failure(error: E)
}
