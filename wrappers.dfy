/** Failure-compatible wrappers used throughout the model. */
module Wrappers {

  /** A value that may be absent: Go's `nil` slice versus a present one. */
  datatype Option<+T> = None | Some(value: T)

  /** The outcome of a Go call that either yields a value or ends without one. */
  datatype Result<+T, +E> = Ok(value: T) | Err(error: E) {

    predicate IsFailure() {
      Err?
    }

    function PropagateFailure<U>(): Result<U, E>
      requires Err?
    {
      Err(error)
    }

    function Extract(): T
      requires Ok?
    {
      value
    }
  }
}
