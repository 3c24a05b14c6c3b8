/** Failure-compatible wrappers shared by every module of the model. */
module Wrappers {

  /** A value that may be absent (a nil pointer or a missing claim in the source). */
  datatype Option<+T> = None | Some(value: T)

  /** The Go `(value, error)` pair: exactly one of the two is meaningful. */
  datatype Result<+T, +E> = Ok(value: T) | Err(error: E) {

    predicate IsFailure() {
      Err?
    }

    function PropagateFailure<U>(): Result<U, E>
      requires Err?
    {
      Err(error)
    }

    function Extract(): T
      requires Ok?
    {
      value
    }
  }
}
