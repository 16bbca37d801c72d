/** Failure-compatible wrappers shared by the model. */
module Wrappers {

  /** A value that may be absent: a TypeScript optional field or a `T | null`. */
  datatype Option<+T> = None | Some(value: T)

  /** The value of an operation that may throw. */
  datatype Result<+T, +E> = Success(value: T) | Failure(error: E) {
    predicate IsFailure() { Failure? }

    function PropagateFailure<U>(): Result<U, E>
      requires Failure?
    {
      Failure(error)
    }

    function Extract(): T
      requires Success?
    {
      value
    }
  }
}
