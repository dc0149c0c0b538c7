/** Failure-compatible wrappers shared by the cookie model: an optional value,
    a value-or-error result, and a pass-or-fail check. */
module Wrappers {

  datatype Option<+T> = None | Some(value: T) {
    function ToResult<E>(error: E): Result<T, E> {
      match this
      case Some(v) => Success(v)
      case None => Failure(error)
    }
  }

  datatype Result<+T, +E> = Success(value: T) | Failure(error: E) {
    predicate IsFailure() {
      Failure?
    }

    function PropagateFailure<U>(): Result<U, E>
      requires Failure?
    {
      Failure(error)
    }

    function Extract(): T
      requires Success?
    {
      value
    }
  }

  /** The outcome of a validator that either returns normally or throws `error`. */
  datatype Outcome<+E> = Pass | Fail(error: E)
}
