/** Option and Result, the failure-compatible types every other module uses
    in place of the C++ null pointers and exceptions. */
module Wrappers {

  datatype Option<+T> = None | Some(value: T) {

    /** Turns a missing value into the given error. */
    function ToResult<E>(error: E): Result<T, E>
    {
      match this
      case Some(v) => Success(v)
      case None => Failure(error)
    }
  }

  datatype Result<+T, +E> = Success(value: T) | Failure(error: E) {

    predicate IsFailure()
    {
      Failure?
    }

    function PropagateFailure<U>(): Result<U, E>
      requires Failure?
    {
      Failure(error)
    }

    function Extract(): T
      requires Success?
    {
      value
    }

    /** Rewrites the error, keeping a success as it is. */
    function MapFailure<E2>(f: E -> E2): Result<T, E2>
    {
      match this
      case Success(v) => Success(v)
      case Failure(e) => Failure(f(e))
    }
  }
}
