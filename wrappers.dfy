/** Optional values and results with an error payload, shared by every module. */
module Wrappers {
  datatype Option<T> = None | Some(value: T)

  /** An operation that either succeeds with a value or fails, as Python raises. */
  datatype Result<T, E> = Success(value: T) | Failure(error: E)
  {
    predicate IsFailure() {
      Failure?
    }

    function PropagateFailure<U>(): Result<U, E>
      requires Failure?
    {
      Failure(this.error)
    }

    function Extract(): T
      requires Success?
    {
      value
    }
  }
}
