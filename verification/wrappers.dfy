/** Optional values and results with an error, standing in for Java's null and thrown exceptions. */
module Wrappers {

  /** A value that may be absent (Java `null`). */
  datatype Option<+T> = None | Some(value: T)

  /** Either a value or the error the source would have thrown. */
  datatype Result<+T, +E> = Success(value: T) | Failure(error: E) {
    predicate IsFailure() {
      Failure?
    }

    function PropagateFailure<U>(): Result<U, E>
      requires Failure?
    {
      Failure(error)
    }

    function Extract(): T
      requires Success?
    {
      value
    }
  }
}
