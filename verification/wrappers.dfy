/** Optional values and failure-compatible results, used for the .NET `null`
    reference and for exceptions thrown by the serializers. */
module Wrappers {

  /** A value that may be absent (a .NET `null` reference). */
  datatype Option<+T> = None | Some(value: T)

  /** The outcome of an operation that either returns a value or throws. */
  datatype Result<+T, +E> = Ok(value: T) | Err(error: E) {

    predicate IsFailure() {
      Err?
    }

    function PropagateFailure<U>(): Result<U, E>
      requires Err?
    {
      Err(error)
    }

    function Extract(): T
      requires Ok?
    {
      value
    }
  }
}
