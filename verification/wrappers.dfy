/** Failure-compatible wrappers shared by every module of the model. */
module Wrappers {

  /** A value that may be absent (Python's `None`). */
  datatype Option<+T> = None | Some(value: T)

  /** The exceptions that the modelled Python code raises on its error paths. */
  datatype PyError =
    | ValueError        // negative Fibonacci index, `math.isqrt` of a negative number
    | KeyError          // `OrderedDict.popitem` on an empty dictionary
    | StopIteration     // `next(iter(d))` on an empty dictionary
    | ZeroDivisionError // `%` or `/` by zero

  /** Either a value or the exception that replaced it. */
  datatype Result<+T> = Success(value: T) | Failure(error: PyError) {
    predicate IsFailure() {
      Failure?
    }

    function PropagateFailure<U>(): Result<U>
      requires Failure?
    {
      Failure(error)
    }

    function Extract(): T
      requires Success?
    {
      value
    }
  }
}
