/** Failure-compatible result types shared by every module of the model. */
module Wrappers {

  /** A value that may be absent: the model's stand-in for Python's `None`. */
  datatype Option<+T> = None | Some(value: T)

  /** The exceptions the modelled Python code can raise. */
  datatype Error =
    | KeyError        // a dictionary lookup on a missing key
    | IndexError      // a list index out of range, or a pop on an empty list
    | ValueError      // `int()` of a malformed word, or `str.split('')`
    | TypeError       // `mutexify` on nodes of different kinds
    | AssertionError  // a failed `assert`
    | ZeroDivisionError // `%` by zero
    | AlreadyBuilt   // `create_graph` on a graph that already has levels

  /** Either a value or the exception that the Python code would raise. */
  datatype Result<+T> = Success(value: T) | Failure(error: Error) {
    predicate IsFailure() { Failure? }

    function PropagateFailure<U>(): Result<U>
      requires Failure?
    {
      Failure(error)
    }

    function Extract(): T
      requires Success?
    {
      value
    }
  }
}
