/** The two failure-aware datatypes that every module uses. */
module Outcomes {

  datatype Option<+T> = None | Some(value: T)

  /** A script step either yields a value or ends the run: an exception or a sys.exit. */
  datatype Result<+T, +E> = Success(value: T) | Failure(error: E) {
    predicate IsFailure() {
      Failure?
    }

    function PropagateFailure<U>(): Result<U, E>
      requires Failure?
    {
      Failure(error)
    }

    function Extract(): T
      requires Success?
    {
      value
    }
  }
}
