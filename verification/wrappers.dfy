/** Optional values and results with an error, standing in for Python's
    `X | None` and for raised exceptions. */
module Wrappers {

  /** `X | None`. */
  datatype Option<+T> = None | Some(value: T)

  /** A computation that either produced a value or raised `error`. */
  datatype Result<+T, +E> = Ok(value: T) | Err(error: E) {

    predicate IsFailure() {
      Err?
    }

    function PropagateFailure<U>(): Result<U, E>
      requires Err?
    {
      Err(error)
    }

    function Extract(): T
      requires Ok?
    {
      value
    }
  }

  /** A check that either passed or raised `error`. */
  datatype Outcome<+E> = Pass | Fail(error: E)
}
