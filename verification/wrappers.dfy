/** Option and Result, the two failure-carrying shapes the model needs.
    `Result` is failure-compatible, so `var x :- F();` propagates a `Fail`. */
module Wrappers {

  /** A Python value that may be `None`, or a dict key that may be absent. */
  datatype Option<+T> = None | Some(value: T)

  /** The outcome of a computation that may raise: `Fail` carries the exception. */
  datatype Result<+T, +E> = Ok(value: T) | Fail(error: E) {

    predicate IsFailure() {
      Fail?
    }

    function PropagateFailure<U>(): Result<U, E>
      requires Fail?
    {
      Fail(error)
    }

    function Extract(): T
      requires Ok?
    {
      value
    }
  }
}
