/** Failure-compatible result types shared by the lexer, parser and evaluator. */
module Wrappers {

  /** An optional value, such as a `_next` link that may be unset. */
  datatype Option<+T> = None | Some(value: T)

  /** A value or the error that a C++ `throw` would have raised instead. */
  datatype Result<+T, +E> = Success(value: T) | Failure(error: E) {

    predicate IsFailure() {
      Failure?
    }

    function PropagateFailure<U>(): Result<U, E>
      requires Failure?
    {
      Failure(error)
    }

    function Extract(): T
      requires Success?
    {
      value
    }
  }
}
