/** Failure-compatible wrappers shared by the model: `Option` for the nullable
    fields of a comparator, `Result` for the parser, whose TypeScript original
    reports errors by throwing. */
module Wrappers {

  datatype Option<+T> = None | Some(value: T)

  /** Either the parsed value or the error the original would have thrown. */
  datatype Result<+R, +E> = Success(value: R) | Failure(error: E) {

    predicate IsFailure() {
      Failure?
    }

    function PropagateFailure<U>(): Result<U, E>
      requires Failure?
    {
      Failure(error)
    }

    function Extract(): R
      requires Success?
    {
      value
    }
  }
}
