/** The outcome types of the checker's rules and passes. */
module Wrappers {

  /** `None` when a rule passes, `Some(v)` when it stops the run with `v`. */
  datatype Option<+T> = None | Some(value: T)

  /** A pass that either produces a value or stops the run. */
  datatype Result<+T, +E> = Ok(value: T) | Err(error: E)
}
