/** Option, Result and Outcome: the failure-carrying values that stand for Rust's
    `Option` and for the runtime's panics. */
module Wrappers {

  datatype Option<+T> = None | Some(value: T)

  /** A lookup that either hands over a value or names the fault the source panics with. */
  datatype Result<+R, +E> = Success(value: R) | Failure(error: E)

  /** An operation that returns nothing but may still panic. */
  datatype Outcome<+E> = Pass | Fail(error: E)
}
