/** The Option and Result datatypes used across the model. */
module Wrappers {

  /** An optional value: `None` plays the part of Ruby's `nil`. */
  datatype Option<+T> = None | Some(value: T)

  /** The outcome of a step that either succeeds with a value or aborts with an error. */
  datatype Result<+R, +E> = Success(value: R) | Failure(error: E)
}
