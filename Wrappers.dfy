/** Optional values and operation outcomes, used across the model. */
module Wrappers {

  /** A value that may be absent; `None` also stands for a C# `null` reference. */
  datatype Option<+T> = None | Some(value: T)

  /** The outcome of an operation that produces a value or raises a typed error. */
  datatype Result<+T, +E> = Ok(value: T) | Err(error: E)

  /** The outcome of an operation that produces no value (a `void` method that may throw). */
  datatype Outcome<+E> = Pass | Fail(error: E)
}
