/** Failure-compatible wrappers used across the model. */
module Wrappers {

  /** A value that may be absent; stands for a pandas cell holding NaN. */
  datatype Option<+T> = None | Some(value: T)

  /** The outcome of a stage that can abort the script with an exception. */
  datatype Result<+T, +E> = Ok(value: T) | Err(error: E)
}
