/** Failure-carrying values used throughout the model. */
module Wrappers {

  /** A value that may be absent; `None` also stands for a call that raised. */
  datatype Option<+T> = None | Some(value: T)

  /** The outcome of a run: a report, or the reason the run stopped early. */
  datatype Result<+T, +E> = Ok(value: T) | Err(error: E)
}
