/** Option and Result, the wrappers the rest of the model uses. */
module Wrappers {

  datatype Option<+T> = None | Some(value: T)

  /** The outcome of an analysis step: a value, or the fault that aborts the run. */
  datatype Result<+T, +E> = Ok(value: T) | Err(error: E)
}
