/** Failure-carrying results for the translator's exits. */
module Wrappers {

  /** A value that may be absent; `None` stands for a run that exits early. */
  datatype Option<+T> = None | Some(value: T)

  /** A value or the reason the run stopped. */
  datatype Result<+T, +E> = Ok(value: T) | Err(error: E)
}
