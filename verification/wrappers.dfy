/** Optional values and results used throughout the model. */
module Wrappers {

  /** A value that may be absent: a failed file read, a JSON `null`, Python's `None`. */
  datatype Option<+T> = None | Some(value: T)

  /** The outcome of a step that can abort the whole run with an error. */
  datatype Result<+T, +E> = Ok(value: T) | Err(error: E)
}
