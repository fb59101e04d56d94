/** Option and Result, the two wrappers every stage of the pipeline returns. */
module Wrappers {

  /** A value that may be absent (JavaScript's `undefined`/`null`). */
  datatype Option<+T> = None | Some(value: T)

  /** The outcome of a stage: a value, or the error handed to the stage's callback. */
  datatype Result<+T, +E> = Ok(value: T) | Err(error: E)
}
