/** Failure-compatible wrappers shared by every module of the model. */
module Wrappers {

  /** A value that may be absent (Python `None`, a missing JSON key, a failed fetch). */
  datatype Option<+T> = None | Some(value: T)

  /** The outcome of a step that can abort with an uncaught exception. */
  datatype Result<+T> = Ok(value: T) | Crash(reason: string)
}
