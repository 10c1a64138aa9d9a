/** Failure-carrying datatypes shared by every module of the model. */
module Wrappers {

  /** A value that may be absent (a Go `nil`, a missing map entry, a failed parse). */
  datatype Option<+T> = None | Some(value: T)

  /** A Go `(value, error)` pair: exactly one of the two is meaningful. */
  datatype Result<+T, +E> = Ok(value: T) | Err(error: E)

  /** The result of a step that may stop the whole process: a Go panic, a
      `logger.Fatal`, or a runtime stack overflow. `Crash` carries no state,
      because nothing survives it. */
  datatype Outcome<+T> = Done(value: T) | Crash
}
