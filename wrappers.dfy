/** Option and Result types shared by the model. */
module Wrappers {

  /** A value that may be absent: JavaScript's `undefined`/`null`. */
  datatype Option<+T> = None | Some(value: T)

  /** The two errors the goal service throws to its caller. */
  datatype ServiceError = CapacityExceeded | NotFound

  /** An operation's outcome: its value, or the error it throws. */
  datatype Result<+T> = Success(value: T) | Failure(error: ServiceError)
}
