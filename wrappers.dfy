/** Failure-carrying results shared by the modules of this model. */
module Wrappers {

  /** The outcome of a call that yields a value or raises with a message. */
  datatype Result<+T> = Success(value: T) | Failure(error: string)

  /** The outcome of a call that yields nothing or raises with a message. */
  datatype Outcome = Pass | Fail(error: string)
}
