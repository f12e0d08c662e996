/** Option and Result, the failure-carrying values used by every module. */
module Wrappers {

  datatype Option<+T> = None | Some(value: T)

  /** What a service call produced: a value, or the message of the error it threw. */
  datatype Result<+T, +E> = Success(value: T) | Failure(error: E)
}
