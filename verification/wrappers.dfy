/** Optional values and fallible results shared by every module of the model. */
module Wrappers {

  /** A value that may be absent: SQL NULL, a missing query parameter, a missing cookie. */
  datatype Option<+T> = None | Some(value: T)

  /** The outcome of a computation that may throw; the failure carries the error's message. */
  datatype Result<+T> = Success(value: T) | Failure(error: string)
}
