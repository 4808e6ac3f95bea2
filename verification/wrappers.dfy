/** Optional values and results that carry an error message. */
module Wrappers {

  datatype Option<+T> = None | Some(value: T)

  /** The outcome of an operation that can be refused with a message. */
  datatype Result<+T> = Success(value: T) | Failure(message: string)
}
