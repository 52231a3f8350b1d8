/** Option and Result, the two failure-carrying datatypes the model uses. */
module Wrappers {

  datatype Option<+T> = None | Some(value: T)

  /** An operation that either produces a value or throws with a message. */
  datatype Result<+T> = Success(value: T) | Failure(error: string)
}
