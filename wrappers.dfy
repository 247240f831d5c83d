/** Failure-carrying results used where the library either throws or has nothing to return. */
module Wrappers {

  datatype Option<+T> = None | Some(value: T)

  /** A value, or the message of the error the library would throw instead. */
  datatype Result<+T> = Ok(value: T) | Failure(error: string)
}
