/** Failure-carrying results for operations whose source reports an error
    instead of changing state. */
module Wrappers {

  /** A value that may be absent. */
  datatype Option<+T> = None | Some(value: T)

  /** Either the value an operation produced or the reason it refused. */
  datatype Result<+T, +E> = Ok(value: T) | Err(error: E)
}
