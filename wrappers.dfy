/** The failure-carrying result type used for operations that can fail. */
module Wrappers {

  datatype Result<+T, +E> = Ok(value: T) | Err(error: E)
}
