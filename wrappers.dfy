/** The error-carrying result the source returns as `Result<_, String>`. */
module Wrappers {

  datatype Result<T> = Ok(value: T) | Err(error: string)
}
