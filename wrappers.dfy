/** The error-carrying result used where a Go function returns `(T, error)`. */
module Wrappers {

  datatype Result<+T, +E> = Ok(value: T) | Err(error: E)

}
