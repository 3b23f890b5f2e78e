/** Option and Result, for the values the backend and the pages leave null and for the errors the endpoints raise. */
module Wrappers {

  datatype Option<+T> = None | Some(value: T)

  datatype Result<+T, +E> = Ok(value: T) | Err(error: E)
}
