/** Option and Result, for lines that may fail to decode and for
    connection-scoped failures. */
module Wrappers {

  datatype Option<+T> = None | Some(value: T)

  datatype Result<+T, +E> = Ok(value: T) | Err(error: E)
}
