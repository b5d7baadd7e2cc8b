/** Optional values and results with an error, used for absent fields and for the
    exceptions the tool raises. */
module Wrappers {

  datatype Option<+T> = None | Some(value: T)

  datatype Result<+T, +E> = Ok(value: T) | Err(error: E)
}
