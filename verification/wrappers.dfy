/** Optional values and results that carry an error, used for the
    handlers' absent parameters and error pages. */
module Wrappers {

  datatype Option<+T> = None | Some(value: T)

  datatype Result<+T, +E> = Ok(value: T) | Err(error: E)
}
