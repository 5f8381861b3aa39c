/** Optional values and results with an error, used wherever the script
    returns early, falls back, or a lookup may find nothing. */
module Wrappers {

  datatype Option<+T> = None | Some(value: T)

  datatype Result<+T, +E> = Ok(value: T) | Err(error: E)
}
