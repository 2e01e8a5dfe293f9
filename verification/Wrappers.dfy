/** Optional values and results of operations that may throw. */
module Wrappers {
  datatype Option<+T> = None | Some(value: T)
  datatype Result<+T> = Ok(value: T) | Thrown
}
