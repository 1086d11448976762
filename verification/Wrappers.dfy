/** Optional values and results, in place of null pointers and C++ exceptions. */
module Wrappers {
  datatype Option<+T> = None | Some(value: T)

  datatype Result<+T, +E> = Ok(value: T) | Err(error: E)
}

/** Error codes of the lock functions. */
module Errno {
  const EBUSY := 16
}
