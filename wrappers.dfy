/** Optional values and results, used for the nullable parent reference and
    for the outcome of compiling a selector. */
module Wrappers {
  datatype Option<+T> = None | Some(value: T)

  datatype Result<+T, +E> = Ok(value: T) | Err(error: E)
}
