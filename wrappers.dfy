/** Optional values and results with an error tag, as used by the shape generator. */
module Wrappers {

  /** A value that may be absent, standing for a Python argument that defaults to `None`. */
  datatype Option<+T> = None | Some(value: T)

  /** Either a value or the reason the operation raised. */
  datatype Result<+T, +E> = Ok(value: T) | Err(error: E)
}
