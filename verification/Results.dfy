/** Optional values and failures. */
module Results {
  datatype Option<+T> = None | Some(value: T)

  /** A computed value, or the exception the C++ code throws. */
  datatype Result<+T> = Ok(value: T) | Failed
}
