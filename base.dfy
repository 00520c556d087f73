/** Stock option and result types used throughout the model. */
module Base {

  /** Python's `None` versus a present value. */
  datatype Option<T> = None | Some(value: T)

  /** A value, or the error that the source raises instead. */
  datatype Result<T, E> = Ok(value: T) | Err(error: E)

  function Min(a: int, b: int): int
  {
    if a <= b then a else b
  }
}
