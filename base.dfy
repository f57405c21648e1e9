/** Small wrapper types shared by every module of the reservation model. */
module Base {

  /** Python's `None` next to a value. */
  datatype Option<+T> = None | Some(value: T)

  /** The outcome of an operation that may raise an error. */
  datatype Result<+T, +E> = Ok(value: T) | Err(error: E)
}
