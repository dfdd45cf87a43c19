/** Small wrapper types shared by the modules of the model. */
module Base {

  /** A value that may be absent, like a key missing from a Python dict. */
  datatype Option<+T> = None | Some(value: T)

  /** The outcome of an operation that either produces a value or raises an error. */
  datatype Result<+T, +E> = Ok(value: T) | Err(error: E)
}
