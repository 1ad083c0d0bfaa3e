/** Small value types shared by the rest of the model. */
module Base {

  /** An optional value: Go's nil pointer versus a present one. */
  datatype Option<+T> = None | Some(value: T)

  /** Either a value or the error that stopped the computation. */
  datatype Result<+T, +E> = Ok(value: T) | Err(error: E)

  /** One octet of a Go `[]byte`. */
  newtype byte = x: int | 0 <= x < 256
}
