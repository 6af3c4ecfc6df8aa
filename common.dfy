/** Value wrappers shared by every module of the model. */
module Common {

  /** A value that may be absent (Python's `None`). */
  datatype Option<+T> = None | Some(value: T)

  /** The outcome of an operation that may raise. */
  datatype Result<+T, +E> = Ok(value: T) | Err(error: E)

  /** One byte of a file. */
  newtype byte = x: int | 0 <= x < 256

  /** The contents of a file or of an archive member. */
  type Bytes = seq<byte>
}
