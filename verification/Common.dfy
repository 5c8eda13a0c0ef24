/** Vocabulary shared by the models of the operator, the edge host and the device. */
module Common {

  /** A value that may be absent: a nil pointer, an empty slot, an unset status field. */
  datatype Option<+T> = None | Some(value: T)

  /** An outcome that is either a value or a reason for refusal. */
  datatype Result<+T, +E> = Ok(value: T) | Err(error: E)

  /** One octet on a wire or in a file. */
  type Byte = b: int | 0 <= b < 256
}
