/** Vocabulary shared by every module: bytes, digests, and the two result shapes. */
module Common {
  type Byte = b: nat | b < 256
  type Bytes = seq<Byte>

  // A digest is the hex string that names some content.
  type Digest = string

  datatype Option<+T> = None | Some(value: T)

  datatype Result<+T, +E> = Ok(value: T) | Err(error: E)
}
