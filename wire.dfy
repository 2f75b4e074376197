/** Vocabulary shared by the client and the server: octets and the
    success/failure wrappers that stand for Python's exceptions. */
module Wire {

  /** One octet, as an element of a Python `bytes` value. */
  type byte = b: int | 0 <= b < 256

  /** The outcome of a Python call that either returns or raises. */
  datatype Result<+T, +E> = Ok(value: T) | Err(error: E)

  datatype Option<+T> = None | Some(value: T)

  /** The big-endian reading of two octets. */
  function ReadU16(hi: byte, lo: byte): (v: int)
    ensures 0 <= v < 65536
  {
    hi * 256 + lo
  }
}
