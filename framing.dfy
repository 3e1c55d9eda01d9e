/** Shared vocabulary of the field-stream format: bytes, the two framing
    markers, and the outcome of a decoding step. */
module Framing {

  /** An unsigned 8-bit value, as read by `readUInt8` or by indexing a Node Buffer. */
  newtype byte = x: int | 0 <= x < 256

  /** Begins an embedded structured field. */
  const START: byte := 0x02

  /** Closes an embedded structured field. */
  const END: byte := 0x03

  /** The two ways a decode can fail.  `Truncated` is the range error of a read
      past the end of the buffer; `MissingEnd` is the "Invalid format: missing END
      marker" error. */
  datatype Error = Truncated | MissingEnd

  /** The outcome of a step that either yields a value or throws. */
  datatype Result<T> = Ok(value: T) | Err(error: Error)
}
