/** Types shared by both decoders: DPCD bytes, optional values and the two
    exceptions the decoders can raise. */
module Common {

  /** One DPCD register byte. */
  type Byte = x: int | 0 <= x < 256

  datatype Option<+T> = None | Some(value: T)

  /** The exceptions raised by the decoders: `InvertedBits` is the
      `ValueError('Inverted start/end bits!')` of a field whose end bit lies
      below its start bit; `IndexOutOfRange` is the `IndexError` of reading a
      byte beyond the end of the buffer. */
  datatype Error = InvertedBits | IndexOutOfRange

  datatype Result<+T> = Ok(value: T) | Err(error: Error)
}
