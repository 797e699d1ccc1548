/** Types shared by every part of the model. */
module Base {

  /** A .NET `byte`: an unsigned 8-bit value. */
  type byte = x: int | 0 <= x < 256

  /** A .NET reference that may be null. */
  datatype Option<+T> = None | Some(value: T)

  /** The value of a call that either returns or throws. */
  datatype Result<+T, +E> = Ok(value: T) | Err(error: E)

  /** A decoding character set as the records use it: `Encoding.GetString`.
      The decoder itself is foreign code, so the model keeps it as an
      arbitrary function value. */
  type Decoder = seq<byte> -> string

  /** An encoding character set as a sender uses it: `Encoding.GetBytes`. */
  type Encoder = string -> seq<byte>
}
