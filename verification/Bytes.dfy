/** Bytes and the small result type shared by the codecs. */
module Bytes {
  /** A Go `byte` or one cell of a JavaScript `Uint8Array`. */
  type byte = x: int | 0 <= x < 256

  datatype Option<+T> = None | Some(value: T)
  {
    function UnwrapOr(default: T): T {
      if Some? then value else default
    }
  }

  datatype Result<+T, +E> = Ok(value: T) | Err(error: E)
}
