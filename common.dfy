/** Types shared by the whole model: bytes, 16-bit ports, Option/Result and the
    errors that end a VMess connection. */
module Common {

  type byte = x: int | 0 <= x < 256

  /** A Rust `u16`. */
  type U16 = x: int | 0 <= x < 0x1_0000

  datatype Option<+T> = None | Some(value: T) {
    function GetOr(default: T): T {
      match this
      case Some(v) => v
      case None => default
    }
  }

  datatype Result<+T, +E> = Ok(value: T) | Err(error: E)

  /** Everything that makes `VmessStream::process` return `Err`. */
  datatype Error =
    | UnexpectedEof                          // a short read, on the client stream or in the command bytes
    | Aead                                   // an AES-GCM tag check failed
    | InvalidVersion                         // the command's version byte is not 1
    | Address                                // the address parser rejected the address field
    | Send                                   // the WebSocket refused an outbound message
    | AllTcpAttemptsFailed(errors: seq<string>)

  function Min(a: int, b: int): int {
    if a <= b then a else b
  }

  /** `((hi as u16) << 8) | (lo as u16)`: a big-endian 16-bit value. */
  function BigEndian16(hi: byte, lo: byte): (v: U16)
    ensures v / 256 == hi && v % 256 == lo
  {
    hi * 256 + lo
  }

  /** `u16::to_be_bytes`. */
  function ToBigEndian16(v: U16): (bs: seq<byte>)
    ensures |bs| == 2 && BigEndian16(bs[0], bs[1]) == v
  {
    [v / 256, v % 256]
  }
}
