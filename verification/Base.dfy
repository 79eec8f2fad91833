/** Machine integers, status codes and the few helpers every layer shares. */
module Base {
  const TWO_16: int := 0x1_0000
  const TWO_31: int := 0x8000_0000
  const TWO_32: int := 0x1_0000_0000

  type u8 = x: int | 0 <= x < 0x100
  type u16 = x: int | 0 <= x < 0x1_0000
  type u32 = x: int | 0 <= x < 0x1_0000_0000
  type i32 = x: int | -0x8000_0000 <= x < 0x8000_0000

  type byte = bv8
  type Bytes = seq<byte>

  /** The outcomes the layers report; `Ok` is success. */
  datatype Status =
    | Ok
    | Busy
    | InvalidParam
    | NoMemory
    | BufferTooSmall
    | WindowFull
    | SequenceError
    | InvalidFrame
    | CrcFailed
    | NotFound
    | RouteNotFound
    | TtlExpired
    | TxFailed

  datatype Option<+T> = None | Some(value: T)

  /** Unsigned 32-bit arithmetic wraps around. */
  function Wrap32(x: int): u32 {
    x % 0x1_0000_0000
  }

  function Add32(a: int, b: int): u32 {
    Wrap32(a + b)
  }

  function Sub32(a: int, b: int): u32 {
    Wrap32(a - b)
  }
}
