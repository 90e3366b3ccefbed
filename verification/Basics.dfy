/** Bytes, machine integers and the small wrapper types every other module uses. */
module Basics {
  newtype uint8 = x: int | 0 <= x < 0x100
  type Bytes = seq<uint8>

  /** A 32-byte verifying key and a 64-byte signature, fixed-size arrays in the source. */
  type Key = k: Bytes | |k| == 32 witness seq(32, _ => 0)
  type Signature = s: Bytes | |s| == 64 witness seq(64, _ => 0)

  type u64 = x: int | 0 <= x < 0x1_0000_0000_0000_0000

  const TWO63: int := 0x8000_0000_0000_0000
  const TWO64: int := 0x1_0000_0000_0000_0000

  datatype Option<+T> = None | Some(value: T)
  datatype Result<+T, +E> = Ok(value: T) | Err(error: E)

  /** The `as i64` cast of a `u64`: two's complement, so the top half turns negative. */
  function AsI64(x: u64): int {
    if x < TWO63 then x else x - TWO64
  }

  /** The `as u64` cast of a wider unsigned value, and unchecked `u64` arithmetic. */
  function WrapU64(x: nat): u64 {
    x % TWO64
  }

  function SaturatingSub(x: u64, y: u64): u64 {
    if x < y then 0 else x - y
  }

  function Max(x: int, y: int): int {
    if x < y then y else x
  }

  function Min(x: int, y: int): int {
    if x < y then x else y
  }
}
