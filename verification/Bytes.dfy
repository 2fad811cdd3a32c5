/** Machine integers and the byte order of the two processors (both are little-endian). */
module Bytes {

  type byte = x: int | 0 <= x < 0x100
  type u16 = x: int | 0 <= x < 0x1_0000
  type u32 = x: int | 0 <= x < 0x1_0000_0000

  /** The 16-bit word at `i`, as a little-endian load reads it. */
  function Le16(b: seq<byte>, i: nat): u16
    requires i + 2 <= |b|
  {
    b[i] as int + 0x100 * b[i + 1] as int
  }

  /** The 32-bit word at `i`, as a little-endian load reads it. */
  function Le32(b: seq<byte>, i: nat): u32
    requires i + 4 <= |b|
  {
    Le16(b, i) as int + 0x1_0000 * Le16(b, i + 2) as int
  }

  /** The 16-bit field at `i` in network byte order. */
  function Be16(b: seq<byte>, i: nat): u16
    requires i + 2 <= |b|
  {
    0x100 * b[i] as int + b[i + 1] as int
  }

  /** A little-endian 16-bit store. */
  function PutLe16(b: seq<byte>, i: nat, v: u16): (r: seq<byte>)
    requires i + 2 <= |b|
  {
    b[i := v % 0x100][i + 1 := v / 0x100]
  }

  /** A 16-bit store in network byte order. */
  function PutBe16(b: seq<byte>, i: nat, v: u16): (r: seq<byte>)
    requires i + 2 <= |b|
  {
    b[i := v / 0x100][i + 1 := v % 0x100]
  }

  /** A little-endian 32-bit store: what copying four bytes out of a `uint32_t` does. */
  function PutLe32(b: seq<byte>, i: nat, v: u32): (r: seq<byte>)
    requires i + 4 <= |b|
  {
    PutLe16(PutLe16(b, i, v % 0x1_0000), i + 2, v / 0x1_0000)
  }

  function Swap16(v: u16): u16
  {
    0x100 * (v as int % 0x100) + v as int / 0x100
  }
}
