// Octet strings and the integers stored in them.
module Bytes {

  type Byte = x: nat | x < 256
  type Bytes = seq<Byte>

  /** The number of 64-bit values. */
  const U64: nat := 0x1_0000_0000_0000_0000

  /** Little-endian value. */
  function Le(bs: Bytes): nat {
    if bs == [] then 0 else bs[0] + 256 * Le(bs[1..])
  }

  /** Big-endian value. */
  function Be(bs: Bytes): nat {
    if bs == [] then 0 else 256 * Be(bs[..|bs| - 1]) + bs[|bs| - 1]
  }

  /** Big-endian 16-bit value of a two-byte field. */
  function Be16(hi: Byte, lo: Byte): (n: nat)
    ensures n < 0x1_0000
  {
    256 * hi + lo
  }
}
