/**
 * Unsigned machine integers of the parser and the big-endian 16-bit
 * conversion that reads ports and the UDP length (`u16::from_be_bytes`).
 */
module Bytes {

  /** An octet of the captured frame (`u8`). */
  newtype byte = b: int | 0 <= b < 0x100

  /** A 16-bit unsigned value (`u16`): a port or the UDP length field. */
  type uint16 = x: int | 0 <= x < 0x1_0000

  /** `u16::from_be_bytes([hi, lo])`: the high-order octet comes first (network byte order). */
  function Be16(hi: byte, lo: byte): (r: uint16)
    ensures r / 0x100 == hi as int && r % 0x100 == lo as int
  {
    hi as int * 0x100 + lo as int
  }

  /** `u16::to_be_bytes(v)`: the two octets that put `v` on the wire in network byte order. */
  function ToBe16(v: uint16): (bs: (byte, byte))
    ensures Be16(bs.0, bs.1) == v
  {
    ((v / 0x100) as byte, (v % 0x100) as byte)
  }

  /** Reading a 16-bit field back after writing it gives the same octets. */
  lemma ToBe16OfBe16(hi: byte, lo: byte)
    ensures ToBe16(Be16(hi, lo)) == (hi, lo)
  {
  }
}
