/** Byte-level vocabulary shared by the encoder and the decoder: bytes, bit fields and
    the big-endian packing of a 16-bit word that Rust's `u16::from_be_bytes` and
    `u16::to_be_bytes` perform. */
module Bits {

  type Byte = bv8

  /** The mask of the low `width` bits of a byte. */
  function Mask(width: nat): (m: Byte)
    requires width <= 8
  {
    [0x00, 0x01, 0x03, 0x07, 0x0F, 0x1F, 0x3F, 0x7F, 0xFF][width]
  }

  /** Reference definition of a bit field: bits `lo + width - 1` down to `lo` of `b`,
      moved to the bottom of a byte. */
  function Field(b: Byte, lo: nat, width: nat): Byte
    requires lo + width <= 8
  {
    (b >> lo) & Mask(width)
  }

  /** `u16::from_be_bytes([hi, lo])`: `hi` is the more significant byte. */
  function Be16(hi: Byte, lo: Byte): (w: bv16)
    ensures w == hi as bv16 * 0x100 + lo as bv16
  {
    (hi as bv16 << 8) | lo as bv16
  }

  /** `u16::to_be_bytes(w)`: the two bytes of `w`, most significant first. */
  function ToBeBytes(w: bv16): (bytes: seq<Byte>)
    ensures |bytes| == 2
    ensures bytes[0] as bv16 == w / 0x100 && bytes[1] as bv16 == w % 0x100
    ensures Be16(bytes[0], bytes[1]) == w
  {
    [(w >> 8) as Byte, (w & 0xFF) as Byte]
  }

  /** The other direction of the round trip: splitting a packed word gives its bytes back. */
  lemma BeBytesRoundTrip(hi: Byte, lo: Byte)
    ensures ToBeBytes(Be16(hi, lo)) == [hi, lo]
  {
  }
}
