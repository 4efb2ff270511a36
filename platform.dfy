/**
 * Byte-order constants and the byte-swap macros of include/platform.h.
 * byteswap16 is taken on 16-bit values as integers (its mask-and-shift
 * is the exchange of the two bytes v / 256 and v % 256), byteswap32 on
 * exact 32-bit words.
 */
module Platform {
  import opened Common

  const BIG_ENDIAN: int := 4321
  const LITTLE_ENDIAN: int := 1234

  /** byteswap16: the low byte moves up, the high byte moves down. */
  function ByteSwap16(v: uint16): (r: uint16)
    ensures r % 256 == v / 256
    ensures r / 256 == v % 256
  {
    (v % 256) * 256 + v / 256
  }

  /** byteswap32: byte k of the result is byte 3 - k of v. */
  function ByteSwap32(v: bv32): (r: bv32)
    ensures r & 0xff == v >> 24
    ensures (r >> 8) & 0xff == (v >> 16) & 0xff
    ensures (r >> 16) & 0xff == (v >> 8) & 0xff
    ensures r >> 24 == v & 0xff
  {
    ((v & 0x0000_00ff) << 24) | ((v & 0x0000_ff00) << 8) | ((v & 0x00ff_0000) >> 8) | ((v & 0xff00_0000) >> 24)
  }

  lemma ByteOrdersDistinct()
    ensures BIG_ENDIAN != LITTLE_ENDIAN
  {
  }

  lemma ByteSwap16Involutive(v: uint16)
    ensures ByteSwap16(ByteSwap16(v)) == v
  {
  }

  lemma ByteSwap32Involutive(v: bv32)
    ensures ByteSwap32(ByteSwap32(v)) == v
  {
  }
}
