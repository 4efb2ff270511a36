/**
 * Buffer-cache flag bits and the device-number packing macros of
 * include/buf.h: the top four bits of a 32-bit device number hold the
 * device type, the low 28 bits the unit number.
 */
module Buf {

  const SECTOR_SIZE: int := 512

  const B_BUSY: bv32 := 0x1
  const B_VALID: bv32 := 0x2
  const B_DIRTY: bv32 := 0x4

  const DEV_TYPE_MASK: bv32 := 0xF000_0000
  const DEV_NUM_MASK: bv32 := 0x0FFF_FFFF
  const DEV_IDE: bv32 := 0
  const DEV_SATA: bv32 := 1

  /** GETDEVTYPE: the type field, always below 16. */
  function GetDevType(a: bv32): (t: bv32)
    ensures t < 16
    ensures t << 28 == a & DEV_TYPE_MASK
  {
    (a & DEV_TYPE_MASK) >> 28
  }

  /** GETDEVNUM: the unit field, always below 2^28. */
  function GetDevNum(a: bv32): (n: bv32)
    ensures n < 0x1000_0000
    ensures n | (a & DEV_TYPE_MASK) == a
  {
    a & DEV_NUM_MASK
  }

  /**
   * TODEVNUM: packs a type and a unit number. The sum wraps at 2^32 like
   * the source's unsigned arithmetic; for a type below 16 both fields
   * read back unchanged (the unit truncated to 28 bits).
   */
  function ToDevNum(t: bv32, n: bv32): (a: bv32)
    ensures t < 16 ==> GetDevType(a) == t
    ensures GetDevNum(a) == n & DEV_NUM_MASK
  {
    (t << 28) + (DEV_NUM_MASK & n)
  }

  lemma MasksPartitionWord()
    ensures DEV_TYPE_MASK & DEV_NUM_MASK == 0
    ensures DEV_TYPE_MASK | DEV_NUM_MASK == 0xFFFF_FFFF
  {
  }

  /** Each flag is a single bit and no two flags share one. */
  lemma FlagsAreDistinctBits()
    ensures B_BUSY & (B_BUSY - 1) == 0 && B_VALID & (B_VALID - 1) == 0 && B_DIRTY & (B_DIRTY - 1) == 0
    ensures B_BUSY & B_VALID == 0 && B_BUSY & B_DIRTY == 0 && B_VALID & B_DIRTY == 0
    ensures B_BUSY != 0 && B_VALID != 0 && B_DIRTY != 0
  {
  }
}
