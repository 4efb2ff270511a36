/**
 * Machine integer types, optional values and byte-order helpers shared by
 * every component of the model.
 */
module Common {

  type byte = x: int | 0 <= x < 0x100
  type uint16 = x: int | 0 <= x < 0x1_0000
  type uint32 = x: int | 0 <= x < 0x1_0000_0000
  type uint64 = x: int | 0 <= x < 0x1_0000_0000_0000_0000

  /** The moduli of the three unsigned widths the source wraps around at. */
  const U16: int := 0x1_0000
  const U32: int := 0x1_0000_0000
  const U64: int := 0x1_0000_0000_0000_0000

  datatype Option<T> = None | Some(value: T)

  /** Big-endian (network order) two-byte encoding of a 16-bit value. */
  function Be16(v: uint16): (r: seq<byte>)
    ensures |r| == 2 && r[0] as int * 256 + r[1] == v
  {
    [v / 256, v % 256]
  }

  /** Big-endian four-byte encoding of a 32-bit value. */
  function Be32(v: uint32): (r: seq<byte>)
    ensures |r| == 4
    ensures ((r[0] as int * 256 + r[1]) * 256 + r[2]) * 256 + r[3] == v
  {
    var a := v / 256;
    var b := a / 256;
    assert v == a * 256 + v % 256 && a == b * 256 + a % 256 && b == (b / 256) * 256 + b % 256;
    [b / 256, b % 256, a % 256, v % 256]
  }

  /** Reads a big-endian 16-bit value at byte offset i. */
  function GetBe16(s: seq<byte>, i: nat): (v: uint16)
    requires i + 2 <= |s|
    ensures Be16(v) == s[i..i + 2]
  {
    s[i] as int * 256 + s[i + 1]
  }

  /** Reads a big-endian 32-bit value at byte offset i. */
  function GetBe32(s: seq<byte>, i: nat): (v: uint32)
    requires i + 4 <= |s|
    ensures Be32(v) == s[i..i + 4]
  {
    ((s[i] as int * 256 + s[i + 1]) * 256 + s[i + 2]) * 256 + s[i + 3]
  }

  /** Concatenation regroups; stated once so that callers need not expand the sequences. */
  lemma ConcatAssoc<T>(a: seq<T>, b: seq<T>, c: seq<T>)
    ensures (a + b) + c == a + (b + c)
  {
  }

  /** A slice that lies in the second part of a concatenation is a slice of that part. */
  lemma SliceOfConcat<T>(a: seq<T>, b: seq<T>, lo: nat, hi: nat)
    requires |a| <= lo <= hi <= |a| + |b|
    ensures (a + b)[lo..hi] == b[lo - |a|..hi - |a|]
  {
  }

  /** n zero bytes. */
  function Zeros(n: nat): (r: seq<byte>)
    ensures |r| == n && forall k :: 0 <= k < n ==> r[k] == 0
  {
    seq(n, _ => 0)
  }

  /** The byte at address a of a memory image (0 past what the model holds). */
  function ByteAt(mem: seq<byte>, a: nat): byte
  {
    if a < |mem| then mem[a] else 0
  }

  /** The little-endian value of the n bytes at addr. */
  function LeAt(mem: seq<byte>, addr: nat, n: nat): nat
    decreases n
  {
    if n == 0 then 0 else ByteAt(mem, addr) + 256 * LeAt(mem, addr + 1, n - 1)
  }

  function Min(a: int, b: int): int { if a <= b then a else b }
  function Max(a: int, b: int): int { if a >= b then a else b }
}
