/**
 * The on-disk format of fs1 (include/fs/fs1.h, copied into tools/mkfs.c):
 * block numbers of the superblock, inodes and bitmap, the little-endian
 * byte layout of the superblock, the dinode and the directory entry, and
 * the bit operations the free-block bitmap is kept with. Both the kernel
 * (kernel/fs/fs1.c) and the image builder (tools/mkfs.c) are modelled
 * against this one layout.
 */
module Fs1Layout {
  import opened Common

  const ROOTINO: nat := 1
  const BSIZE: nat := 512
  const NDIRECT: nat := 28
  /** BSIZE / sizeof(uint): block numbers one indirect block holds. */
  const NINDIRECT: nat := BSIZE / 4
  const MAXFILE: nat := NDIRECT + NINDIRECT
  /** sizeof(struct dinode): four int16, a uint32 size and NDIRECT + 1 uint32 addresses. */
  const DINODE_SIZE: nat := 4 * 2 + 4 + 4 * (NDIRECT + 1)
  const IPB: nat := BSIZE / DINODE_SIZE
  const BPB: nat := BSIZE * 8
  const DIRSIZ: nat := 14
  /** sizeof(struct dirent): a ushort inode number and DIRSIZ name bytes. */
  const DIRENT_SIZE: nat := 2 + DIRSIZ
  /** The inode types of include/stat.h (not part of this model: the xv6 values). */
  const T_DIR: int16 := 1
  const T_FILE: int16 := 2

  /** sizeof(struct fs1_superblock): four uint fields. */
  const SB_SIZE: nat := 16

  /** IBLOCK(i): the block holding inode i. */
  function IBlock(i: nat): (b: nat)
    ensures b >= 2
  {
    i / IPB + 2
  }

  /** BBLOCK(b, ninodes): the bitmap block holding the bit of block b. */
  function BBlock(b: nat, ninodes: nat): (r: nat)
    ensures r >= 3 && r == b / BPB + IBlock(ninodes) + 1
  {
    b / BPB + ninodes / IPB + 3
  }

  /** The inode blocks of inodes below ninodes all come before every bitmap block. */
  lemma InodesBeforeBitmap(inum: nat, ninodes: nat, b: nat)
    requires inum < ninodes
    ensures IBlock(inum) < BBlock(b, ninodes)
  {
    assert inum / IPB <= ninodes / IPB;
  }

  type int16 = x: int | -0x8000 <= x < 0x8000

  /** The 16-bit two's complement pattern of v, and back. */
  function Int16Bits(v: int16): (u: uint16)
    ensures Int16Of(u) == v
  {
    if v >= 0 then v else v + U16
  }

  function Int16Of(u: uint16): (v: int16)
    ensures (v - u) % U16 == 0
  {
    if u < 0x8000 then u else u - U16
  }

  /** The two bytes of v least significant first, as an x86 stores it. */
  function Le16(v: uint16): (r: seq<byte>)
    ensures |r| == 2 && r[1] as int * 256 + r[0] == v
  {
    [v % 256, v / 256]
  }

  function GetLe16(s: seq<byte>, i: nat): uint16
    requires i + 2 <= |s|
  {
    s[i + 1] as int * 256 + s[i]
  }

  /** A 16-bit value stored at i reads back as itself. */
  lemma Le16RoundTrip(s: seq<byte>, i: nat, v: uint16)
    requires i + 2 <= |s| && s[i..i + 2] == Le16(v)
    ensures GetLe16(s, i) == v
  {
    assert s[i] == Le16(v)[0] && s[i + 1] == Le16(v)[1];
  }

  /** The four bytes of v least significant first. */
  function Le32(v: uint32): (r: seq<byte>)
    ensures |r| == 4
    ensures ((r[3] as int * 256 + r[2]) * 256 + r[1]) * 256 + r[0] == v
  {
    [v % 256, (v / 256) % 256, (v / 256 / 256) % 256, v / 256 / 256 / 256]
  }

  function GetLe32(s: seq<byte>, i: nat): uint32
    requires i + 4 <= |s|
  {
    ((s[i + 3] as int * 256 + s[i + 2]) * 256 + s[i + 1]) * 256 + s[i]
  }

  /** A 32-bit value stored at i reads back as itself. */
  lemma Le32RoundTrip(s: seq<byte>, i: nat, v: uint32)
    requires i + 4 <= |s| && s[i..i + 4] == Le32(v)
    ensures GetLe32(s, i) == v
  {
    assert s[i] == Le32(v)[0] && s[i + 1] == Le32(v)[1] && s[i + 2] == Le32(v)[2] && s[i + 3] == Le32(v)[3];
  }

  /** s with the bytes at off..off + |t| replaced by t. */
  function Splice(s: seq<byte>, off: nat, t: seq<byte>): (r: seq<byte>)
    requires off + |t| <= |s|
    ensures |r| == |s| && r[off..off + |t|] == t
    ensures forall k :: 0 <= k < |s| && !(off <= k < off + |t|) ==> r[k] == s[k]
  {
    s[..off] + t + s[off + |t|..]
  }

  // ---------------------------------------------------------------- bits

  function Pow2(n: nat): (r: nat)
    ensures r >= 1
  {
    if n == 0 then 1 else 2 * Pow2(n - 1)
  }

  /** Bit k of v: (v >> k) & 1, so (v & (1 << k)) != 0. */
  predicate Bit(v: nat, k: nat)
  {
    if k == 0 then v % 2 == 1 else Bit(v / 2, k - 1)
  }

  /** v | (1 << k) for a byte v. */
  function SetBit(v: byte, k: nat): (r: byte)
    requires k < 8
    ensures forall j :: Bit(r, j) == (j == k || Bit(v, j))
  {
    if Bit(v, k) then v
    else
      assert Pow2(8) == 256;
      AddBitBound(v, k, 8);
      forall j ensures Bit(v + Pow2(k), j) == (j == k || Bit(v, j)) {
        AddBit(v, k, j);
      }
      v + Pow2(k)
  }

  /** v & ~(1 << k) for a byte v. */
  function ClearBit(v: byte, k: nat): (r: byte)
    requires k < 8
    ensures forall j :: Bit(r, j) == (j != k && Bit(v, j))
  {
    if Bit(v, k) then
      SubBit(v, k, 0);
      forall j ensures Bit(v - Pow2(k), j) == (j != k && Bit(v, j)) {
        SubBit(v, k, j);
      }
      v - Pow2(k)
    else v
  }

  /** Adding 2^k to a number whose bit k is clear sets that bit and no other. */
  lemma {:induction false} AddBit(v: nat, k: nat, j: nat)
    requires !Bit(v, k)
    ensures Bit(v + Pow2(k), j) == (j == k || Bit(v, j))
  {
    if k == 0 {
      if j > 0 {
        assert (v + 1) / 2 == v / 2;
      }
    } else if j == 0 {
      assert (v + Pow2(k)) % 2 == v % 2;
    } else {
      assert (v + Pow2(k)) / 2 == v / 2 + Pow2(k - 1);
      AddBit(v / 2, k - 1, j - 1);
    }
  }

  /** Subtracting 2^k from a number whose bit k is set clears that bit and no other. */
  lemma {:induction false} SubBit(v: nat, k: nat, j: nat)
    requires Bit(v, k)
    ensures v >= Pow2(k) && Bit(v - Pow2(k), j) == (j != k && Bit(v, j))
  {
    if k == 0 {
      if j > 0 {
        assert (v - 1) / 2 == v / 2;
      }
    } else {
      SubBit(v / 2, k - 1, if j == 0 then 0 else j - 1);
      assert (v - Pow2(k)) / 2 == v / 2 - Pow2(k - 1);
      if j == 0 {
        assert (v - Pow2(k)) % 2 == v % 2;
      }
    }
  }

  /** Setting a clear bit below bit n keeps a number below 2^n. */
  lemma {:induction false} AddBitBound(v: nat, k: nat, n: nat)
    requires v < Pow2(n) && k < n && !Bit(v, k)
    ensures v + Pow2(k) < Pow2(n)
  {
    assert Pow2(n) == 2 * Pow2(n - 1);
    if k > 0 {
      assert !Bit(v / 2, k - 1);
      assert v / 2 < Pow2(n - 1);
      AddBitBound(v / 2, k - 1, n - 1);
      assert v <= 2 * (v / 2) + 1;
      assert Pow2(k) == 2 * Pow2(k - 1);
    } else {
      assert v % 2 == 0;
    }
  }

  /** Setting a clear bit and clearing it again gives the byte back. */
  lemma ClearSetBit(v: byte, k: nat)
    requires k < 8 && !Bit(v, k)
    ensures ClearBit(SetBit(v, k), k) == v
  {
    AddBit(v, k, k);
  }

  // ---------------------------------------------------------- superblock

  /** struct fs1_superblock, in blocks and inodes. */
  datatype Superblock = Superblock(size: uint32, nblocks: uint32, ninodes: uint32, nlog: uint32)

  function EncodeSb(sb: Superblock): (r: seq<byte>)
    ensures |r| == SB_SIZE
  {
    Le32(sb.size) + Le32(sb.nblocks) + Le32(sb.ninodes) + Le32(sb.nlog)
  }

  /** The superblock as memmove(sb, bp->data, sizeof(*sb)) reads it. */
  function DecodeSb(s: seq<byte>): Superblock
    requires |s| >= SB_SIZE
  {
    Superblock(GetLe32(s, 0), GetLe32(s, 4), GetLe32(s, 8), GetLe32(s, 12))
  }

  /** A superblock written at the start of a block reads back as itself. */
  lemma SbRoundTrip(sb: Superblock, rest: seq<byte>)
    ensures DecodeSb(EncodeSb(sb) + rest) == sb
  {
    var s := EncodeSb(sb) + rest;
    assert s[0..4] == Le32(sb.size) && s[4..8] == Le32(sb.nblocks);
    assert s[8..12] == Le32(sb.ninodes) && s[12..16] == Le32(sb.nlog);
    Le32RoundTrip(s, 0, sb.size);
    Le32RoundTrip(s, 4, sb.nblocks);
    Le32RoundTrip(s, 8, sb.ninodes);
    Le32RoundTrip(s, 12, sb.nlog);
  }

  // -------------------------------------------------------------- dinode

  /** struct dinode. */
  datatype Dinode = Dinode(kind: int16, major: int16, minor: int16, nlink: int16, size: uint32, addrs: seq<uint32>)

  /** A dinode holds exactly NDIRECT + 1 block addresses. */
  predicate Shaped(di: Dinode)
  {
    |di.addrs| == NDIRECT + 1
  }

  /** A block address array, four bytes per address. */
  function EncodeAddrs(a: seq<uint32>): (r: seq<byte>)
    ensures |r| == 4 * |a|
  {
    if a == [] then [] else Le32(a[0]) + EncodeAddrs(a[1..])
  }

  lemma {:induction false} EncodeAddrsAt(a: seq<uint32>, j: nat)
    requires j < |a|
    ensures EncodeAddrs(a)[4 * j..4 * j + 4] == Le32(a[j])
  {
    if j > 0 {
      EncodeAddrsAt(a[1..], j - 1);
      assert EncodeAddrs(a)[4 * j..4 * j + 4] == EncodeAddrs(a[1..])[4 * (j - 1)..4 * (j - 1) + 4];
    }
  }

  /** The k addresses stored from byte i of s. */
  function DecodeAddrs(s: seq<byte>, i: nat, k: nat): (a: seq<uint32>)
    requires i + 4 * k <= |s|
    ensures |a| == k && forall j :: 0 <= j < k ==> a[j] == GetLe32(s, i + 4 * j)
  {
    seq(k, j requires 0 <= j < k => GetLe32(s, i + 4 * j))
  }

  function EncodeDinode(di: Dinode): (r: seq<byte>)
    requires Shaped(di)
    ensures |r| == DINODE_SIZE
  {
    Le16(Int16Bits(di.kind)) + Le16(Int16Bits(di.major)) + Le16(Int16Bits(di.minor)) + Le16(Int16Bits(di.nlink))
    + Le32(di.size) + EncodeAddrs(di.addrs)
  }

  function DecodeDinode(s: seq<byte>): (di: Dinode)
    requires |s| >= DINODE_SIZE
    ensures Shaped(di)
  {
    Dinode(Int16Of(GetLe16(s, 0)), Int16Of(GetLe16(s, 2)), Int16Of(GetLe16(s, 4)), Int16Of(GetLe16(s, 6)),
           GetLe32(s, 8), DecodeAddrs(s, 12, NDIRECT + 1))
  }

  /** A dinode written out reads back as itself. */
  lemma DinodeRoundTrip(di: Dinode)
    requires Shaped(di)
    ensures DecodeDinode(EncodeDinode(di)) == di
  {
    var s := EncodeDinode(di);
    var tail := EncodeAddrs(di.addrs);
    assert s == Le16(Int16Bits(di.kind)) + Le16(Int16Bits(di.major)) + Le16(Int16Bits(di.minor))
      + Le16(Int16Bits(di.nlink)) + Le32(di.size) + tail;
    assert s[0..2] == Le16(Int16Bits(di.kind)) && s[2..4] == Le16(Int16Bits(di.major));
    assert s[4..6] == Le16(Int16Bits(di.minor)) && s[6..8] == Le16(Int16Bits(di.nlink));
    assert s[8..12] == Le32(di.size);
    Le16RoundTrip(s, 0, Int16Bits(di.kind));
    Le16RoundTrip(s, 2, Int16Bits(di.major));
    Le16RoundTrip(s, 4, Int16Bits(di.minor));
    Le16RoundTrip(s, 6, Int16Bits(di.nlink));
    Le32RoundTrip(s, 8, di.size);
    var a := DecodeAddrs(s, 12, NDIRECT + 1);
    forall j | 0 <= j < NDIRECT + 1
      ensures a[j] == di.addrs[j]
    {
      EncodeAddrsAt(di.addrs, j);
      assert s[12 + 4 * j..12 + 4 * j + 4] == tail[4 * j..4 * j + 4];
      Le32RoundTrip(s, 12 + 4 * j, di.addrs[j]);
    }
  }

  // ------------------------------------------------------------- dirent

  /** struct dirent: the name is the DIRSIZ name bytes, not necessarily NUL-terminated. */
  datatype Dirent = Dirent(inum: uint16, name: seq<char>)

  /** A C char stored in a byte. */
  function CharByte(c: char): byte
  {
    (c as int) % 256
  }

  function NameBytes(name: seq<char>): (r: seq<byte>)
    ensures |r| == |name| && forall k :: 0 <= k < |name| ==> r[k] == CharByte(name[k])
  {
    seq(|name|, k requires 0 <= k < |name| => CharByte(name[k]))
  }

  function EncodeDirent(de: Dirent): (r: seq<byte>)
    requires |de.name| == DIRSIZ
    ensures |r| == DIRENT_SIZE
  {
    Le16(de.inum) + NameBytes(de.name)
  }

  function DecodeDirent(s: seq<byte>): (de: Dirent)
    requires |s| >= DIRENT_SIZE
    ensures |de.name| == DIRSIZ
  {
    Dirent(GetLe16(s, 0), seq(DIRSIZ, k requires 0 <= k < DIRSIZ => s[2 + k] as char))
  }

  /** A directory entry whose name is made of 8-bit characters reads back as itself. */
  lemma DirentRoundTrip(de: Dirent)
    requires |de.name| == DIRSIZ && forall k :: 0 <= k < DIRSIZ ==> de.name[k] as int < 256
    ensures DecodeDirent(EncodeDirent(de)) == de
  {
    var s := EncodeDirent(de);
    assert s[0..2] == Le16(de.inum);
    Le16RoundTrip(s, 0, de.inum);
    var d := DecodeDirent(s);
    assert forall k :: 0 <= k < DIRSIZ ==> d.name[k] == de.name[k];
  }
}
