/**
 * The image builder tools/mkfs.c: the fs1 layout it lays down (superblock,
 * inode blocks, one bitmap block, data blocks from usedblocks on), the
 * host-independent little-endian stores xshort/xint, inode allocation,
 * appending to a file through its direct and indirect block addresses, the
 * directory entries of mkdir, the final bitmap and the rounding of the
 * directory sizes. The image file is a map from sector numbers to 512-byte
 * sectors together with its length in sectors; reading a sector past its
 * end is where mkfs gives up (perror and exit), which the model reports as
 * a failed step.
 */
module Mkfs {
  import opened Common
  import opened Fs1Layout
  import opened Fs1Disk
  import Platform

  const FREESPACE: nat := 3000
  const NINODES: nat := 200
  /** The image size in blocks: size = 1024 + FREESPACE + 25. */
  const SIZE: nat := 1024 + FREESPACE + 25
  /** bitblocks = size / (512 * 8) + 1. */
  const BITBLOCKS: nat := SIZE / (BSIZE * 8) + 1
  /** usedblocks before any file: boot block, superblock, inode blocks, bitmap blocks. */
  const USEDBLOCKS: nat := NINODES / IPB + 3 + BITBLOCKS

  /** nblocks = (995 - LOGSIZE) + FREESPACE; LOGSIZE comes from param.h, which is not part of this model. */
  function NBlocks(logsize: nat): int
  {
    995 - logsize + FREESPACE
  }

  /** The layout checks of main all hold, whatever LOGSIZE is. */
  lemma LayoutChecks(logsize: nat)
    ensures BSIZE % DINODE_SIZE == 0 && BSIZE % DIRENT_SIZE == 0
    ensures NBlocks(logsize) + USEDBLOCKS + logsize == SIZE
  {
  }

  /**
   * The bitmap sector balloc writes is BBLOCK(0, ninodes); a single bitmap
   * block covers every block of the image, and the first data block is the
   * one right after it.
   */
  lemma OneBitmapBlock(b: nat)
    requires b < SIZE
    ensures NINODES / IPB + 3 == BBlock(0, NINODES) == BBlock(b, NINODES)
    ensures USEDBLOCKS == BBlock(0, NINODES) + 1
  {
  }

  /** The bitmap sector lies inside the image. */
  lemma BitmapInside()
    ensures Max(SIZE, BBlock(0, NINODES) + 1) == SIZE
  {
    OneBitmapBlock(0);
  }

  /** winode on the image: the sector of inode inum with the dinode's bytes spliced in. */
  function WithDinode(d: Disk, inum: nat, di: Dinode): Disk
    requires Shaped(di)
  {
    var n := IBlock(inum);
    d[n := Splice(Block(d, n), DinodeOffset(inum), EncodeDinode(di))]
  }

  /** It is the disk-level write of the dinode, so it reads back as itself. */
  lemma WithDinodeReadBack(d: Disk, inum: nat, di: Dinode)
    requires Shaped(di)
    ensures WithDinode(d, inum, di) == PutDinode(d, inum, di) && DinodeAt(WithDinode(d, inum, di), inum) == di
  {
    DinodeReadBack(d, inum, di);
  }

  // ------------------------------------------------------------ byte order

  /** xshort(x) as it lies in memory: a[0] = x, a[1] = x >> 8, each cut to a uchar. */
  function XShort(x: uint16): (y: seq<byte>)
    ensures |y| == 2
  {
    [x % 256, (x / 256) % 256]
  }

  /** xint(x) as it lies in memory: a[k] = x >> 8k cut to a uchar. */
  function XInt(x: uint32): (y: seq<byte>)
    ensures |y| == 4
  {
    [x % 256, (x / 256) % 256, (x / 0x1_0000) % 256, (x / 0x100_0000) % 256]
  }

  /** The value a host of the given byte order sees in two bytes of memory. */
  function HostShort(b: seq<byte>, little: bool): uint16
    requires |b| == 2
  {
    if little then GetLe16(b, 0) else GetBe16(b, 0)
  }

  /**
   * xshort lays x out little-endian whatever the host: its bytes are those
   * fs1 decodes, a little-endian host sees x itself and a big-endian host
   * sees byteswap16(x).
   */
  lemma XShortLittleEndian(x: uint16)
    ensures XShort(x) == Le16(x) && GetLe16(XShort(x), 0) == x
    ensures HostShort(XShort(x), true) == x && HostShort(XShort(x), false) == Platform.ByteSwap16(x)
  {
    Le16RoundTrip(XShort(x), 0, x);
  }

  /** xint lays x out little-endian: its bytes are those fs1 decodes as x. */
  lemma XIntLittleEndian(x: uint32)
    ensures XInt(x) == Le32(x) && GetLe32(XInt(x), 0) == x
  {
    Le32RoundTrip(XInt(x), 0, x);
  }

  /** i2b(inum) = inum / IPB + 2: the block fs1 reads the inode from. */
  function I2b(inum: nat): (b: nat)
    ensures b == IBlock(inum)
  {
    inum / IPB + 2
  }

  // ----------------------------------------------------------------- bitmap

  /** 2^m - 1: a byte with its m low bits set. */
  function Ones(m: nat): (v: byte)
    requires m <= 8
  {
    assert Pow2(8) == 256 by {
      assert Pow2(4) == 16;
    }
    PowMono(m, 8);
    Pow2(m) - 1
  }

  lemma {:induction false} PowMono(m: nat, n: nat)
    requires m <= n
    ensures Pow2(m) <= Pow2(n)
    decreases n
  {
    if m < n {
      PowMono(m, n - 1);
    }
  }

  lemma {:induction false} ZeroHasNoBits(k: nat)
    ensures !Bit(0, k)
  {
    if k > 0 {
      ZeroHasNoBits(k - 1);
    }
  }

  /** Bit k of 2^m - 1 is set exactly when k < m. */
  lemma {:induction false} OnesBits(m: nat, k: nat)
    ensures Bit(Pow2(m) - 1, k) <==> k < m
    decreases k
  {
    if m == 0 {
      ZeroHasNoBits(k);
    } else {
      var q: nat := Pow2(m - 1) - 1;
      assert Pow2(m) - 1 == 2 * q + 1;
      assert (2 * q + 1) % 2 == 1 && (2 * q + 1) / 2 == q;
      if k > 0 {
        OnesBits(m - 1, k - 1);
      }
    }
  }

  /** How many bits of bitmap byte j are set when the first used blocks are marked. */
  function BitsIn(used: int, j: nat): (m: nat)
    ensures m <= 8
  {
    if used <= 8 * j then 0 else if used >= 8 * j + 8 then 8 else used - 8 * j
  }

  /** The bitmap block balloc(used) writes: bits 0 .. used - 1 set, least significant bit first in each byte. */
  function Bitmap(used: int): (b: seq<byte>)
    ensures |b| == BSIZE
  {
    seq(BSIZE, j requires 0 <= j < BSIZE => Ones(BitsIn(used, j)))
  }

  /** The bit of block b in Bitmap(used) is set exactly when b < used. */
  lemma BitmapMarks(used: int, b: nat)
    requires b < BPB
    ensures Bit(Bitmap(used)[b / 8], b % 8) <==> b < used
  {
    OnesBits(BitsIn(used, b / 8), b % 8);
  }

  /** Marking block i of the first i + 1 is setting one more bit of Bitmap(i). */
  lemma BitmapStep(i: nat)
    requires i < BPB
    ensures Bitmap(i + 1) == Bitmap(i)[i / 8 := SetBit(Bitmap(i)[i / 8], i % 8)]
  {
    var j := i / 8;
    var v := Bitmap(i)[j];
    assert BitsIn(i, j) == i % 8 && BitsIn(i + 1, j) == i % 8 + 1;
    OnesBits(i % 8, i % 8);
    assert SetBit(v, i % 8) == Bitmap(i + 1)[j];
    forall q | 0 <= q < BSIZE && q != j
      ensures Bitmap(i + 1)[q] == Bitmap(i)[q]
    {
      assert BitsIn(i + 1, q) == BitsIn(i, q);
    }
  }

  // ---------------------------------------------------------------- inodes

  /** The dinode ialloc writes: zeroed, the given type, one link, size 0. */
  function NewDinode(kind: int16): (di: Dinode)
    ensures Shaped(di) && di.kind == kind && di.nlink == 1 && di.size == 0
    ensures forall k :: 0 <= k < NDIRECT + 1 ==> di.addrs[k] == 0
  {
    Dinode(kind, 0, 0, 1, 0, seq(NDIRECT + 1, _ => 0))
  }

  // -------------------------------------------------------------- iappend

  /** What iappend leaves: the image, the in-memory dinode, freeblock and the offset reached; or mkfs gave up. */
  datatype Append = Appended(disk: Disk, din: Dinode, fb: nat, off: nat) | AppendFails

  /** din.addrs[k] = xint(freeblock++): slot k takes block fb. */
  function Take(din: Dinode, k: nat, fb: nat): (r: Dinode)
    requires Shaped(din) && k < NDIRECT + 1
    ensures Shaped(r) && r.addrs[k] == fb % U32
  {
    din.(addrs := din.addrs[k := fb % U32])
  }

  /**
   * The loop of iappend from offset off with src still to copy: it stops
   * when nothing is left, and asserts that the block index stays below
   * MAXFILE.
   */
  function AppendFrom(d: Disk, nsect: nat, din: Dinode, fb: nat, off: nat, src: seq<byte>): (r: Append)
    requires Shaped(din)
    ensures r.Appended? ==> Shaped(r.din) && r.off == off + |src| && fb <= r.fb
    decreases |src|, 3
  {
    if |src| == 0 then Appended(d, din, fb, off)
    else if off / BSIZE >= MAXFILE then AppendFails
    else AppendMap(d, nsect, din, fb, off, src)
  }

  /** Where the round copies to: block x, after the allocations that took; or rsect gave up. */
  datatype Located = Located(disk: Disk, din: Dinode, fb: nat, x: nat) | LocateFails

  /**
   * The block of the round: a direct slot, allocated if it is 0, or an entry
   * of the indirect block, allocating the indirect block and then the
   * entry's block as needed; rsect of the indirect block past the end of
   * the image gives up.
   */
  function Locate(d: Disk, nsect: nat, din: Dinode, fb: nat, fbn: nat): (r: Located)
    requires Shaped(din) && fbn < MAXFILE
    ensures r.Located? ==> Shaped(r.din) && fb <= r.fb
  {
    if fbn < NDIRECT then LocateSlot(d, din, fb, fbn)
    else LocateIndirect(d, nsect, Indirect(din, fb), IndirectFb(din, fb), fbn - NDIRECT)
  }

  /** Direct slot fbn, taking fb when it is 0. */
  function LocateSlot(d: Disk, din: Dinode, fb: nat, fbn: nat): (r: Located)
    requires Shaped(din) && fbn < NDIRECT
    ensures r.Located? && Shaped(r.din) && r.disk == d
  {
    if din.addrs[fbn] == 0 then Located(d, Take(din, fbn, fb), fb + 1, fb % U32)
    else Located(d, din, fb, din.addrs[fbn])
  }

  /** The dinode once its indirect block is allocated: slot NDIRECT takes fb when it is 0. */
  function Indirect(din: Dinode, fb: nat): (r: Dinode)
    requires Shaped(din)
    ensures Shaped(r)
  {
    if din.addrs[NDIRECT] == 0 then Take(din, NDIRECT, fb) else din
  }

  /** freeblock once the indirect block is allocated. */
  function IndirectFb(din: Dinode, fb: nat): nat
    requires Shaped(din)
  {
    if din.addrs[NDIRECT] == 0 then fb + 1 else fb
  }

  /** Entry e of the indirect block din.addrs[NDIRECT], allocated if it is 0. */
  function LocateIndirect(d: Disk, nsect: nat, din: Dinode, fb: nat, e: nat): (r: Located)
    requires Shaped(din) && e < NINDIRECT
    ensures r.Located? ==> r.din == din && fb <= r.fb
  {
    var ind := din.addrs[NDIRECT];
    if ind >= nsect then LocateFails
    else
      var blk := Block(d, ind);
      if Entry(blk, e) == 0 then Located(d[ind := SetEntry(blk, e, fb % U32)], din, fb + 1, fb % U32)
      else Located(d, din, fb, Entry(blk, e))
  }

  /** The round: locate the block of off, as Locate does, then copy into it. */
  function AppendMap(d: Disk, nsect: nat, din: Dinode, fb: nat, off: nat, src: seq<byte>): (r: Append)
    requires Shaped(din) && 0 < |src| && off / BSIZE < MAXFILE
    ensures r.Appended? ==> Shaped(r.din) && r.off == off + |src| && fb <= r.fb
    decreases |src|, 2
  {
    if off / BSIZE < NDIRECT then AppendAt(LocateSlot(d, din, fb, off / BSIZE), nsect, off, src)
    else AppendIndirect(d, nsect, din, fb, off, src)
  }

  /** A round past the direct blocks. */
  function AppendIndirect(d: Disk, nsect: nat, din: Dinode, fb: nat, off: nat, src: seq<byte>): (r: Append)
    requires Shaped(din) && 0 < |src| && NDIRECT <= off / BSIZE < MAXFILE
    ensures r.Appended? ==> Shaped(r.din) && r.off == off + |src| && fb <= r.fb
    decreases |src|, 1
  {
    AppendAt(LocateIndirect(d, nsect, Indirect(din, fb), IndirectFb(din, fb), off / BSIZE - NDIRECT), nsect, off, src)
  }

  /** The copy of the round: min(n, (fbn + 1) * 512 - off) bytes into the block located, read and written back whole. */
  function AppendAt(loc: Located, nsect: nat, off: nat, src: seq<byte>): (r: Append)
    requires 0 < |src| && (loc.Located? ==> Shaped(loc.din))
    ensures r.Appended? ==> loc.Located? && Shaped(r.din) && r.off == off + |src| && loc.fb <= r.fb
    decreases |src|, 0
  {
    match loc
    case LocateFails => AppendFails
    case Located(d, din, fb, x) =>
      var n1 := Min(|src|, (off / BSIZE + 1) * BSIZE - off);
      if x >= nsect then AppendFails
      else AppendFrom(Copy(d, x, off % BSIZE, src[..n1]), nsect, din, fb, off + n1, src[n1..])
  }

  /** rsect(x, buf), bcopy of t to buf + at, wsect(x, buf). */
  function Copy(d: Disk, x: nat, at: nat, t: seq<byte>): Disk
    requires at + |t| <= BSIZE
  {
    d[x := Splice(Block(d, x), at, t)]
  }

  /**
   * iappend(inum, p, n) as a whole: rinode, the loop over the n bytes of p,
   * then din.size = off and winode.
   */
  function Appending(d: Disk, nsect: nat, inum: nat, fb: nat, src: seq<byte>): (r: Append)
    ensures r.Appended? ==> Shaped(r.din) && r.din.size == r.off == DinodeAt(d, inum).size + |src| && fb <= r.fb
  {
    var din := DinodeAt(d, inum);
    if I2b(inum) >= nsect then AppendFails
    else
      match AppendFrom(d, nsect, din, fb, din.size, src)
      case AppendFails => AppendFails
      case Appended(d1, din1, fb1, off1) =>
        if off1 >= U32 then AppendFails
        else Appended(WithDinode(d1, inum, din1.(size := off1)), din1.(size := off1), fb1, off1)
  }

  /** The blocks a file of size bytes spans: size rounded up to whole blocks. */
  function Blocks(size: nat): (m: nat)
    ensures (m - 1) * BSIZE < size <= m * BSIZE || (size == 0 && m == 0)
  {
    (size + BSIZE - 1) / BSIZE
  }

  /** A size inside block f spans f + 1 blocks; a size on the start of block f spans f. */
  lemma BlocksAt(size: nat, f: nat)
    ensures f * BSIZE < size <= (f + 1) * BSIZE ==> Blocks(size) == f + 1
    ensures size == f * BSIZE ==> Blocks(size) == f
  {
  }

  /** The winode at the end of iappend stores the dinode of the loop with its size grown by n. */
  lemma IappendGrows(d: Disk, nsect: nat, inum: nat, fb: nat, src: seq<byte>)
    ensures var r := Appending(d, nsect, inum, fb, src);
      r.Appended? ==> DinodeAt(r.disk, inum) == r.din && r.din.size == DinodeAt(d, inum).size + |src|
  {
    var r := Appending(d, nsect, inum, fb, src);
    if r.Appended? {
      var din := DinodeAt(d, inum);
      var a := AppendFrom(d, nsect, din, fb, din.size, src);
      WithDinodeReadBack(a.disk, inum, a.din.(size := a.off));
    }
  }

  /** The block off falls in, and how many blocks a file of off bytes spans. */
  lemma BlockOf(off: nat)
    ensures (off / BSIZE) * BSIZE <= off < (off / BSIZE + 1) * BSIZE && off % BSIZE == off - (off / BSIZE) * BSIZE
    ensures Blocks(off) == if off % BSIZE == 0 then off / BSIZE else off / BSIZE + 1
  {
    var f := off / BSIZE;
    assert off == f * BSIZE + off % BSIZE;
    BlocksAt(off, f);
  }

  /** Facts of a file that stays within the direct blocks and whose first b slots are exactly its nonzero ones. */
  predicate DirectPrefix(din: Dinode, b: nat, nsect: nat)
    requires Shaped(din)
  {
    forall k :: 0 <= k < NDIRECT ==> (din.addrs[k] == 0 <==> k >= b) && din.addrs[k] < nsect
  }

  /** The arithmetic of a round that copies the first n1 of len bytes at off, within block fbn. */
  lemma DirectArith(off: nat, len: nat) returns (fbn: nat, n1: nat)
    requires 0 < len
    ensures fbn == off / BSIZE && n1 == Min(len, (fbn + 1) * BSIZE - off)
    ensures 0 < n1 <= len && fbn * BSIZE <= off && Blocks(off + n1) == fbn + 1 <= Blocks(off + len)
    ensures Blocks(off) == if off % BSIZE == 0 then fbn else fbn + 1
  {
    fbn := off / BSIZE;
    n1 := Min(len, (fbn + 1) * BSIZE - off);
    BlockOf(off);
    BlocksAt(off + n1, fbn);
    BlockOf(off + len);
  }

  /** addrs with slots b0 .. b - 1 holding fb, fb + 1, ... */
  function Filled(addrs: seq<uint32>, b0: nat, b: nat, fb: nat): (r: seq<uint32>)
    requires b0 <= b && fb + (b - b0) <= U32
    ensures |r| == |addrs| && forall k :: 0 <= k < |addrs| ==> r[k] == if b0 <= k < b then fb + k - b0 else addrs[k]
  {
    seq(|addrs|, k requires 0 <= k < |addrs| => if b0 <= k < b then fb + k - b0 else addrs[k])
  }

  /** Filling from b0 is taking fb for slot b0, then filling from b0 + 1 with fb + 1. */
  lemma FilledStep(din: Dinode, b0: nat, b: nat, fb: nat)
    requires Shaped(din) && b0 < b && b0 < NDIRECT && fb + (b - b0) <= U32
    ensures Filled(Take(din, b0, fb).addrs, b0 + 1, b, fb + 1) == Filled(din.addrs, b0, b, fb)
  {
    assert fb % U32 == fb;
  }

  /** Taking fb, a block of the image, for slot b extends the prefix of taken slots by one. */
  lemma TakePrefix(din: Dinode, b: nat, nsect: nat, fb: nat)
    requires Shaped(din) && b < NDIRECT && DirectPrefix(din, b, nsect) && 0 < fb < nsect && fb < U32
    ensures DirectPrefix(Take(din, b, fb), b + 1, nsect)
  {
    var din1 := Take(din, b, fb);
    forall k | 0 <= k < NDIRECT
      ensures (din1.addrs[k] == 0 <==> k >= b + 1) && din1.addrs[k] < nsect
    {
      if k != b {
        assert din1.addrs[k] == din.addrs[k];
      }
    }
  }

  /** A round within the direct blocks copies into the slot of off. */
  lemma DirectAt(d: Disk, nsect: nat, din: Dinode, fb: nat, off: nat, src: seq<byte>)
    requires Shaped(din) && 0 < |src| && off / BSIZE < NDIRECT
    ensures AppendFrom(d, nsect, din, fb, off, src) == AppendAt(LocateSlot(d, din, fb, off / BSIZE), nsect, off, src)
  {
    assert AppendFrom(d, nsect, din, fb, off, src) == AppendMap(d, nsect, din, fb, off, src);
  }

  /** r is what the loop of iappend yields from this state. */
  predicate Yields(d: Disk, nsect: nat, din: Dinode, fb: nat, off: nat, src: seq<byte>, r: Append)
    requires Shaped(din)
  {
    r == AppendFrom(d, nsect, din, fb, off, src)
  }

  /** A direct slot that is 0 takes block fb. */
  lemma FreshSlot(d: Disk, din: Dinode, fb: nat, k: nat) returns (loc: Located)
    requires Shaped(din) && k < NDIRECT && din.addrs[k] == 0 && fb < U32
    ensures loc == LocateSlot(d, din, fb, k)
    ensures loc == Located(d, Take(din, k, fb), fb + 1, fb) && loc.din == din.(addrs := din.addrs[k := fb])
  {
    Small(fb);
    loc := LocateSlot(d, din, fb, k);
  }

  /** A direct slot already taken is where the round copies to. */
  lemma TakenSlot(d: Disk, din: Dinode, fb: nat, k: nat) returns (loc: Located)
    requires Shaped(din) && k < NDIRECT && din.addrs[k] != 0
    ensures loc == LocateSlot(d, din, fb, k) && loc == Located(d, din, fb, din.addrs[k])
  {
    loc := LocateSlot(d, din, fb, k);
  }

  /** A round in a direct block already taken copies into it. */
  lemma TakenRound(d: Disk, nsect: nat, din: Dinode, fb: nat, off: nat, src: seq<byte>, r: Append) returns (d1: Disk, n1: nat)
    requires Shaped(din) && 0 < |src| && off + |src| <= NDIRECT * BSIZE && DirectPrefix(din, Blocks(off), nsect)
    requires Yields(d, nsect, din, fb, off, src, r) && off % BSIZE != 0
    ensures 0 < n1 <= |src| && Blocks(off + n1) == Blocks(off) && off + n1 + |src[n1..]| == off + |src|
    ensures Yields(d1, nsect, din, fb, off + n1, src[n1..], r)
  {
    var fbn;
    fbn, n1 := DirectArith(off, |src|);
    assert fbn < NDIRECT && fbn < Blocks(off);
    assert din.addrs[fbn] != 0 && din.addrs[fbn] < nsect;
    var loc := TakenSlot(d, din, fb, fbn);
    DirectAt(d, nsect, din, fb, off, src);
    assert r == AppendAt(loc, nsect, off, src);
    d1 := AtStep(loc, nsect, off, src);
  }

  /** A round that starts direct block fbn takes fb for it and copies into it. */
  lemma FreshRound(d: Disk, nsect: nat, din: Dinode, fb: nat, off: nat, src: seq<byte>, r: Append) returns (d1: Disk, n1: nat)
    requires Shaped(din) && 0 < |src| && off + |src| <= NDIRECT * BSIZE && DirectPrefix(din, Blocks(off), nsect)
    requires Yields(d, nsect, din, fb, off, src, r) && off % BSIZE == 0 && fb < nsect && fb < U32
    ensures 0 < n1 <= |src| && off + n1 + |src[n1..]| == off + |src|
    ensures Blocks(off) == off / BSIZE && Blocks(off + n1) == Blocks(off) + 1 <= Blocks(off + |src|)
    ensures Yields(d1, nsect, Take(din, off / BSIZE, fb), fb + 1, off + n1, src[n1..], r)
  {
    var fbn;
    fbn, n1 := DirectArith(off, |src|);
    DirectAt(d, nsect, din, fb, off, src);
    assert fb % U32 == fb;
    d1 := AtStep(Located(d, Take(din, fbn, fb), fb + 1, fb), nsect, off, src);
  }

  /** Every round is the copy into the block Locate finds. */
  lemma RoundLocated(d: Disk, nsect: nat, din: Dinode, fb: nat, off: nat, src: seq<byte>)
    requires Shaped(din) && 0 < |src| && off / BSIZE < MAXFILE
    ensures AppendFrom(d, nsect, din, fb, off, src) == AppendAt(Locate(d, nsect, din, fb, off / BSIZE), nsect, off, src)
  {
    if off / BSIZE >= NDIRECT {
      assert AppendFrom(d, nsect, din, fb, off, src) == AppendIndirect(d, nsect, din, fb, off, src);
    }
  }

  /** A round whose block lies in the image copies into it and carries on from the end of the copy. */
  lemma AtStep(loc: Located, nsect: nat, off: nat, src: seq<byte>) returns (d1: Disk)
    requires loc.Located? && Shaped(loc.din) && 0 < |src| && loc.x < nsect
    ensures var n1 := Min(|src|, (off / BSIZE + 1) * BSIZE - off);
      d1 == Copy(loc.disk, loc.x, off % BSIZE, src[..n1]) &&
      AppendAt(loc, nsect, off, src) == AppendFrom(d1, nsect, loc.din, loc.fb, off + n1, src[n1..])
  {
    var n1 := Min(|src|, (off / BSIZE + 1) * BSIZE - off);
    d1 := Copy(loc.disk, loc.x, off % BSIZE, src[..n1]);
  }

  /**
   * Appending to a file that stays within the direct blocks, whose first
   * Blocks(off) slots are taken and the rest 0: the slots from Blocks(off)
   * on take fb, fb + 1, ... in order, one per block begun, and no other
   * slot changes.
   */
  lemma {:induction false} AppendDirect(d: Disk, nsect: nat, din: Dinode, fb: nat, off: nat, src: seq<byte>, r: Append)
    requires Shaped(din) && off + |src| <= NDIRECT * BSIZE && DirectPrefix(din, Blocks(off), nsect)
    requires 0 < fb && fb + Blocks(off + |src|) - Blocks(off) <= nsect && fb + Blocks(off + |src|) - Blocks(off) <= U32
    requires Yields(d, nsect, din, fb, off, src, r)
    ensures Blocks(off) <= Blocks(off + |src|)
    ensures r.Appended? && r.fb == fb + Blocks(off + |src|) - Blocks(off) &&
      r.din.addrs == Filled(din.addrs, Blocks(off), Blocks(off + |src|), fb)
    decreases |src|, 1
  {
    if |src| == 0 {
      return;
    }
    if off % BSIZE == 0 {
      AppendFresh(d, nsect, din, fb, off, src, r);
    } else {
      var d1, n1 := TakenRound(d, nsect, din, fb, off, src, r);
      AppendDirect(d1, nsect, din, fb, off + n1, src[n1..], r);
    }
  }

  /** The case of AppendDirect where off starts a block: its slot takes fb. */
  lemma {:induction false} AppendFresh(d: Disk, nsect: nat, din: Dinode, fb: nat, off: nat, src: seq<byte>, r: Append)
    requires Shaped(din) && off + |src| <= NDIRECT * BSIZE && DirectPrefix(din, Blocks(off), nsect)
    requires 0 < fb && fb + Blocks(off + |src|) - Blocks(off) <= nsect && fb + Blocks(off + |src|) - Blocks(off) <= U32
    requires Yields(d, nsect, din, fb, off, src, r) && 0 < |src| && off % BSIZE == 0
    ensures Blocks(off) <= Blocks(off + |src|)
    ensures r.Appended? && r.fb == fb + Blocks(off + |src|) - Blocks(off) &&
      r.din.addrs == Filled(din.addrs, Blocks(off), Blocks(off + |src|), fb)
    decreases |src|, 0
  {
    var b0, b := Blocks(off), Blocks(off + |src|);
    BlocksAt(off + |src|, b0);
    assert fb < nsect && fb < U32;
    var d1, n1 := FreshRound(d, nsect, din, fb, off, src, r);
    var din1 := Take(din, b0, fb);
    TakePrefix(din, b0, nsect, fb);
    AppendDirect(d1, nsect, din1, fb + 1, off + n1, src[n1..], r);
    FilledStep(din, b0, b, fb);
  }

  /**
   * The first append past the direct blocks takes fb for the indirect block
   * and fb + 1 for its entry 0, and records fb + 1 in that entry.
   */
  lemma IndirectFirst(d: Disk, nsect: nat, din: Dinode, fb: nat)
    requires Shaped(din) && din.addrs[NDIRECT] == 0 && fb < nsect && fb + 2 <= U32
    requires Entry(Block(d, fb), 0) == 0
    ensures var r := Locate(d, nsect, din, fb, NDIRECT);
      r.Located? && r.din.addrs[NDIRECT] == fb && r.x == fb + 1 && r.fb == fb + 2 &&
      Entry(Block(r.disk, fb), 0) == fb + 1
  {
    var din1 := Take(din, NDIRECT, fb);
    assert fb % U32 == fb && (fb + 1) % U32 == fb + 1;
    assert Indirect(din, fb) == din1 && IndirectFb(din, fb) == fb + 1;
    var blk := SetEntry(Block(d, fb), 0, fb + 1);
    assert LocateIndirect(d, nsect, din1, fb + 1, 0) == Located(d[fb := blk], din1, fb + 2, fb + 1);
    assert Block(d[fb := blk], fb) == blk;
    SetEntryReadBack(Block(d, fb), 0, fb + 1, 0);
  }

  // ---------------------------------------------------------------- mkdir

  /** A name as strcpy leaves it in a zeroed name field. */
  function Padded(name: seq<char>): (f: seq<char>)
    requires |name| <= DIRSIZ
    ensures |f| == DIRSIZ && f[..|name|] == name
  {
    name + seq(DIRSIZ - |name|, _ => '\0')
  }

  /** The 16 bytes of de after bzero(&de), de.inum = xshort(inum), strcpy(de.name, name). */
  function DirEntry(inum: nat, name: seq<char>): (e: seq<byte>)
    requires |name| <= DIRSIZ
    ensures |e| == DIRENT_SIZE
  {
    EncodeDirent(Dirent(inum % U16, Padded(name)))
  }

  /** The entries of a name made of 8-bit characters read back as written. */
  lemma DirEntryReadBack(inum: nat, name: seq<char>)
    requires |name| <= DIRSIZ && forall k :: 0 <= k < |name| ==> name[k] as int < 256
    ensures DecodeDirent(DirEntry(inum, name)) == Dirent(inum % U16, Padded(name))
  {
    var f := Padded(name);
    forall k | 0 <= k < DIRSIZ
      ensures f[k] as int < 256
    {
      if k < |name| {
        assert f[k] == f[..|name|][k] == name[k];
      }
    }
    DirentRoundTrip(Dirent(inum % U16, f));
  }

  /** What a sequence of iappend calls leaves: the image and freeblock; or mkfs exited. */
  datatype Image = Image(disk: Disk, fb: nat) | Aborted

  /** iappend(inum, e, 16) on an image, as Appending describes it. */
  function Link(r: Image, nsect: nat, inum: nat, e: seq<byte>): Image
  {
    match r
    case Aborted => Aborted
    case Image(d, fb) =>
      match Appending(d, nsect, inum, fb, e)
      case AppendFails => Aborted
      case Appended(d1, _, fb1, _) => Image(d1, fb1)
  }

  /** Inode inum of d reads as din. */
  predicate HoldsInode(d: Disk, inum: nat, din: Dinode)
  {
    DinodeAt(d, inum) == din
  }

  /** r1 is what iappend of e to inum leaves of r. */
  predicate Links(r: Image, nsect: nat, inum: nat, e: seq<byte>, r1: Image)
  {
    r1 == Link(r, nsect, inum, e)
  }

  /** The "." and ".." entries of a new directory ino whose parent is parent. */
  function Dots(d: Disk, nsect: nat, ino: nat, parent: nat, fb: nat): Image
  {
    Link(Link(Image(d, fb), nsect, ino, DirEntry(ino, ".")), nsect, ino, DirEntry(parent, ".."))
  }

  /**
   * mkdir(dirname, parentdir) with ino the inode ialloc hands out: ialloc,
   * the entry for ino in the parent, then "." and "..".
   */
  function Mkdir(d: Disk, nsect: nat, ino: nat, parent: nat, fb: nat, name: seq<char>): Image
    requires |name| <= DIRSIZ
  {
    if I2b(ino) >= nsect then Aborted
    else
      match Link(Image(WithDinode(d, ino, NewDinode(T_DIR)), fb), nsect, parent, DirEntry(ino, name))
      case Aborted => Aborted
      case Image(d1, fb1) => Dots(d1, nsect, ino, parent, fb1)
  }

  /**
   * One entry of 16 bytes appended within a direct block: it goes into the
   * slot of off, taken first when it is 0, at off % BSIZE.
   */
  lemma AppendEntry(d: Disk, nsect: nat, din: Dinode, fb: nat, off: nat, e: seq<byte>, loc: Located, a: Append)
    requires Shaped(din) && |e| == DIRENT_SIZE && off / BSIZE < NDIRECT && off % BSIZE + DIRENT_SIZE <= BSIZE
    requires din.addrs[off / BSIZE] == 0 ==> fb < nsect && fb < U32
    requires din.addrs[off / BSIZE] != 0 ==> din.addrs[off / BSIZE] < nsect
    requires loc == LocateSlot(d, din, fb, off / BSIZE)
    requires a == Appended(Copy(d, loc.x, off % BSIZE, e), loc.din, loc.fb, off + DIRENT_SIZE)
    ensures Yields(d, nsect, din, fb, off, e, a)
  {
    assert loc.x < nsect by {
      if din.addrs[off / BSIZE] == 0 {
        assert fb % U32 == fb;
      }
    }
    DirectAt(d, nsect, din, fb, off, e);
    BlockOf(off);
    assert Min(|e|, (off / BSIZE + 1) * BSIZE - off) == DIRENT_SIZE;
    var d1 := AtStep(loc, nsect, off, e);
    assert e[..DIRENT_SIZE] == e && e[DIRENT_SIZE..] == [];
  }


  /** One iappend whose loop yields a, as Link states it. */
  lemma LinkStep(d: Disk, nsect: nat, ino: nat, din: Dinode, fb: nat, e: seq<byte>, a: Append, din1: Dinode, r: Image)
    requires I2b(ino) < nsect && HoldsInode(d, ino, din) && Yields(d, nsect, din, fb, din.size, e, a)
    requires a.Appended? && a.off < U32 && din1 == a.din.(size := a.off) && r == Image(WithDinode(a.disk, ino, din1), a.fb)
    ensures Links(Image(d, fb), nsect, ino, e, r)
  {
  }

  /**
   * The "." and ".." entries of a fresh directory: its first block is fb,
   * the next free block, and holds the two entries at offsets 0 and 16;
   * the directory is 32 bytes long.
   */
  lemma DotsWritten(d: Disk, nsect: nat, ino: nat, parent: nat, fb: nat)
    requires DinodeAt(d, ino) == NewDinode(T_DIR) && I2b(ino) < nsect
    requires 0 < fb < nsect && fb < U32 && fb != IBlock(ino)
    ensures var r := Dots(d, nsect, ino, parent, fb);
      r.Image? && r.fb == fb + 1 &&
      DinodeAt(r.disk, ino).size == 2 * DIRENT_SIZE && DinodeAt(r.disk, ino).addrs[0] == fb &&
      Block(r.disk, fb)[0..DIRENT_SIZE] == DirEntry(ino, ".") &&
      Block(r.disk, fb)[DIRENT_SIZE..2 * DIRENT_SIZE] == DirEntry(parent, "..")
  {
    var e1, e2 := DirEntry(ino, "."), DirEntry(parent, "..");
    var din0 := NewDinode(T_DIR);
    var din1 := din0.(addrs := din0.addrs[0 := fb], size := DIRENT_SIZE);
    var c1 := Copy(d, fb, 0, e1);
    var d1 := WithDinode(c1, ino, din1);
    FirstDot(d, nsect, ino, din0, fb, e1, d1, din1);
    WithDinodeReadBack(c1, ino, din1);
    var din2 := din1.(size := 2 * DIRENT_SIZE);
    var c2 := Copy(d1, fb, DIRENT_SIZE, e2);
    var d2 := WithDinode(c2, ino, din2);
    SecondDot(d1, nsect, ino, fb, e2, din1, d2, din2);
    WithDinodeReadBack(c2, ino, din2);
    DotsBlock(d, fb, ino, e1, e2, c1, d1, c2, d2, din1, din2);
  }

  /** A block number below 2^32 is its own uint32. */
  lemma Small(x: nat)
    requires x < U32
    ensures x % U32 == x
  {
  }

  /** The "." entry of a fresh directory takes block fb and makes it 16 bytes long. */
  lemma FirstDot(d: Disk, nsect: nat, ino: nat, din0: Dinode, fb: nat, e1: seq<byte>, d1: Disk, din1: Dinode)
    requires HoldsInode(d, ino, din0) && Shaped(din0) && din0.size == 0 && din0.addrs[0] == 0 && I2b(ino) < nsect
    requires 0 < fb < nsect && fb < U32 && |e1| == DIRENT_SIZE
    requires din1 == din0.(addrs := din0.addrs[0 := fb], size := DIRENT_SIZE)
    requires d1 == WithDinode(Copy(d, fb, 0, e1), ino, din1)
    ensures Links(Image(d, fb), nsect, ino, e1, Image(d1, fb + 1))
  {
    var a := FirstAppend(d, nsect, din0, fb, e1);
    LinkStep(d, nsect, ino, din0, fb, e1, a, din1, Image(d1, fb + 1));
  }

  /** The loop of iappend for "." at offset 0: slot 0 takes block fb and the entry is copied to its start. */
  lemma FirstAppend(d: Disk, nsect: nat, din0: Dinode, fb: nat, e1: seq<byte>) returns (a: Append)
    requires Shaped(din0) && din0.size == 0 && din0.addrs[0] == 0 && 0 < fb < nsect && fb < U32 && |e1| == DIRENT_SIZE
    ensures Yields(d, nsect, din0, fb, din0.size, e1, a)
    ensures a == Appended(Copy(d, fb, 0, e1), din0.(addrs := din0.addrs[0 := fb]), fb + 1, DIRENT_SIZE)
  {
    var loc := FreshSlot(d, din0, fb, 0);
    a := Appended(Copy(d, fb, 0, e1), loc.din, fb + 1, DIRENT_SIZE);
    AppendEntry(d, nsect, din0, fb, 0, e1, loc, a);
  }

  /** A direct slot 0 that already holds fb is where the next round copies to, and nothing is taken. */
  lemma FilledSlot(d: Disk, din: Dinode, fb: nat)
    requires Shaped(din) && din.addrs[0] == fb && 0 < fb
    ensures LocateSlot(d, din, fb + 1, 0) == Located(d, din, fb + 1, fb)
  {
  }

  /** The loop of iappend for ".." at offset 16: a copy into block fb at byte 16, no allocation. */
  lemma SecondAppend(d1: Disk, nsect: nat, din1: Dinode, fb: nat, e2: seq<byte>) returns (a: Append)
    requires Shaped(din1) && din1.size == DIRENT_SIZE && din1.addrs[0] == fb && 0 < fb < nsect && |e2| == DIRENT_SIZE
    ensures Yields(d1, nsect, din1, fb + 1, din1.size, e2, a)
    ensures a == Appended(Copy(d1, fb, DIRENT_SIZE, e2), din1, fb + 1, 2 * DIRENT_SIZE)
  {
    var loc := LocateSlot(d1, din1, fb + 1, 0);
    FilledSlot(d1, din1, fb);
    assert DIRENT_SIZE / BSIZE == 0 && DIRENT_SIZE % BSIZE == DIRENT_SIZE;
    a := Appended(Copy(d1, fb, DIRENT_SIZE, e2), din1, fb + 1, 2 * DIRENT_SIZE);
    AppendEntry(d1, nsect, din1, fb + 1, DIRENT_SIZE, e2, loc, a);
  }

  /** The ".." entry goes after ".", in the same block, and makes the directory 32 bytes long. */
  lemma SecondDot(d1: Disk, nsect: nat, ino: nat, fb: nat, e2: seq<byte>, din1: Dinode, d2: Disk, din2: Dinode)
    requires HoldsInode(d1, ino, din1) && Shaped(din1) && din1.size == DIRENT_SIZE && din1.addrs[0] == fb
    requires 0 < fb < nsect && I2b(ino) < nsect && |e2| == DIRENT_SIZE
    requires din2 == din1.(size := 2 * DIRENT_SIZE) && d2 == WithDinode(Copy(d1, fb, DIRENT_SIZE, e2), ino, din2)
    ensures Links(Image(d1, fb + 1), nsect, ino, e2, Image(d2, fb + 1))
  {
    var a := SecondAppend(d1, nsect, din1, fb, e2);
    LinkStep(d1, nsect, ino, din1, fb + 1, e2, a, din2, Image(d2, fb + 1));
  }

  /** The block the two entries go to, through the two copies and the two winodes. */
  lemma DotsBlock(d: Disk, fb: nat, ino: nat, e1: seq<byte>, e2: seq<byte>, c1: Disk, d1: Disk, c2: Disk, d2: Disk, din1: Dinode, din2: Dinode)
    requires |e1| == |e2| == DIRENT_SIZE && fb != IBlock(ino) && Shaped(din1) && Shaped(din2)
    requires c1 == Copy(d, fb, 0, e1) && d1 == WithDinode(c1, ino, din1)
    requires c2 == Copy(d1, fb, DIRENT_SIZE, e2) && d2 == WithDinode(c2, ino, din2)
    ensures Block(d2, fb)[0..DIRENT_SIZE] == e1 && Block(d2, fb)[DIRENT_SIZE..2 * DIRENT_SIZE] == e2
  {
    var b1 := Splice(Block(d, fb), 0, e1);
    assert Block(c1, fb) == b1;
    assert Block(d1, fb) == b1;
    var b2 := Splice(b1, DIRENT_SIZE, e2);
    assert Block(c2, fb) == b2;
    assert Block(d2, fb) == b2;
    assert b2[0..DIRENT_SIZE] == b1[0..DIRENT_SIZE];
  }

  // ----------------------------------------------------------------- images

  // ---------------------------------------------------------------- main

  /** The superblock main fills in: size, nblocks, ninodes and nlog, each stored as a uint. */
  function SbOf(logsize: nat): Superblock
  {
    Superblock(SIZE % U32, NBlocks(logsize) % U32, NINODES % U32, logsize % U32)
  }

  /** Sector 1 as main writes it: the superblock at the start of a zeroed buffer. */
  function SbSector(logsize: nat): (b: seq<byte>)
    ensures |b| == BSIZE
  {
    EncodeSb(SbOf(logsize)) + Zeros(BSIZE - SB_SIZE)
  }

  /** The superblock sector reads back as the layout main computed. */
  lemma SbSectorReadBack(d: Disk, logsize: nat)
    ensures Sb(d[1 := SbSector(logsize)]) == SbOf(logsize)
  {
    var d1 := d[1 := SbSector(logsize)];
    assert Block(d1, 1) == SbSector(logsize);
    SbRoundTrip(SbOf(logsize), Zeros(BSIZE - SB_SIZE));
  }

  /** The fields of that superblock add up: size = nblocks + usedblocks + nlog, with 200 inodes. */
  lemma SbOfAddsUp(logsize: nat)
    requires logsize <= 995 + FREESPACE
    ensures var sb := SbOf(logsize);
      sb.size as int == sb.nblocks as int + USEDBLOCKS + sb.nlog as int == SIZE && sb.ninodes as int == NINODES
  {
    LayoutChecks(logsize);
    assert NBlocks(logsize) % U32 == NBlocks(logsize);
    assert logsize % U32 == logsize;
  }

  /** The image after the zeroing loop of main: sectors 0 .. n - 1, each zero. */
  function ZeroImage(n: nat): (d: Disk)
    ensures forall k :: k in d ==> k < n && d[k] == Zeros(BSIZE)
  {
    if n == 0 then map[] else ZeroImage(n - 1)[n - 1 := Zeros(BSIZE)]
  }

  /**
   * The size rounding main applies to the bin and root directories:
   * off = ((off / BSIZE) + 1) * BSIZE, in uint arithmetic.
   */
  function RoundedSize(off: uint32): uint32
  {
    ((off as int / BSIZE + 1) * BSIZE) % U32
  }

  /**
   * The rounded size is the end of the block that holds offset off: a
   * multiple of BSIZE, past off by at most BSIZE, so that a size already on
   * a block boundary grows by a whole block more than it spans; only a size
   * in the last block below 2^32 wraps to 0. That extra block is never
   * allocated, so a directory whose entries fill its last block exactly
   * leaves mkfs with a hole below its size, which the next entry linked
   * into it is written to.
   */
  lemma RoundedSizeEnds(off: uint32)
    ensures var r := RoundedSize(off) as int;
      if off as int < U32 - BSIZE then
        r % BSIZE == 0 && off as int < r <= off as int + BSIZE && Blocks(r) == off as int / BSIZE + 1 &&
        Blocks(r) == Blocks(off as int) + (if off as int % BSIZE == 0 then 1 else 0)
      else r == 0
  {
    var f := off as int / BSIZE;
    BlockOf(off as int);
    if off as int < U32 - BSIZE {
      assert (f + 1) * BSIZE < U32;
      BlocksAt((f + 1) * BSIZE, f);
    } else {
      assert (f + 1) * BSIZE == U32;
    }
  }

  /**
   * The state mkfs keeps in globals while it builds the image: the image
   * file, the next block to hand out (freeblock), the count of blocks in
   * use (usedblocks) and the next inode number (freeinode).
   */
  class Builder {
    var img: Disk
    var nsect: nat
    var freeblock: nat
    var usedblocks: nat
    var freeinode: nat

    /** Every sector of the image file holds BSIZE bytes and lies inside it. */
    predicate Valid()
      reads this
    {
      forall n :: n in img ==> n < nsect && |img[n]| == BSIZE
    }

    /** The globals at program start: an empty image, freeinode = 1. */
    constructor ()
      ensures Valid() && img == map[] && nsect == 0
      ensures freeblock == 0 && usedblocks == 0 && freeinode == 1
    {
      img := map[];
      nsect := 0;
      freeblock := 0;
      usedblocks := 0;
      freeinode := 1;
    }

    /** wsect(sec, buf): the sector is rewritten; a write past the end extends the file. */
    method Wsect(sec: nat, buf: seq<byte>)
      requires Valid() && |buf| == BSIZE
      modifies this
      ensures Valid() && img == old(img)[sec := buf] && nsect == Max(old(nsect), sec + 1)
      ensures freeblock == old(freeblock) && usedblocks == old(usedblocks) && freeinode == old(freeinode)
    {
      img := img[sec := buf];
      nsect := Max(nsect, sec + 1);
    }

    /** rsect(sec): the sector's bytes (zero in a hole); past the end of the file mkfs gives up. */
    method Rsect(sec: nat) returns (buf: seq<byte>, ok: bool)
      requires Valid()
      ensures ok == (sec < nsect) && |buf| == BSIZE
      ensures ok ==> buf == Block(img, sec)
    {
      ok := sec < nsect;
      buf := Block(img, sec);
    }

    /** rinode(inum): dinode inum % IPB of sector i2b(inum). */
    method Rinode(inum: nat) returns (di: Dinode, ok: bool)
      requires Valid()
      ensures ok == (I2b(inum) < nsect) && Shaped(di)
      ensures ok ==> di == DinodeAt(img, inum)
    {
      var buf;
      buf, ok := Rsect(I2b(inum));
      var off := DinodeOffset(inum);
      di := DecodeDinode(buf[off..off + DINODE_SIZE]);
    }

    /** winode(inum, di): sector i2b(inum) read, dinode inum % IPB replaced, sector written back. */
    method Winode(inum: nat, di: Dinode) returns (ok: bool)
      requires Valid() && Shaped(di)
      modifies this
      ensures Valid() && ok == (I2b(inum) < old(nsect)) && nsect == old(nsect)
      ensures img == if ok then WithDinode(old(img), inum, di) else old(img)
      ensures freeblock == old(freeblock) && usedblocks == old(usedblocks) && freeinode == old(freeinode)
    {
      var buf;
      buf, ok := Rsect(I2b(inum));
      if ok {
        Wsect(I2b(inum), Splice(buf, DinodeOffset(inum), EncodeDinode(di)));
      }
    }

    /** ialloc(type): the next inode number, written out as a fresh dinode of that type. */
    method Ialloc(kind: int16) returns (inum: nat, ok: bool)
      requires Valid()
      modifies this
      ensures Valid() && inum == old(freeinode) && freeinode == inum + 1
      ensures ok == (I2b(inum) < old(nsect)) && nsect == old(nsect)
      ensures img == if ok then WithDinode(old(img), inum, NewDinode(kind)) else old(img)
      ensures freeblock == old(freeblock) && usedblocks == old(usedblocks)
    {
      inum := freeinode;
      freeinode := freeinode + 1;
      ok := Winode(inum, NewDinode(kind));
    }

    /**
     * balloc(used): asserts used < 512 * 8, then writes the bitmap block with
     * the first used blocks marked to sector ninodes / IPB + 3.
     */
    method Balloc(used: int) returns (ok: bool)
      requires Valid()
      modifies this
      ensures Valid() && ok == (used < BPB)
      ensures img == if ok then old(img)[BBlock(0, NINODES) := Bitmap(used)] else old(img)
      ensures nsect == if ok then Max(old(nsect), BBlock(0, NINODES) + 1) else old(nsect)
      ensures freeblock == old(freeblock) && usedblocks == old(usedblocks) && freeinode == old(freeinode)
    {
      ok := used < BPB;
      if !ok {
        return;
      }
      var buf := new byte[BSIZE](_ => 0);
      var i := 0;
      assert buf[..] == Bitmap(0);
      while i < used
        invariant 0 <= i <= Max(used, 0) && buf[..] == Bitmap(i)
        modifies buf
      {
        BitmapStep(i);
        buf[i / 8] := SetBit(buf[i / 8], i % 8);
        i := i + 1;
      }
      assert buf[..] == Bitmap(used) by {
        if used < 0 {
          forall j | 0 <= j < BSIZE
            ensures Bitmap(0)[j] == Bitmap(used)[j]
          {
          }
        }
      }
      Wsect(NINODES / IPB + 3, buf[..]);
    }

    /** The first half of a round of iappend: find, or allocate, the block that holds file block fbn. */
    method LocateBlock(din: Dinode, fbn: nat) returns (din1: Dinode, x: nat, ok: bool)
      requires Valid() && Shaped(din) && fbn < MAXFILE
      modifies this
      ensures Valid() && nsect == old(nsect) && freeinode == old(freeinode)
      ensures usedblocks + old(freeblock) == old(usedblocks) + freeblock
      ensures Locate(old(img), nsect, din, old(freeblock), fbn) == if ok then Located(img, din1, freeblock, x) else LocateFails
    {
      din1 := din;
      if fbn < NDIRECT {
        if din1.addrs[fbn] == 0 {
          din1 := Take(din1, fbn, freeblock);
          freeblock := freeblock + 1;
          usedblocks := usedblocks + 1;
        }
        return din1, din1.addrs[fbn], true;
      }
      din1, x, ok := LocateFar(din, fbn - NDIRECT);
    }

    /** A block past the direct ones: allocate the indirect block if it is 0, then find or allocate entry e. */
    method LocateFar(din: Dinode, e: nat) returns (din1: Dinode, x: nat, ok: bool)
      requires Valid() && Shaped(din) && e < NINDIRECT
      modifies this
      ensures Valid() && nsect == old(nsect) && freeinode == old(freeinode)
      ensures usedblocks + old(freeblock) == old(usedblocks) + freeblock
      ensures LocateIndirect(old(img), nsect, Indirect(din, old(freeblock)), IndirectFb(din, old(freeblock)), e) ==
        if ok then Located(img, din1, freeblock, x) else LocateFails
    {
      din1 := din;
      if din1.addrs[NDIRECT] == 0 {
        din1 := Take(din1, NDIRECT, freeblock);
        freeblock := freeblock + 1;
        usedblocks := usedblocks + 1;
      }
      x, ok := LocateEntry(din1, e);
    }

    /** Entry e of the indirect block of din, allocated and written back if it is 0. */
    method LocateEntry(din: Dinode, e: nat) returns (x: nat, ok: bool)
      requires Valid() && Shaped(din) && e < NINDIRECT
      modifies this
      ensures Valid() && nsect == old(nsect) && freeinode == old(freeinode)
      ensures usedblocks + old(freeblock) == old(usedblocks) + freeblock
      ensures LocateIndirect(old(img), nsect, din, old(freeblock), e) == if ok then Located(img, din, freeblock, x) else LocateFails
    {
      var indirect, got := Rsect(din.addrs[NDIRECT]);
      if !got {
        return 0, false;
      }
      x := Entry(indirect, e);
      if x == 0 {
        x := freeblock % U32;
        indirect := SetEntry(indirect, e, x);
        freeblock := freeblock + 1;
        usedblocks := usedblocks + 1;
        Wsect(din.addrs[NDIRECT], indirect);
      }
      ok := true;
    }

    /** One round of the loop of iappend: locate or allocate the block, copy what fits into it. */
    method AppendRound(din: Dinode, off: nat, src: seq<byte>) returns (din1: Dinode, off1: nat, n1: nat, ok: bool)
      requires Valid() && Shaped(din) && 0 < |src|
      modifies this
      ensures Valid() && nsect == old(nsect) && freeinode == old(freeinode)
      ensures usedblocks + old(freeblock) == old(usedblocks) + freeblock
      ensures ok ==> Shaped(din1) && 0 < n1 <= |src| && off1 == off + n1
      ensures ok ==> AppendFrom(old(img), nsect, din, old(freeblock), off, src) == AppendFrom(img, nsect, din1, freeblock, off1, src[n1..])
      ensures !ok ==> AppendFrom(old(img), nsect, din, old(freeblock), off, src) == AppendFails
    {
      var fbn := off / BSIZE;
      if fbn >= MAXFILE {
        return din, off, 0, false;
      }
      RoundLocated(img, nsect, din, freeblock, off, src);
      var x;
      din1, x, ok := LocateBlock(din, fbn);
      if !ok {
        return din1, off, 0, false;
      }
      n1 := Min(|src|, (fbn + 1) * BSIZE - off);
      var buf, got := Rsect(x);
      if !got {
        return din1, off, n1, false;
      }
      ghost var _ := AtStep(Located(img, din1, freeblock, x), nsect, off, src);
      Wsect(x, Splice(buf, off % BSIZE, src[..n1]));
      off1 := off + n1;
    }

    /** The loop of iappend: rounds until src is copied, as AppendFrom describes. */
    method AppendLoop(din: Dinode, off: nat, src: seq<byte>) returns (din1: Dinode, off1: nat, ok: bool)
      requires Valid() && Shaped(din)
      modifies this
      ensures Valid() && nsect == old(nsect) && freeinode == old(freeinode)
      ensures usedblocks + old(freeblock) == old(usedblocks) + freeblock
      ensures AppendFrom(old(img), nsect, din, old(freeblock), off, src) == if ok then Appended(img, din1, freeblock, off1) else AppendFails
    {
      ghost var start := AppendFrom(img, nsect, din, freeblock, off, src);
      din1, off1 := din, off;
      var k: nat := 0;
      while k < |src|
        invariant Valid() && nsect == old(nsect) && freeinode == old(freeinode) && Shaped(din1)
        invariant usedblocks + old(freeblock) == old(usedblocks) + freeblock
        invariant k <= |src| && AppendFrom(img, nsect, din1, freeblock, off1, src[k..]) == start
        decreases |src| - k
      {
        var d2, o2, n1, more := AppendRound(din1, off1, src[k..]);
        if !more {
          return din1, off1, false;
        }
        assert src[k..][n1..] == src[k + n1..];
        din1, off1, k := d2, o2, k + n1;
      }
      assert src[k..] == [];
      ok := true;
    }

    /**
     * iappend(inum, p, n): the n bytes of p appended to inode inum, the
     * state after as Appending describes it; usedblocks counts every
     * block freeblock hands out.
     */
    method Iappend(inum: nat, p: seq<byte>, n: int) returns (ok: bool)
      requires Valid() && n <= |p|
      modifies this
      ensures Valid() && nsect == old(nsect) && freeinode == old(freeinode)
      ensures usedblocks + old(freeblock) == old(usedblocks) + freeblock
      ensures var a := Appending(old(img), old(nsect), inum, old(freeblock), p[..Max(n, 0)]);
        ok == a.Appended? && (ok ==> img == a.disk && freeblock == a.fb)
    {
      var din, got := Rinode(inum);
      if !got {
        return false;
      }
      var off;
      din, off, ok := AppendLoop(din, din.size, p[..Max(n, 0)]);
      if !ok {
        return false;
      }
      if off >= U32 {
        return false;
      }
      din := din.(size := off);
      ok := Winode(inum, din);
    }
    /** The root directory: ialloc(T_DIR), which hands out ROOTINO, then its "." and "..". */
    method MakeRoot() returns (rootino: nat, ok: bool)
      requires Valid() && freeinode == ROOTINO
      modifies this
      ensures Valid() && rootino == ROOTINO && freeinode == ROOTINO + 1 && nsect == old(nsect)
      ensures usedblocks + old(freeblock) == old(usedblocks) + freeblock
      ensures ok ==> (I2b(rootino) < old(nsect) &&
        var r := Dots(WithDinode(old(img), rootino, NewDinode(T_DIR)), old(nsect), rootino, rootino, old(freeblock));
        r.Image? && img == r.disk && freeblock == r.fb)
    {
      rootino, ok := Ialloc(T_DIR);
      if !ok {
        return;
      }
      ok := AddEntry(rootino, DirEntry(rootino, "."));
      if !ok {
        return;
      }
      ok := AddEntry(rootino, DirEntry(rootino, ".."));
    }

    /** mkdir("dev", root), mkdir("bin", root), mkdir("kexts", root): inodes freeinode, + 1, + 2. */
    method MakeDirs(rootino: nat) returns (binino: nat, kextino: nat, ok: bool)
      requires Valid()
      modifies this
      ensures Valid() && nsect == old(nsect) && usedblocks + old(freeblock) == old(usedblocks) + freeblock
      ensures ok ==> freeinode == old(freeinode) + 3 && binino == old(freeinode) + 1 && kextino == old(freeinode) + 2
    {
      var devino;
      binino, kextino := 0, 0;
      devino, ok := MakeDir("dev", rootino);
      if !ok {
        return;
      }
      binino, ok := MakeDir("bin", rootino);
      if !ok {
        return;
      }
      kextino, ok := MakeDir("kexts", rootino);
    }

    /** The size fixes of the bin and the root directory, in that order. */
    method FixSizes(binino: nat, rootino: nat) returns (ok: bool)
      requires Valid()
      modifies this
      ensures Valid() && nsect == old(nsect) && freeinode == old(freeinode)
      ensures freeblock == old(freeblock) && usedblocks == old(usedblocks)
      ensures ok == (I2b(binino) < old(nsect) && I2b(rootino) < old(nsect))
    {
      ok := FixSize(binino);
      if !ok {
        return;
      }
      ok := FixSize(rootino);
    }

    /**
     * mkdir(dirname, parentdir): ialloc(T_DIR), the entry for the new
     * directory appended to the parent, then "." and ".." appended to it.
     */
    method MakeDir(name: seq<char>, parent: nat) returns (dirino: nat, ok: bool)
      requires Valid() && |name| <= DIRSIZ
      modifies this
      ensures Valid() && dirino == old(freeinode) && freeinode == dirino + 1 && nsect == old(nsect)
      ensures usedblocks + old(freeblock) == old(usedblocks) + freeblock
      ensures var r := Mkdir(old(img), old(nsect), dirino, parent, old(freeblock), name);
        ok == r.Image? && (ok ==> img == r.disk && freeblock == r.fb)
    {
      var got;
      dirino, got := Ialloc(T_DIR);
      if !got {
        return dirino, false;
      }
      ok := AddEntry(parent, DirEntry(dirino, name));
      if !ok {
        return;
      }
      ok := AddEntry(dirino, DirEntry(dirino, "."));
      if !ok {
        return;
      }
      ok := AddEntry(dirino, DirEntry(parent, ".."));
    }

    /** iappend(inum, &de, sizeof(de)) of one directory entry, as Link describes it. */
    method AddEntry(inum: nat, e: seq<byte>) returns (ok: bool)
      requires Valid() && |e| == DIRENT_SIZE
      modifies this
      ensures Valid() && nsect == old(nsect) && freeinode == old(freeinode)
      ensures usedblocks + old(freeblock) == old(usedblocks) + freeblock
      ensures var r := Link(Image(old(img), old(freeblock)), old(nsect), inum, e);
        ok == r.Image? && (ok ==> img == r.disk && freeblock == r.fb)
    {
      assert e[..Max(DIRENT_SIZE, 0)] == e;
      ok := Iappend(inum, e, DIRENT_SIZE);
    }

    /** The fix-size step of main: the directory's size rounded by RoundedSize and written back. */
    method FixSize(inum: nat) returns (ok: bool)
      requires Valid()
      modifies this
      ensures Valid() && ok == (I2b(inum) < old(nsect)) && nsect == old(nsect)
      ensures var din := DinodeAt(old(img), inum);
        img == if ok then WithDinode(old(img), inum, din.(size := RoundedSize(din.size))) else old(img)
      ensures freeblock == old(freeblock) && usedblocks == old(usedblocks) && freeinode == old(freeinode)
    {
      var din, got := Rinode(inum);
      if !got {
        return false;
      }
      din := din.(size := RoundedSize(din.size));
      ok := Winode(inum, din);
    }

    /** The zeroing loop of main: sectors 0 .. n - 1 written with zeroes. */
    method ZeroFill(n: nat)
      requires Valid() && img == map[] && nsect == 0
      modifies this
      ensures Valid() && img == ZeroImage(n) && nsect == n
      ensures freeblock == old(freeblock) && usedblocks == old(usedblocks) && freeinode == old(freeinode)
    {
      var i := 0;
      while i < n
        invariant 0 <= i <= n && Valid() && img == ZeroImage(i) && nsect == i
        invariant freeblock == old(freeblock) && usedblocks == old(usedblocks) && freeinode == old(freeinode)
      {
        Wsect(i, Zeros(BSIZE));
        i := i + 1;
      }
    }
  }

  /**
   * main without the files copied from the host: the zeroed image of size
   * sectors, the superblock, the root directory with "." and "..", the
   * directories dev, bin and kexts, the two size fixes and the bitmap.
   * A step that gives up (mkfs exits) makes ok false.
   */
  method Build(logsize: nat) returns (b: Builder, rootino: nat, binino: nat, kextino: nat, ok: bool)
    ensures fresh(b) && b.Valid() && b.nsect == SIZE && rootino == ROOTINO
    ensures b.usedblocks == b.freeblock
    ensures ok ==> binino == 3 && kextino == 4 && b.freeinode == 5
    ensures ok ==> Block(b.img, BBlock(0, NINODES)) == Bitmap(b.usedblocks)
  {
    b := new Builder();
    b.ZeroFill(SIZE);
    b.Wsect(1, SbSector(logsize));
    assert b.nsect == Max(SIZE, 2) == SIZE;
    b.freeblock, b.usedblocks := USEDBLOCKS, USEDBLOCKS;
    binino, kextino := 0, 0;
    rootino, ok := b.MakeRoot();
    if !ok {
      return;
    }
    binino, kextino, ok := b.MakeDirs(rootino);
    if !ok {
      return;
    }
    ok := b.FixSizes(binino, rootino);
    if !ok {
      return;
    }
    BitmapInside();
    ok := b.Balloc(b.usedblocks);
  }

  /** After balloc(used) the bitmap marks in use exactly the first used blocks of the image. */
  lemma BallocMarksFirst(d: Disk, used: int, b: nat)
    requires b < SIZE
    ensures InUse(d[BBlock(0, NINODES) := Bitmap(used)], NINODES, b) <==> b < used
  {
    OneBitmapBlock(b);
    var d1 := d[BBlock(0, NINODES) := Bitmap(used)];
    assert Block(d1, BBlock(b, NINODES)) == Bitmap(used);
    assert BitByte(b) == b / 8 && BitIndex(b) == b % 8;
    BitmapMarks(used, b);
  }
}
