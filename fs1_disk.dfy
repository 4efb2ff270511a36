/**
 * The disk fs1 runs on, as the block layer shows it to kernel/fs/fs1.c:
 * a map from block number to the block's 512 bytes, where a block never
 * written reads as zeros. The buffer cache and the log are transparent
 * here: bread gives the block's current bytes and log_write makes a change
 * part of the disk. On top of it: the superblock, the free-block bitmap
 * (fs1_balloc and fs1_bfree on values) and the dinodes (fs1_iupdate and
 * fs1_readinode on values).
 */
module Fs1Disk {
  import opened Common
  import opened Fs1Layout

  type Disk = map<nat, seq<byte>>

  /** bread(dev, n)->data. */
  function Block(d: Disk, n: nat): (b: seq<byte>)
    ensures |b| == BSIZE
  {
    if n in d && |d[n]| == BSIZE then d[n] else Zeros(BSIZE)
  }

  /** The disk after block n has been rewritten with b. */
  function Put(d: Disk, n: nat, b: seq<byte>): (r: Disk)
    requires |b| == BSIZE
    ensures Block(r, n) == b && forall m :: m != n ==> Block(r, m) == Block(d, m)
  {
    d[n := b]
  }

  /** fs1_readsb: the superblock at the start of block 1. */
  function Sb(d: Disk): Superblock
  {
    DecodeSb(Block(d, 1))
  }

  // ------------------------------------------------------------- bitmap

  /** bi / 8 and bi % 8 for bi = b % BPB: the byte and the bit of block b within its bitmap block. */
  function BitByte(b: nat): (i: nat)
    ensures i < BSIZE
  {
    (b % BPB) / 8
  }

  function BitIndex(b: nat): (k: nat)
    ensures k < 8
  {
    (b % BPB) % 8
  }

  /** Whether the bitmap marks block b as in use. */
  predicate InUse(d: Disk, ninodes: nat, b: nat)
  {
    Bit(Block(d, BBlock(b, ninodes))[BitByte(b)], BitIndex(b))
  }

  /** The disk with the bit of block b set. */
  function Marked(d: Disk, ninodes: nat, b: nat): Disk
  {
    var bb := BBlock(b, ninodes);
    var blk := Block(d, bb);
    Put(d, bb, blk[BitByte(b) := SetBit(blk[BitByte(b)], BitIndex(b))])
  }

  /** The disk with the bit of block b cleared. */
  function Cleared(d: Disk, ninodes: nat, b: nat): Disk
  {
    var bb := BBlock(b, ninodes);
    var blk := Block(d, bb);
    Put(d, bb, blk[BitByte(b) := ClearBit(blk[BitByte(b)], BitIndex(b))])
  }

  /** Two blocks share a bitmap bit only if they are the same block. */
  lemma OneBitPerBlock(ninodes: nat, b: nat, c: nat)
    requires BBlock(b, ninodes) == BBlock(c, ninodes) && BitByte(b) == BitByte(c) && BitIndex(b) == BitIndex(c)
    ensures b == c
  {
    assert b % BPB == 8 * BitByte(b) + BitIndex(b);
    assert c % BPB == 8 * BitByte(c) + BitIndex(c);
    assert b == BPB * (b / BPB) + b % BPB;
    assert c == BPB * (c / BPB) + c % BPB;
  }

  /** Setting the bit of b marks b and leaves every other block's mark alone. */
  lemma MarkedInUse(d: Disk, ninodes: nat, b: nat, c: nat)
    ensures InUse(Marked(d, ninodes, b), ninodes, c) == (c == b || InUse(d, ninodes, c))
  {
    if c != b && BBlock(b, ninodes) == BBlock(c, ninodes) && BitByte(b) == BitByte(c) {
      if BitIndex(b) == BitIndex(c) {
        OneBitPerBlock(ninodes, b, c);
      }
    }
  }

  /** Clearing the bit of b frees b and leaves every other block's mark alone. */
  lemma ClearedInUse(d: Disk, ninodes: nat, b: nat, c: nat)
    ensures InUse(Cleared(d, ninodes, b), ninodes, c) == (c != b && InUse(d, ninodes, c))
  {
    if c != b && BBlock(b, ninodes) == BBlock(c, ninodes) && BitByte(b) == BitByte(c) {
      if BitIndex(b) == BitIndex(c) {
        OneBitPerBlock(ninodes, b, c);
      }
    }
  }

  /** Block b marked in use and then zeroed (fs1_bzero). */
  function Allocated(d: Disk, ninodes: nat, b: nat): Disk
  {
    Put(Marked(d, ninodes, b), b, Zeros(BSIZE))
  }

  /** What fs1_balloc does: the block it returns and the disk after, or the panic when none is free. */
  datatype Alloc = Got(b: uint32, disk: Disk) | OutOfBlocks

  function Balloc(d: Disk): Alloc
  {
    BallocFrom(d, Sb(d).ninodes, Sb(d).size, 0)
  }

  /** The scan of fs1_balloc from block b on: the first block below size whose bit is clear. */
  function BallocFrom(d: Disk, ninodes: nat, size: uint32, b: nat): Alloc
    decreases size - b
  {
    if b >= size then OutOfBlocks
    else if !InUse(d, ninodes, b) then Got(b, Allocated(d, ninodes, b))
    else BallocFrom(d, ninodes, size, b + 1)
  }

  /** The scan takes the lowest clear bit from b on, and runs out exactly when every block from b on is marked. */
  lemma {:induction false} BallocFromLowest(d: Disk, ninodes: nat, size: uint32, b: nat)
    ensures var a := BallocFrom(d, ninodes, size, b);
      (a.OutOfBlocks? <==> forall c :: b <= c < size ==> InUse(d, ninodes, c))
      && (a.Got? ==>
            b <= a.b < size && !InUse(d, ninodes, a.b) && (forall c :: b <= c < a.b ==> InUse(d, ninodes, c))
            && a.disk == Allocated(d, ninodes, a.b))
    decreases size - b
  {
    if b < size && InUse(d, ninodes, b) {
      BallocFromLowest(d, ninodes, size, b + 1);
    }
  }

  /**
   * fs1_balloc takes the lowest block whose bit is clear, marks it, zeroes
   * it, and leaves the marks of all other blocks alone; it panics exactly
   * when every block below sb.size is marked.
   */
  lemma BallocTakesLowestFree(d: Disk)
    ensures var sb := Sb(d); var a := Balloc(d);
      (a.OutOfBlocks? <==> forall c :: 0 <= c < sb.size ==> InUse(d, sb.ninodes, c))
      && (a.Got? ==>
            a.b < sb.size && !InUse(d, sb.ninodes, a.b) && (forall c :: 0 <= c < a.b ==> InUse(d, sb.ninodes, c))
            && Block(a.disk, a.b) == Zeros(BSIZE)
            && (BBlock(a.b, sb.ninodes) != a.b ==> InUse(a.disk, sb.ninodes, a.b)))
  {
    var sb := Sb(d);
    var a := Balloc(d);
    BallocFromLowest(d, sb.ninodes, sb.size, 0);
    if a.Got? {
      MarkedInUse(d, sb.ninodes, a.b, a.b);
    }
  }

  /** fs1_balloc takes x when x is free and every block below it is in use. */
  lemma BallocTakesFirst(d: Disk, x: nat)
    requires x < Sb(d).size && !InUse(d, Sb(d).ninodes, x)
    requires forall c :: 0 <= c < x ==> InUse(d, Sb(d).ninodes, c)
    ensures Balloc(d).Got? && Balloc(d).b == x && Balloc(d).disk == Allocated(d, Sb(d).ninodes, x)
  {
    BallocFromLowest(d, Sb(d).ninodes, Sb(d).size, 0);
  }

  /** fs1_balloc panics when every block below sb.size is in use. */
  lemma BallocFull(d: Disk)
    requires forall c :: 0 <= c < Sb(d).size ==> InUse(d, Sb(d).ninodes, c)
    ensures Balloc(d).OutOfBlocks?
  {
    BallocFromLowest(d, Sb(d).ninodes, Sb(d).size, 0);
  }

  /** After fs1_balloc, a block other than the new one is marked exactly when it was, if its bitmap block is not the new one. */
  lemma BallocKeepsOtherMarks(d: Disk, c: nat)
    requires Balloc(d).Got? && c != Balloc(d).b && BBlock(c, Sb(d).ninodes) != Balloc(d).b
    ensures InUse(Balloc(d).disk, Sb(d).ninodes, c) == InUse(d, Sb(d).ninodes, c)
  {
    BallocFromLowest(d, Sb(d).ninodes, Sb(d).size, 0);
    MarkedInUse(d, Sb(d).ninodes, Balloc(d).b, c);
  }

  /**
   * The blocks up to the last bitmap block (boot block, superblock, inodes
   * and bitmap) are marked in use, as the image builder leaves them.
   */
  predicate Sane(d: Disk)
  {
    var sb := Sb(d);
    forall b :: 0 <= b <= BBlock(sb.size, sb.ninodes) ==> InUse(d, sb.ninodes, b)
  }

  /** A block below size has its bit in a bitmap block no later than BBLOCK(size). */
  lemma BitmapBlockBound(b: nat, size: nat, ninodes: nat)
    requires b < size
    ensures BBlock(b, ninodes) <= BBlock(size, ninodes)
  {
  }

  /** Allocating b leaves the mark of every block whose bit is not in block b alone. */
  lemma AllocatedKeepsMark(d: Disk, ninodes: nat, b: nat, c: nat)
    requires BBlock(b, ninodes) != b && BBlock(c, ninodes) != b
    ensures InUse(Allocated(d, ninodes, b), ninodes, c) == (c == b || InUse(d, ninodes, c))
  {
    MarkedInUse(d, ninodes, b, c);
  }

  /**
   * On a sane disk fs1_balloc hands out a block past the bitmap, so it
   * leaves the superblock alone and the disk stays sane.
   */
  lemma BallocSane(d: Disk)
    requires Sane(d) && Balloc(d).Got?
    ensures var sb := Sb(d); var b := Balloc(d).b;
      b > BBlock(sb.size, sb.ninodes) && Sb(Balloc(d).disk) == sb && Sane(Balloc(d).disk)
      && InUse(Balloc(d).disk, sb.ninodes, b)
  {
    var sb := Sb(d);
    var n := sb.ninodes;
    var b: nat := Balloc(d).b;
    var d1 := Allocated(d, n, b);
    BallocFromLowest(d, n, sb.size, 0);
    assert b > BBlock(sb.size, n) by {
      assert !InUse(d, n, b);
    }
    BitmapBlockBound(b, sb.size, n);
    assert Sb(d1) == sb by {
      assert Block(d1, 1) == Block(d, 1);
    }
    AllocatedKeepsMark(d, n, b, b);
    forall c | 0 <= c <= BBlock(sb.size, n)
      ensures InUse(d1, n, c)
    {
      BitmapBlockBound(c, sb.size, n);
      AllocatedKeepsMark(d, n, b, c);
    }
  }

  /** fs1_bfree: the disk with b's bit cleared, or the panic on a block that is already free. */
  function Bfree(d: Disk, b: nat): Option<Disk>
  {
    var sb := Sb(d);
    if !InUse(d, sb.ninodes, b) then None else Some(Cleared(d, sb.ninodes, b))
  }

  /** fs1_bfree panics exactly on a free block; otherwise it frees b and nothing else. */
  lemma BfreeFreesOne(d: Disk, b: nat, c: nat)
    ensures Bfree(d, b).None? <==> !InUse(d, Sb(d).ninodes, b)
    ensures Bfree(d, b).Some? ==>
              Sb(Bfree(d, b).value) == Sb(d) && InUse(Bfree(d, b).value, Sb(d).ninodes, c) == (c != b && InUse(d, Sb(d).ninodes, c))
  {
    ClearedInUse(d, Sb(d).ninodes, b, c);
  }

  /** Clearing a bit that was set from clear gives every block back. */
  lemma ClearMarked(d: Disk, ninodes: nat, b: nat, m: nat)
    requires !InUse(d, ninodes, b)
    ensures Block(Cleared(Marked(d, ninodes, b), ninodes, b), m) == Block(d, m)
  {
    var bb := BBlock(b, ninodes);
    if m == bb {
      var blk := Block(d, bb);
      ClearSetBit(blk[BitByte(b)], BitIndex(b));
      assert blk[BitByte(b) := SetBit(blk[BitByte(b)], BitIndex(b))][BitByte(b) := blk[BitByte(b)]] == blk;
    }
  }

  /** The disk after allocating b and freeing it again: b zeroed, every other block as before. */
  lemma AllocatedThenCleared(d: Disk, ninodes: nat, b: nat, m: nat)
    requires !InUse(d, ninodes, b) && BBlock(b, ninodes) != b
    ensures InUse(Allocated(d, ninodes, b), ninodes, b)
    ensures Block(Cleared(Allocated(d, ninodes, b), ninodes, b), m) == if m == b then Zeros(BSIZE) else Block(d, m)
  {
    MarkedInUse(d, ninodes, b, b);
    var bb := BBlock(b, ninodes);
    var mk := Marked(d, ninodes, b);
    assert Block(Allocated(d, ninodes, b), bb) == Block(mk, bb);
    if m != b {
      ClearMarked(d, ninodes, b, m);
    }
  }

  /**
   * fs1_balloc followed by fs1_bfree of the block it returned: no panic,
   * the new block is left zeroed and every other block, the bitmap
   * included, holds what it held before, as long as the new block is
   * neither the superblock nor its own bitmap block.
   */
  lemma BallocThenBfree(d: Disk, m: nat)
    requires Balloc(d).Got? && Balloc(d).b != 1 && BBlock(Balloc(d).b, Sb(d).ninodes) != Balloc(d).b
    ensures Bfree(Balloc(d).disk, Balloc(d).b).Some?
    ensures Block(Bfree(Balloc(d).disk, Balloc(d).b).value, m) == if m == Balloc(d).b then Zeros(BSIZE) else Block(d, m)
  {
    var b := Balloc(d).b;
    var n := Sb(d).ninodes;
    BallocFromLowest(d, n, Sb(d).size, 0);
    AllocatedThenCleared(d, n, b, m);
    assert Block(Balloc(d).disk, 1) == Block(d, 1) by {
      ClearMarked(d, n, b, 1);
      assert BBlock(b, n) != 1;
    }
  }

  // ------------------------------------------------------------- dinodes

  /** The byte offset of dinode inum within its block. */
  function DinodeOffset(inum: nat): (off: nat)
    ensures off + DINODE_SIZE <= BSIZE
  {
    (inum % IPB) * DINODE_SIZE
  }

  /** (struct dinode*)bread(dev, IBLOCK(inum))->data + inum % IPB. */
  function DinodeAt(d: Disk, inum: nat): (di: Dinode)
    ensures Shaped(di)
  {
    var off := DinodeOffset(inum);
    DecodeDinode(Block(d, IBlock(inum))[off..off + DINODE_SIZE])
  }

  /** The disk with dinode inum rewritten as di. */
  function PutDinode(d: Disk, inum: nat, di: Dinode): Disk
    requires Shaped(di)
  {
    var blk := Block(d, IBlock(inum));
    Put(d, IBlock(inum), Splice(blk, DinodeOffset(inum), EncodeDinode(di)))
  }

  /** A dinode written reads back as itself. */
  lemma DinodeReadBack(d: Disk, inum: nat, di: Dinode)
    requires Shaped(di)
    ensures DinodeAt(PutDinode(d, inum, di), inum) == di
  {
    var off := DinodeOffset(inum);
    assert Block(PutDinode(d, inum, di), IBlock(inum))[off..off + DINODE_SIZE] == EncodeDinode(di);
    DinodeRoundTrip(di);
  }

  /** Writing dinode inum leaves every other dinode as it was. */
  lemma DinodeOthers(d: Disk, inum: nat, di: Dinode, j: nat)
    requires Shaped(di) && j != inum
    ensures DinodeAt(PutDinode(d, inum, di), j) == DinodeAt(d, j)
  {
    if IBlock(j) == IBlock(inum) {
      var off := DinodeOffset(inum);
      var offj := DinodeOffset(j);
      assert offj + DINODE_SIZE <= off || off + DINODE_SIZE <= offj by {
        assert inum == IPB * (inum / IPB) + inum % IPB;
        assert j == IPB * (j / IPB) + j % IPB;
      }
      var b0 := Block(d, IBlock(j));
      var b1 := Splice(b0, off, EncodeDinode(di));
      assert b1[offj..offj + DINODE_SIZE] == b0[offj..offj + DINODE_SIZE];
    }
  }

  /** Rewriting a dinode touches only its inode block, so the bitmap and the superblock are as before. */
  lemma PutDinodeKeepsBlocks(d: Disk, inum: nat, di: Dinode, n: nat)
    requires Shaped(di) && n != IBlock(inum)
    ensures Block(PutDinode(d, inum, di), n) == Block(d, n)
  {
  }

  /** The types of dinodes 0 .. ninodes - 1, as fs1_ialloc reads them one by one. */
  function Kinds(d: Disk, ninodes: nat): (ks: seq<int16>)
    ensures |ks| == ninodes
  {
    seq(ninodes, i requires 0 <= i < ninodes => DinodeAt(d, i).kind)
  }

  /** The first index from i on whose type is 0 (a free dinode). */
  function FirstZero(ks: seq<int16>, i: nat): (r: Option<nat>)
    ensures r.Some? ==> i <= r.value < |ks|
    decreases |ks| - i
  {
    if i >= |ks| then None
    else if ks[i] == 0 then Some(i)
    else FirstZero(ks, i + 1)
  }

  /** FirstZero finds the lowest zero from i on, and None means there is none. */
  lemma {:induction false} FirstZeroLowest(ks: seq<int16>, i: nat)
    ensures var r := FirstZero(ks, i);
      (r.Some? ==> i <= r.value < |ks| && ks[r.value] == 0 && forall j :: i <= j < r.value ==> ks[j] != 0)
      && (r.None? ==> forall j :: i <= j < |ks| ==> ks[j] != 0)
    decreases |ks| - i
  {
    if i < |ks| && ks[i] != 0 {
      FirstZeroLowest(ks, i + 1);
    }
  }

  /** The first free dinode from inum on, below ninodes: the one fs1_ialloc takes. */
  function FreeInodeFrom(d: Disk, ninodes: nat, inum: nat): (r: Option<nat>)
    ensures r.Some? ==> inum <= r.value < ninodes
  {
    FirstZero(Kinds(d, ninodes), inum)
  }

  /** FreeInodeFrom finds the lowest dinode of type 0 from inum on, and None means there is none. */
  lemma FreeInodeLowest(d: Disk, ninodes: nat, inum: nat)
    ensures var r := FreeInodeFrom(d, ninodes, inum);
      (r.Some? ==> inum <= r.value < ninodes && DinodeAt(d, r.value).kind == 0
                   && forall j :: inum <= j < r.value ==> DinodeAt(d, j).kind != 0)
      && (r.None? ==> forall j :: inum <= j < ninodes ==> DinodeAt(d, j).kind != 0)
  {
    var ks := Kinds(d, ninodes);
    FirstZeroLowest(ks, inum);
    var r := FirstZero(ks, inum);
    forall j | inum <= j < ninodes && ks[j] != 0
      ensures DinodeAt(d, j).kind != 0
    {
    }
  }

  /** A fresh dinode of the given type: memset to zero, then the type set. */
  function FreshDinode(kind: int16): (di: Dinode)
    ensures Shaped(di)
  {
    Dinode(kind, 0, 0, 0, 0, seq(NDIRECT + 1, _ => 0))
  }

  // ------------------------------------------------------ indirect blocks

  /** Entry j of an indirect block: ((uint*)bp->data)[j]. */
  function Entry(blk: seq<byte>, j: nat): uint32
    requires |blk| == BSIZE && j < NINDIRECT
  {
    GetLe32(blk, 4 * j)
  }

  /** The indirect block with entry j set to v. */
  function SetEntry(blk: seq<byte>, j: nat, v: uint32): (r: seq<byte>)
    requires |blk| == BSIZE && j < NINDIRECT
    ensures |r| == BSIZE
  {
    Splice(blk, 4 * j, Le32(v))
  }

  /** An entry written reads back; the other entries are as before. */
  lemma SetEntryReadBack(blk: seq<byte>, j: nat, v: uint32, k: nat)
    requires |blk| == BSIZE && j < NINDIRECT && k < NINDIRECT
    ensures Entry(SetEntry(blk, j, v), k) == if k == j then v else Entry(blk, k)
  {
    var r := SetEntry(blk, j, v);
    if k == j {
      Le32RoundTrip(r, 4 * j, v);
    } else {
      assert r[4 * k..4 * k + 4] == blk[4 * k..4 * k + 4];
    }
  }

  /**
   * The disk block holding block bn of a file with block addresses addrs,
   * where 0 means none: addrs[bn] for the first NDIRECT blocks, the
   * indirect block's entry for the next NINDIRECT.
   */
  function BlockAddr(d: Disk, addrs: seq<uint32>, bn: nat): uint32
    requires |addrs| == NDIRECT + 1
  {
    if bn < NDIRECT then addrs[bn]
    else if bn < MAXFILE && addrs[NDIRECT] != 0 then Entry(Block(d, addrs[NDIRECT]), bn - NDIRECT)
    else 0
  }

  /** The entries of an indirect block, in order. */
  function Entries(blk: seq<byte>): (es: seq<uint32>)
    requires |blk| == BSIZE
    ensures |es| == NINDIRECT && forall j :: 0 <= j < NINDIRECT ==> es[j] == Entry(blk, j)
  {
    seq(NINDIRECT, j requires 0 <= j < NINDIRECT => Entry(blk, j))
  }

  /** The nonzero addresses of s, in order: the blocks fs1_itrunc frees. */
  function Nonzero(s: seq<uint32>): (r: seq<nat>)
    decreases |s|
  {
    if |s| == 0 then []
    else (if s[0] != 0 then [s[0] as nat] else []) + Nonzero(s[1..])
  }

  /** Nonzero keeps exactly the nonzero addresses. */
  lemma {:induction false} NonzeroMembers(s: seq<uint32>, x: nat)
    ensures x in Nonzero(s) <==> x != 0 && x in s
    decreases |s|
  {
    if |s| > 0 {
      NonzeroMembers(s[1..], x);
      assert s == [s[0]] + s[1..];
    }
  }

  /** No block appears twice. */
  predicate Distinct(bs: seq<nat>)
  {
    forall i, j :: 0 <= i < j < |bs| ==> bs[i] != bs[j]
  }

  /** fs1_bfree on each block of bs in turn; None is the panic of a block already free. */
  function FreeAll(d: Disk, bs: seq<nat>): Option<Disk>
    decreases |bs|
  {
    if |bs| == 0 then Some(d)
    else
      match Bfree(d, bs[0])
      case None => None
      case Some(d1) => FreeAll(d1, bs[1..])
  }

  /** After freeing bs, exactly the blocks of bs have left the bitmap, and the superblock is as before. */
  lemma {:induction false} FreeAllMarks(d: Disk, bs: seq<nat>, c: nat)
    requires FreeAll(d, bs).Some?
    ensures var d1 := FreeAll(d, bs).value;
      Sb(d1) == Sb(d) && InUse(d1, Sb(d).ninodes, c) == (c !in bs && InUse(d, Sb(d).ninodes, c))
    decreases |bs|
  {
    if |bs| > 0 {
      BfreeFreesOne(d, bs[0], c);
      var d1 := Bfree(d, bs[0]).value;
      FreeAllMarks(d1, bs[1..], c);
      assert bs == [bs[0]] + bs[1..];
    }
  }

  /** Every block of bs is marked in use. */
  predicate AllInUse(d: Disk, ninodes: nat, bs: seq<nat>)
  {
    forall i :: 0 <= i < |bs| ==> InUse(d, ninodes, bs[i])
  }

  lemma DistinctCons(bs: seq<nat>)
    requires |bs| > 0
    ensures Distinct(bs) <==> bs[0] !in bs[1..] && Distinct(bs[1..])
  {
    var rest := bs[1..];
    if bs[0] !in rest && Distinct(rest) {
      forall i, j | 0 <= i < j < |bs|
        ensures bs[i] != bs[j]
      {
        assert bs[j] == rest[j - 1];
        if i > 0 {
          assert bs[i] == rest[i - 1];
        }
      }
    }
    if Distinct(bs) {
      forall i, j | 0 <= i < j < |rest|
        ensures rest[i] != rest[j]
      {
        assert rest[i] == bs[i + 1] && rest[j] == bs[j + 1];
      }
    }
  }

  lemma AllInUseCons(d: Disk, ninodes: nat, bs: seq<nat>)
    requires |bs| > 0
    ensures AllInUse(d, ninodes, bs) <==> InUse(d, ninodes, bs[0]) && AllInUse(d, ninodes, bs[1..])
  {
    if InUse(d, ninodes, bs[0]) && AllInUse(d, ninodes, bs[1..]) {
      forall i | 0 <= i < |bs|
        ensures InUse(d, ninodes, bs[i])
      {
        if i > 0 {
          assert bs[i] == bs[1..][i - 1];
        }
      }
    }
  }

  /** After freeing b, the blocks of rest are all in use exactly when b is not among them and they were before. */
  lemma AllInUseAfterBfree(d: Disk, b: nat, rest: seq<nat>)
    requires Bfree(d, b).Some?
    ensures AllInUse(Bfree(d, b).value, Sb(d).ninodes, rest) <==> b !in rest && AllInUse(d, Sb(d).ninodes, rest)
  {
    var n := Sb(d).ninodes;
    var d1 := Bfree(d, b).value;
    forall i | 0 <= i < |rest|
      ensures InUse(d1, n, rest[i]) == (rest[i] != b && InUse(d, n, rest[i]))
    {
      BfreeFreesOne(d, b, rest[i]);
    }
  }

  /** Freeing bs goes through exactly when its blocks are distinct and all in use. */
  lemma {:induction false} FreeAllSucceeds(d: Disk, bs: seq<nat>)
    ensures FreeAll(d, bs).Some? <==> Distinct(bs) && AllInUse(d, Sb(d).ninodes, bs)
    decreases |bs|
  {
    if |bs| > 0 {
      BfreeFreesOne(d, bs[0], bs[0]);
      DistinctCons(bs);
      AllInUseCons(d, Sb(d).ninodes, bs);
      if Bfree(d, bs[0]).Some? {
        FreeAllSucceeds(Bfree(d, bs[0]).value, bs[1..]);
        AllInUseAfterBfree(d, bs[0], bs[1..]);
      }
    }
  }

  /** Freeing xs + ys is freeing xs, then ys. */
  lemma {:induction false} FreeAllConcat(d: Disk, xs: seq<nat>, ys: seq<nat>)
    ensures FreeAll(d, xs + ys) == if FreeAll(d, xs).None? then None else FreeAll(FreeAll(d, xs).value, ys)
    decreases |xs|
  {
    if |xs| > 0 {
      assert (xs + ys)[1..] == xs[1..] + ys;
      assert (xs + ys)[0] == xs[0];
      if Bfree(d, xs[0]).Some? {
        FreeAllConcat(Bfree(d, xs[0]).value, xs[1..], ys);
      }
    } else {
      assert xs + ys == ys;
    }
  }

  /** Freeing touches only bitmap blocks: a block that is no freed block's bitmap block stays as it was. */
  lemma {:induction false} FreeAllKeeps(d: Disk, bs: seq<nat>, m: nat)
    requires FreeAll(d, bs).Some?
    requires forall i :: 0 <= i < |bs| ==> BBlock(bs[i], Sb(d).ninodes) != m
    ensures Block(FreeAll(d, bs).value, m) == Block(d, m)
    decreases |bs|
  {
    if |bs| > 0 {
      var d1 := Bfree(d, bs[0]).value;
      BfreeFreesOne(d, bs[0], 0);
      forall i | 0 <= i < |bs[1..]|
        ensures BBlock(bs[1..][i], Sb(d1).ninodes) != m
      {
        assert bs[1..][i] == bs[i + 1];
      }
      FreeAllKeeps(d1, bs[1..], m);
    }
  }
}
