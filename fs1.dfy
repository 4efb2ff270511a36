/**
 * fs1, the xv6 file system (kernel/fs/fs1.c): block allocation, the
 * in-memory inode cache with its reference counts, the block map of a file
 * with its indirect block, truncation, and reading and writing a file's
 * bytes. The disk is the map of Fs1Disk; the inode cache is the fixed
 * array fs1_icache.inode, and a struct inode* is an index into it. A panic
 * is a `panicked` result (or None), after which the state does not matter.
 * Each operation is specified by a function on values (the disk, an
 * inode's block addresses, the cache contents) and its promises are
 * proved about that function.
 */
module Fs1 {
  import opened Common
  import opened Fs1Layout
  import opened Fs1Disk
  import Syscall

  /**
   * struct inode: the device and inode number it caches, the reference
   * count, the flags I_BUSY and I_VALID, and the copy of the dinode.
   */
  datatype Inode = Inode(dev: uint32, inum: uint32, ref: int, busy: bool, valid: bool,
                         kind: int16, major: int16, minor: int16, nlink: int16, size: uint32, addrs: seq<uint32>)

  /** A cache entry holds its NDIRECT + 1 block addresses. */
  predicate Addressed(ino: Inode)
  {
    |ino.addrs| == NDIRECT + 1
  }

  /** An entry of the zeroed static cache. */
  function EmptyInode(): (ino: Inode)
    ensures Addressed(ino)
  {
    Inode(0, 0, 0, false, false, 0, 0, 0, 0, 0, seq(NDIRECT + 1, _ => 0))
  }

  /** The dinode fs1_iupdate writes for ino. */
  function DinodeOf(ino: Inode): Dinode
  {
    Dinode(ino.kind, ino.major, ino.minor, ino.nlink, ino.size, ino.addrs)
  }

  /** ino with the fields fs1_readinode copies from dinode di. */
  function WithDinode(ino: Inode, di: Dinode): Inode
  {
    ino.(kind := di.kind, major := di.major, minor := di.minor, nlink := di.nlink, size := di.size, addrs := di.addrs)
  }

  /** fs1_iupdate on values: the disk with ino's dinode rewritten. */
  function Iupdate(d: Disk, ino: Inode): Disk
    requires Addressed(ino)
  {
    PutDinode(d, ino.inum, DinodeOf(ino))
  }

  /** fs1_readinode after fs1_iupdate gives the entry back unchanged. */
  lemma ReadinodeAfterIupdate(d: Disk, ino: Inode)
    requires Addressed(ino)
    ensures WithDinode(ino, DinodeAt(Iupdate(d, ino), ino.inum)) == ino
  {
    DinodeReadBack(d, ino.inum, DinodeOf(ino));
  }

  // --------------------------------------------------------------- iget

  /** The first entry from k on that caches (dev, inum) with ref > 0. */
  function CachedFrom(c: seq<Inode>, dev: uint32, inum: uint32, k: nat): (r: Option<nat>)
    ensures r.Some? ==>
              k <= r.value < |c| && c[r.value].ref > 0 && c[r.value].dev == dev && c[r.value].inum == inum
    ensures r.Some? ==> forall i :: k <= i < r.value ==> !(c[i].ref > 0 && c[i].dev == dev && c[i].inum == inum)
    ensures r.None? ==> forall i :: k <= i < |c| ==> !(c[i].ref > 0 && c[i].dev == dev && c[i].inum == inum)
    decreases |c| - k
  {
    if k >= |c| then None
    else if c[k].ref > 0 && c[k].dev == dev && c[k].inum == inum then Some(k)
    else CachedFrom(c, dev, inum, k + 1)
  }

  /** The first entry from k on with ref == 0. */
  function EmptyFrom(c: seq<Inode>, k: nat): (r: Option<nat>)
    ensures r.Some? ==> k <= r.value < |c| && c[r.value].ref == 0 && forall i :: k <= i < r.value ==> c[i].ref != 0
    ensures r.None? ==> forall i :: k <= i < |c| ==> c[i].ref != 0
    decreases |c| - k
  {
    if k >= |c| then None
    else if c[k].ref == 0 then Some(k)
    else EmptyFrom(c, k + 1)
  }

  /** What fs1_iget gives: the entry and the cache after, or the panic of a full cache. */
  datatype Got = Cached(ip: nat, cache: seq<Inode>) | NoInodes

  function Iget(c: seq<Inode>, dev: uint32, inum: uint32): (g: Got)
    ensures g.Cached? ==> g.ip < |g.cache| == |c| && g.cache[g.ip].inum == inum
  {
    match CachedFrom(c, dev, inum, 0)
    case Some(i) => Cached(i, c[i := c[i].(ref := c[i].ref + 1)])
    case None =>
      match EmptyFrom(c, 0)
      case Some(i) => Cached(i, c[i := c[i].(dev := dev, inum := inum, ref := 1, busy := false, valid := false)])
      case None => NoInodes
  }

  /** No two live entries cache the same inode. */
  predicate UniqueCached(c: seq<Inode>)
  {
    forall i, j ::
      0 <= i < |c| && 0 <= j < |c| && c[i].ref > 0 && c[j].ref > 0 && c[i].dev == c[j].dev && c[i].inum == c[j].inum
      ==> i == j
  }

  /**
   * fs1_iget returns the live entry for (dev, inum) with one more
   * reference; without one it recycles the first free entry with ref 1
   * and no flags (the dinode is not read); it panics exactly when neither
   * exists. Only the returned entry changes.
   */
  lemma IgetFindsOrRecycles(c: seq<Inode>, dev: uint32, inum: uint32)
    ensures var g := Iget(c, dev, inum);
      (g.NoInodes? <==> forall i :: 0 <= i < |c| ==> c[i].ref != 0 && !(c[i].ref > 0 && c[i].dev == dev && c[i].inum == inum))
      && (g.Cached? ==>
            g.ip < |c| && |g.cache| == |c| && g.cache[g.ip].dev == dev && g.cache[g.ip].inum == inum
            && g.cache[g.ip].ref >= 1
            && (forall i :: 0 <= i < |c| && i != g.ip ==> g.cache[i] == c[i])
            && (c[g.ip].ref > 0 ==> c[g.ip].dev == dev && c[g.ip].inum == inum && g.cache[g.ip] == c[g.ip].(ref := c[g.ip].ref + 1))
            && (c[g.ip].ref <= 0 ==> !g.cache[g.ip].busy && !g.cache[g.ip].valid && g.cache[g.ip].ref == 1))
  {
    var g := Iget(c, dev, inum);
  }

  /** fs1_iget keeps the cache free of duplicates when no entry has a negative count. */
  lemma IgetKeepsUnique(c: seq<Inode>, dev: uint32, inum: uint32)
    requires UniqueCached(c) && forall i :: 0 <= i < |c| ==> c[i].ref >= 0
    requires Iget(c, dev, inum).Cached?
    ensures UniqueCached(Iget(c, dev, inum).cache)
  {
    var g := Iget(c, dev, inum);
    var c1 := g.cache;
    forall i, j |
      0 <= i < |c1| && 0 <= j < |c1| && c1[i].ref > 0 && c1[j].ref > 0 && c1[i].dev == c1[j].dev && c1[i].inum == c1[j].inum
      ensures i == j
    {
      if i != g.ip && j != g.ip {
        assert c1[i] == c[i] && c1[j] == c[j];
      }
    }
  }

  /** A second fs1_iget of the same inode returns the same entry, now with two more references. */
  lemma IgetTwice(c: seq<Inode>, dev: uint32, inum: uint32)
    requires Iget(c, dev, inum).Cached?
    ensures var g := Iget(c, dev, inum); var h := Iget(g.cache, dev, inum);
      h.Cached? && h.ip == g.ip && h.cache[h.ip].ref == g.cache[g.ip].ref + 1
  {
    var g := Iget(c, dev, inum);
    var c1 := g.cache;
    IgetFindsOrRecycles(c, dev, inum);
    var k := CachedFrom(c1, dev, inum, 0);
    assert k.Some? by {
      assert c1[g.ip].ref > 0 && c1[g.ip].dev == dev && c1[g.ip].inum == inum;
    }
  }

  // --------------------------------------------------------------- bmap

  /** What fs1_bmap gives: the disk block, the disk and the inode's addresses after, or a panic. */
  datatype Mapping = Mapped(addr: uint32, disk: Disk, addrs: seq<uint32>) | MapPanic

  /** The indirect block of a file, allocated first when addrs[NDIRECT] is 0. */
  function Indirect(d: Disk, a: seq<uint32>): (m: Mapping)
    requires |a| == NDIRECT + 1
    ensures m.Mapped? ==> |m.addrs| == NDIRECT + 1 && m.addrs == a[NDIRECT := m.addr]
  {
    if a[NDIRECT] != 0 then Mapped(a[NDIRECT], d, a)
    else
      match Balloc(d)
      case OutOfBlocks => MapPanic
      case Got(x, d1) => Mapped(x, d1, a[NDIRECT := x])
  }

  /**
   * fs1_bmap: the disk block holding block bn of a file with addresses a,
   * allocating the block (and the indirect block) when it is missing.
   */
  function Bmap(d: Disk, a: seq<uint32>, bn: nat): (m: Mapping)
    requires |a| == NDIRECT + 1
    ensures m.Mapped? ==> |m.addrs| == NDIRECT + 1
  {
    if bn < NDIRECT then
      if a[bn] != 0 then Mapped(a[bn], d, a)
      else
        match Balloc(d)
        case OutOfBlocks => MapPanic
        case Got(x, d1) => Mapped(x, d1, a[bn := x])
    else if bn < MAXFILE then MapEntry(Indirect(d, a), bn - NDIRECT)
    else MapPanic
  }

  /** Entry j of the indirect block that i found, allocated when it is 0. */
  function MapEntry(i: Mapping, j: nat): (m: Mapping)
    requires i.Mapped? ==> |i.addrs| == NDIRECT + 1
    requires j < NINDIRECT
    ensures m.Mapped? ==> i.Mapped? && m.addrs == i.addrs
  {
    match i
    case MapPanic => MapPanic
    case Mapped(ind, d1, a1) =>
      var e := Entry(Block(d1, ind), j);
      if e != 0 then Mapped(e, d1, a1)
      else
        match Balloc(d1)
        case OutOfBlocks => MapPanic
        case Got(x, d2) => Mapped(x, Put(d2, ind, SetEntry(Block(d2, ind), j, x)), a1)
  }

  /**
   * After fs1_bmap the file's block map sends bn to the block it returned.
   * (The indirect block is read through addrs[NDIRECT], so the boot block
   * must not be the one handed out for it: it is when the disk is sane.)
   */
  lemma BmapMaps(d: Disk, a: seq<uint32>, bn: nat)
    requires |a| == NDIRECT + 1 && Sane(d)
    requires Bmap(d, a, bn).Mapped?
    ensures var m := Bmap(d, a, bn); BlockAddr(m.disk, m.addrs, bn) == m.addr
  {
    if NDIRECT <= bn < MAXFILE {
      if a[NDIRECT] == 0 {
        BallocSane(d);
      }
      EntryMaps(Indirect(d, a), bn - NDIRECT);
    }
  }

  /** The indirect half of BmapMaps. */
  lemma EntryMaps(i: Mapping, j: nat)
    requires i.Mapped? && |i.addrs| == NDIRECT + 1 && i.addrs[NDIRECT] == i.addr && i.addr != 0 && j < NINDIRECT
    requires MapEntry(i, j).Mapped?
    ensures var m := MapEntry(i, j); BlockAddr(m.disk, m.addrs, NDIRECT + j) == m.addr
  {
    if Entry(Block(i.disk, i.addr), j) == 0 {
      var d2 := Balloc(i.disk).disk;
      SetEntryReadBack(Block(d2, i.addr), j, Balloc(i.disk).b, j);
    }
  }

  /** A block that is already mapped is returned as it is, with nothing changed. */
  lemma BmapKeepsMapped(d: Disk, a: seq<uint32>, bn: nat)
    requires |a| == NDIRECT + 1 && BlockAddr(d, a, bn) != 0
    ensures Bmap(d, a, bn) == Mapped(BlockAddr(d, a, bn), d, a)
  {
  }

  /** fs1_bmap with the mapped case taken first: the same function, in the order the proofs want. */
  function Locate(d: Disk, a: seq<uint32>, bn: nat): Mapping
    requires |a| == NDIRECT + 1
  {
    if BlockAddr(d, a, bn) != 0 then Mapped(BlockAddr(d, a, bn), d, a) else Bmap(d, a, bn)
  }

  lemma LocateIsBmap(d: Disk, a: seq<uint32>, bn: nat)
    requires |a| == NDIRECT + 1
    ensures Locate(d, a, bn) == Bmap(d, a, bn)
  {
  }

  /**
   * fs1_bmap panics past MAXFILE; below it, it panics only when it had to
   * allocate, and it does when the block is missing and the disk is full.
   */
  lemma BmapPanics(d: Disk, a: seq<uint32>, bn: nat)
    requires |a| == NDIRECT + 1
    ensures bn >= MAXFILE ==> Bmap(d, a, bn).MapPanic?
    ensures bn < MAXFILE && Bmap(d, a, bn).MapPanic? ==> BlockAddr(d, a, bn) == 0
    ensures bn < MAXFILE && BlockAddr(d, a, bn) == 0 && Balloc(d).OutOfBlocks? ==> Bmap(d, a, bn).MapPanic?
  {
    if NDIRECT <= bn < MAXFILE && a[NDIRECT] == 0 {
      assert Indirect(d, a).Mapped? ==> Indirect(d, a).disk == Balloc(d).disk;
    }
  }

  // ------------------------------------------------------------- itrunc

  /** The entry after truncation: size 0 and no block addresses. */
  function Emptied(ino: Inode): (e: Inode)
    ensures Addressed(e)
  {
    ino.(size := 0, addrs := seq(NDIRECT + 1, _ => 0))
  }

  /** The blocks a file holds: its direct blocks, the entries of its indirect block, and that block. */
  function FileBlocks(d: Disk, a: seq<uint32>): seq<nat>
    requires |a| == NDIRECT + 1
  {
    Nonzero(a[..NDIRECT]) + if a[NDIRECT] == 0 then [] else Nonzero(Entries(Block(d, a[NDIRECT]))) + [a[NDIRECT] as nat]
  }

  /** Every address of the file lies in the data area: above the bitmap and below the disk's size. */
  predicate InData(d: Disk, a: seq<uint32>)
    requires |a| == NDIRECT + 1
  {
    var sb := Sb(d);
    forall i :: 0 <= i < NDIRECT + 1 && a[i] != 0 ==> BBlock(sb.size, sb.ninodes) < a[i] < sb.size
  }

  /** What fs1_itrunc gives: the disk and the entry after, or the panic of freeing a free block. */
  datatype Trunc = Truncated(disk: Disk, ino: Inode) | TruncPanic

  /**
   * The frees of fs1_itrunc: the direct blocks, then the indirect block's
   * nonzero entries (read after the direct blocks are freed) and the
   * indirect block itself; None is the panic of a block already free.
   */
  function FreeBlocks(d: Disk, a: seq<uint32>): Option<Disk>
    requires |a| == NDIRECT + 1
  {
    match FreeAll(d, Nonzero(a[..NDIRECT]))
    case None => None
    case Some(d1) =>
      if a[NDIRECT] == 0 then Some(d1)
      else FreeAll(d1, Nonzero(Entries(Block(d1, a[NDIRECT]))) + [a[NDIRECT] as nat])
  }

  /** fs1_itrunc: free the file's blocks, then write back the emptied entry. */
  function Itrunc(d: Disk, ino: Inode): Trunc
    requires Addressed(ino)
  {
    match FreeBlocks(d, ino.addrs)
    case None => TruncPanic
    case Some(d2) => Truncated(Iupdate(d2, Emptied(ino)), Emptied(ino))
  }

  /** Writing a dinode back leaves the superblock and the bitmap as they were. */
  lemma IupdateKeepsBitmap(d: Disk, ino: Inode, c: nat)
    requires Addressed(ino) && ino.inum < Sb(d).ninodes
    ensures Sb(Iupdate(d, ino)) == Sb(d) && InUse(Iupdate(d, ino), Sb(d).ninodes, c) == InUse(d, Sb(d).ninodes, c)
  {
    var n := Sb(d).ninodes;
    InodesBeforeBitmap(ino.inum, n, c);
    PutDinodeKeepsBlocks(d, ino.inum, DinodeOf(ino), 1);
    PutDinodeKeepsBlocks(d, ino.inum, DinodeOf(ino), BBlock(c, n));
    assert Sb(Iupdate(d, ino)) == Sb(d);
  }

  /** The direct blocks' bitmap blocks lie below every data block, so freeing them keeps the indirect block. */
  lemma DirectFreesKeepIndirect(d: Disk, a: seq<uint32>)
    requires |a| == NDIRECT + 1 && InData(d, a) && a[NDIRECT] != 0
    requires FreeAll(d, Nonzero(a[..NDIRECT])).Some?
    ensures Block(FreeAll(d, Nonzero(a[..NDIRECT])).value, a[NDIRECT]) == Block(d, a[NDIRECT])
  {
    var sb := Sb(d);
    var direct := Nonzero(a[..NDIRECT]);
    forall i | 0 <= i < |direct|
      ensures BBlock(direct[i], sb.ninodes) != a[NDIRECT]
    {
      NonzeroMembers(a[..NDIRECT], direct[i]);
      var k :| 0 <= k < NDIRECT && a[..NDIRECT][k] == direct[i];
      assert a[k] == direct[i];
      BitmapBlockBound(direct[i], sb.size, sb.ninodes);
    }
    FreeAllKeeps(d, direct, a[NDIRECT]);
  }

  /** When the file's addresses lie in the data area, fs1_itrunc frees exactly the file's blocks, in order. */
  lemma FreeBlocksIsFreeAll(d: Disk, a: seq<uint32>)
    requires |a| == NDIRECT + 1 && InData(d, a)
    ensures FreeBlocks(d, a) == FreeAll(d, FileBlocks(d, a))
  {
    var direct := Nonzero(a[..NDIRECT]);
    if a[NDIRECT] == 0 {
      assert FileBlocks(d, a) == direct;
    } else {
      var rest := Nonzero(Entries(Block(d, a[NDIRECT]))) + [a[NDIRECT] as nat];
      FreeAllConcat(d, direct, rest);
      if FreeAll(d, direct).Some? {
        DirectFreesKeepIndirect(d, a);
      }
    }
  }

  /** fs1_itrunc panics exactly when a block of the file is already free or held twice. */
  lemma ItruncPanics(d: Disk, ino: Inode)
    requires Addressed(ino) && InData(d, ino.addrs)
    ensures Itrunc(d, ino).Truncated? <==> Distinct(FileBlocks(d, ino.addrs)) && AllInUse(d, Sb(d).ninodes, FileBlocks(d, ino.addrs))
  {
    FreeBlocksIsFreeAll(d, ino.addrs);
    FreeAllSucceeds(d, FileBlocks(d, ino.addrs));
  }

  /**
   * After fs1_itrunc the entry and its dinode have size 0 and no
   * addresses, and the superblock is as before.
   */
  lemma ItruncEmpties(d: Disk, ino: Inode)
    requires Addressed(ino) && InData(d, ino.addrs) && ino.inum < Sb(d).ninodes
    requires Itrunc(d, ino).Truncated?
    ensures var t := Itrunc(d, ino);
      t.ino == Emptied(ino) && t.ino.size == 0 && (forall i :: 0 <= i < NDIRECT + 1 ==> t.ino.addrs[i] == 0)
      && DinodeAt(t.disk, ino.inum) == DinodeOf(t.ino) && Sb(t.disk) == Sb(d)
  {
    var fb := FileBlocks(d, ino.addrs);
    FreeBlocksIsFreeAll(d, ino.addrs);
    var d2 := FreeAll(d, fb).value;
    FreeAllMarks(d, fb, 0);
    DinodeReadBack(d2, ino.inum, DinodeOf(Emptied(ino)));
    IupdateKeepsBitmap(d2, Emptied(ino), 0);
  }

  /** After fs1_itrunc, block c is in use exactly when it was and is not one of the file's blocks. */
  lemma ItruncFreesBlocks(d: Disk, ino: Inode, c: nat)
    requires Addressed(ino) && InData(d, ino.addrs) && ino.inum < Sb(d).ninodes
    requires Itrunc(d, ino).Truncated?
    ensures InUse(Itrunc(d, ino).disk, Sb(d).ninodes, c) == (c !in FileBlocks(d, ino.addrs) && InUse(d, Sb(d).ninodes, c))
  {
    var fb := FileBlocks(d, ino.addrs);
    FreeBlocksIsFreeAll(d, ino.addrs);
    var d2 := FreeAll(d, fb).value;
    FreeAllMarks(d, fb, c);
    IupdateKeepsBitmap(d2, Emptied(ino), c);
  }

  // ------------------------------------------------------ ialloc / iput

  /** fs1_idup: one more reference to entry ip. */
  function Idup(c: seq<Inode>, ip: nat): (c1: seq<Inode>)
    requires ip < |c|
    ensures |c1| == |c|
  {
    c[ip := c[ip].(ref := c[ip].ref + 1)]
  }

  /** What fs1_iput gives: the disk and the cache after, or a panic. */
  datatype Release = Released(disk: Disk, cache: seq<Inode>) | ReleasePanic

  /** Whether fs1_iput frees the inode: the last reference to a valid inode without links. */
  predicate LastLink(ino: Inode)
  {
    ino.ref == 1 && ino.valid && ino.nlink == 0
  }

  /**
   * fs1_iput on entry ip: on the last reference to a valid inode without
   * links it locks the entry (a panic if it is locked already), truncates
   * the file, writes back type 0 and clears the flags; in every case the
   * reference count drops by one.
   */
  function Iput(d: Disk, c: seq<Inode>, ip: nat): Release
    requires ip < |c| && Addressed(c[ip])
  {
    var ino := c[ip];
    if LastLink(ino) then
      if ino.busy then ReleasePanic
      else
        match Itrunc(d, ino.(busy := true))
        case TruncPanic => ReleasePanic
        case Truncated(d1, ino1) =>
          var ino2 := ino1.(kind := 0);
          Released(Iupdate(d1, ino2), c[ip := ino2.(busy := false, valid := false, ref := ino.ref - 1)])
    else Released(d, c[ip := ino.(ref := ino.ref - 1)])
  }

  /** fs1_iput undoes fs1_idup: disk and cache are as before. */
  lemma IdupThenIput(d: Disk, c: seq<Inode>, ip: nat)
    requires ip < |c| && Addressed(c[ip]) && c[ip].ref >= 1
    ensures Iput(d, Idup(c, ip), ip) == Released(d, c)
  {
    assert Idup(c, ip)[ip := c[ip]] == c;
  }

  /** Anything but the last reference to an unlinked valid inode only loses one reference. */
  lemma IputDrops(d: Disk, c: seq<Inode>, ip: nat)
    requires ip < |c| && Addressed(c[ip]) && !LastLink(c[ip])
    ensures var r := Iput(d, c, ip);
      r.Released? && r.disk == d && |r.cache| == |c| && r.cache[ip].ref == c[ip].ref - 1
      && r.cache[ip].(ref := c[ip].ref) == c[ip]
      && forall i :: 0 <= i < |c| && i != ip ==> r.cache[i] == c[i]
  {
  }

  /**
   * On the last reference to an unlinked valid inode, fs1_iput panics
   * exactly when the entry is locked or a block of the file is already free
   * or held twice.
   */
  lemma IputPanics(d: Disk, c: seq<Inode>, ip: nat)
    requires ip < |c| && Addressed(c[ip]) && LastLink(c[ip])
    requires InData(d, c[ip].addrs) && c[ip].inum < Sb(d).ninodes
    ensures var fb := FileBlocks(d, c[ip].addrs);
      Iput(d, c, ip).ReleasePanic? <==> c[ip].busy || !(Distinct(fb) && AllInUse(d, Sb(d).ninodes, fb))
  {
    if !c[ip].busy {
      ItruncPanics(d, c[ip].(busy := true));
    }
  }

  /**
   * When fs1_iput frees an inode, the dinode on disk has type 0, size 0
   * and no addresses, the superblock is as before, and the entry has no
   * references and no flags; no other entry changes.
   */
  lemma IputFrees(d: Disk, c: seq<Inode>, ip: nat)
    requires ip < |c| && Addressed(c[ip]) && LastLink(c[ip])
    requires InData(d, c[ip].addrs) && c[ip].inum < Sb(d).ninodes
    requires Iput(d, c, ip).Released?
    ensures var r := Iput(d, c, ip); var di := DinodeAt(r.disk, c[ip].inum);
      di.kind == 0 && di.size == 0 && (forall i :: 0 <= i < NDIRECT + 1 ==> di.addrs[i] == 0)
      && Sb(r.disk) == Sb(d)
      && |r.cache| == |c| && r.cache[ip].ref == 0 && !r.cache[ip].busy && !r.cache[ip].valid
      && r.cache[ip].inum == c[ip].inum && r.cache[ip].kind == 0
      && forall i :: 0 <= i < |c| && i != ip ==> r.cache[i] == c[i]
  {
    var ino := c[ip].(busy := true);
    ItruncEmpties(d, ino);
    var t := Itrunc(d, ino);
    var ino2 := t.ino.(kind := 0);
    DinodeReadBack(t.disk, ino2.inum, DinodeOf(ino2));
    IupdateKeepsBitmap(t.disk, ino2, 0);
  }

  /** After fs1_iput frees a file, block b is in use exactly when it was and is not one of the file's blocks. */
  lemma IputFreesBlocks(d: Disk, c: seq<Inode>, ip: nat, b: nat)
    requires ip < |c| && Addressed(c[ip]) && LastLink(c[ip])
    requires InData(d, c[ip].addrs) && c[ip].inum < Sb(d).ninodes
    requires Iput(d, c, ip).Released?
    ensures InUse(Iput(d, c, ip).disk, Sb(d).ninodes, b) == (b !in FileBlocks(d, c[ip].addrs) && InUse(d, Sb(d).ninodes, b))
  {
    var ino := c[ip].(busy := true);
    ItruncEmpties(d, ino);
    ItruncFreesBlocks(d, ino, b);
    var t := Itrunc(d, ino);
    IupdateKeepsBitmap(t.disk, t.ino.(kind := 0), b);
  }

  /** What fs1_ialloc gives: the disk, the new entry and the cache after, or a panic. */
  datatype Creation = Created(disk: Disk, ip: nat, cache: seq<Inode>) | CreatePanic

  /**
   * fs1_ialloc: the first dinode from 1 on with type 0 is rewritten as a
   * zeroed dinode of the given type and fetched with fs1_iget; it panics
   * when every dinode is taken.
   */
  function Ialloc(d: Disk, c: seq<Inode>, dev: uint32, kind: int16): (r: Creation)
    ensures r.Created? ==> r.ip < |r.cache| == |c|
  {
    match FreeInodeFrom(d, Sb(d).ninodes, 1)
    case None => CreatePanic
    case Some(inum) =>
      match Iget(c, dev, inum as uint32)
      case NoInodes => CreatePanic
      case Cached(ip, c1) => Created(PutDinode(d, inum, FreshDinode(kind)), ip, c1)
  }

  /**
   * fs1_ialloc takes the lowest free dinode from 1 on, gives it the type
   * and zeroes the rest, and returns the cache entry for it; it panics when
   * no dinode from 1 on is free.
   */
  lemma IallocTakesLowest(d: Disk, c: seq<Inode>, dev: uint32, kind: int16)
    ensures var r := Ialloc(d, c, dev, kind); var n := Sb(d).ninodes;
      ((forall j :: 1 <= j < n ==> DinodeAt(d, j).kind != 0) ==> r.CreatePanic?)
      && (r.Created? ==>
            var inum := r.cache[r.ip].inum as nat;
            r.ip < |c| && 1 <= inum < n && r.cache[r.ip].dev == dev
            && DinodeAt(d, inum).kind == 0 && (forall j :: 1 <= j < inum ==> DinodeAt(d, j).kind != 0)
            && DinodeAt(r.disk, inum) == FreshDinode(kind) && Sb(r.disk) == Sb(d))
  {
    var n := Sb(d).ninodes;
    FreeInodeLowest(d, n, 1);
    var r := Ialloc(d, c, dev, kind);
    if r.Created? {
      var inum := FreeInodeFrom(d, n, 1).value;
      IgetFindsOrRecycles(c, dev, inum as uint32);
      DinodeReadBack(d, inum, FreshDinode(kind));
      PutDinodeKeepsBlocks(d, inum, FreshDinode(kind), 1);
    }
  }

  /** fs1_ialloc rewrites only the dinode it takes. */
  lemma IallocKeepsOthers(d: Disk, c: seq<Inode>, dev: uint32, kind: int16, j: nat)
    requires Ialloc(d, c, dev, kind).Created?
    requires j != Ialloc(d, c, dev, kind).cache[Ialloc(d, c, dev, kind).ip].inum as nat
    ensures DinodeAt(Ialloc(d, c, dev, kind).disk, j) == DinodeAt(d, j)
  {
    var inum := FreeInodeFrom(d, Sb(d).ninodes, 1).value;
    IgetFindsOrRecycles(c, dev, inum as uint32);
    DinodeOthers(d, inum, FreshDinode(kind), j);
  }

  /** Once the first free dinode has a nonzero type, the next free one lies above it. */
  lemma NextFreeAbove(d: Disk, n: nat, inum: nat, kind: int16)
    requires FreeInodeFrom(d, n, 1) == Some(inum) && kind != 0
    ensures var r := FreeInodeFrom(PutDinode(d, inum, FreshDinode(kind)), n, 1); r.Some? ==> r.value > inum
  {
    var d1 := PutDinode(d, inum, FreshDinode(kind));
    FreeInodeLowest(d, n, 1);
    FreeInodeLowest(d1, n, 1);
    var r := FreeInodeFrom(d1, n, 1);
    if r.Some? && r.value <= inum {
      if r.value == inum {
        DinodeReadBack(d, inum, FreshDinode(kind));
      } else {
        DinodeOthers(d, inum, FreshDinode(kind), r.value);
      }
    }
  }

  /** Two fs1_ialloc calls, the first with a nonzero type, hand out increasing inode numbers. */
  lemma IallocTwice(d: Disk, c: seq<Inode>, dev: uint32, kind: int16, kind2: int16)
    requires kind != 0 && Ialloc(d, c, dev, kind).Created?
    requires var r := Ialloc(d, c, dev, kind); Ialloc(r.disk, r.cache, dev, kind2).Created?
    ensures var r := Ialloc(d, c, dev, kind); var r2 := Ialloc(r.disk, r.cache, dev, kind2);
      r2.cache[r2.ip].inum > r.cache[r.ip].inum
  {
    var n := Sb(d).ninodes;
    var inum := FreeInodeFrom(d, n, 1).value;
    var d1 := PutDinode(d, inum, FreshDinode(kind));
    PutDinodeKeepsBlocks(d, inum, FreshDinode(kind), 1);
    assert Sb(d1) == Sb(d);
    NextFreeAbove(d, n, inum, kind);
  }

  // ------------------------------------------------------ readi / writei

  /** A byte offset and a count within one block: the rest of the block from there. */
  lemma SameBlock(off: nat, k: nat)
    requires off % BSIZE + k < BSIZE
    ensures (off + k) / BSIZE == off / BSIZE && (off + k) % BSIZE == off % BSIZE + k
  {
    assert off == BSIZE * (off / BSIZE) + off % BSIZE;
  }

  /**
   * The count fs1_readi settles on: -1 when off lies past the end or
   * off + n wraps around in 32 bits, otherwise n cut back to the end of
   * the file.
   */
  function ReadCount(size: uint32, off: uint32, n: uint32): int
  {
    if off > size || (off + n) % U32 < off then -1
    else if off + n > size then size - off
    else n
  }

  lemma ReadCountBounds(size: uint32, off: uint32, n: uint32)
    ensures ReadCount(size, off, n) == -1 <==> off > size || off + n >= U32
    ensures ReadCount(size, off, n) != -1 ==>
              ReadCount(size, off, n) == Min(n, size - off) && off + ReadCount(size, off, n) <= size
  {
  }

  /** What a run of block copies gives: the disk and the addresses after, and the bytes read. */
  datatype Transfer = Moved(disk: Disk, addrs: seq<uint32>, data: seq<byte>) | TransferPanic

  /** t with p in front of the bytes it read. */
  function Prefixed(p: seq<byte>, t: Transfer): (r: Transfer)
    ensures r.Moved? == t.Moved?
    ensures t.Moved? ==> |r.data| == |p| + |t.data|
  {
    if t.Moved? then t.(data := p + t.data) else t
  }

  /**
   * The copy loop of fs1_readi: todo bytes from offset off on, one block
   * (or the rest of one) at a time, each block found with fs1_bmap (which
   * allocates a missing one).
   */
  function ReadFrom(d: Disk, a: seq<uint32>, off: nat, todo: nat): (t: Transfer)
    requires |a| == NDIRECT + 1
    ensures t.Moved? ==> |t.addrs| == NDIRECT + 1 && |t.data| == todo
    decreases todo, 2
  {
    if todo == 0 then Moved(d, a, []) else ReadRound(d, a, off, todo)
  }

  /** One round of the copy loop: the bytes of the block holding off from off on (at most todo), then the rest. */
  function ReadRound(d: Disk, a: seq<uint32>, off: nat, todo: nat): (t: Transfer)
    requires |a| == NDIRECT + 1 && todo > 0
    ensures t.Moved? ==> |t.addrs| == NDIRECT + 1 && |t.data| == todo
    decreases todo, 1
  {
    var m := Min(todo, BSIZE - off % BSIZE);
    ReadBlock(d, a, off, m, todo - m)
  }

  /** fs1_bmap for the block holding off, m bytes of it from off on, then rest bytes after them. */
  function ReadBlock(d: Disk, a: seq<uint32>, off: nat, m: nat, rest: nat): (t: Transfer)
    requires |a| == NDIRECT + 1 && 0 < m && off % BSIZE + m <= BSIZE
    ensures t.Moved? ==> |t.addrs| == NDIRECT + 1 && |t.data| == m + rest
    decreases m + rest, 0
  {
    match Locate(d, a, off / BSIZE)
    case MapPanic => TransferPanic
    case Mapped(x, d1, a1) => Prefixed(Block(d1, x)[off % BSIZE .. off % BSIZE + m], ReadFrom(d1, a1, off + m, rest))
  }

  /** Every byte from off to off + todo lies in a block the file already has. */
  predicate AllMapped(d: Disk, a: seq<uint32>, off: nat, todo: nat)
    requires |a| == NDIRECT + 1
  {
    forall p :: off <= p < off + todo ==> BlockAddr(d, a, p / BSIZE) != 0
  }

  /** The file's byte at offset p, through its block map. */
  function FileByte(d: Disk, a: seq<uint32>, p: nat): byte
    requires |a| == NDIRECT + 1
  {
    Block(d, BlockAddr(d, a, p / BSIZE))[p % BSIZE]
  }

  /** The todo bytes of the file from off on. */
  function FileBytes(d: Disk, a: seq<uint32>, off: nat, todo: nat): (r: seq<byte>)
    requires |a| == NDIRECT + 1
    ensures |r| == todo
  {
    seq<byte>(todo, k requires 0 <= k < todo => FileByte(d, a, off + k))
  }

  /** The file's bytes from off on: the first m within off's block, then the rest. */
  lemma FileBytesSplit(d: Disk, a: seq<uint32>, off: nat, todo: nat, m: nat)
    requires |a| == NDIRECT + 1 && m <= todo && off % BSIZE + m <= BSIZE
    ensures FileBytes(d, a, off, todo)
            == Block(d, BlockAddr(d, a, off / BSIZE))[off % BSIZE .. off % BSIZE + m] + FileBytes(d, a, off + m, todo - m)
  {
    var all := FileBytes(d, a, off, todo);
    var chunk := Block(d, BlockAddr(d, a, off / BSIZE))[off % BSIZE .. off % BSIZE + m];
    var rest := FileBytes(d, a, off + m, todo - m);
    forall k | 0 <= k < todo
      ensures all[k] == (chunk + rest)[k]
    {
      if k < m {
        SameBlock(off, k);
      } else {
        assert off + k == (off + m) + (k - m);
      }
    }
  }

  /** The first byte's block is mapped, and so is everything after the first m bytes. */
  lemma AllMappedRest(d: Disk, a: seq<uint32>, off: nat, todo: nat, m: nat)
    requires |a| == NDIRECT + 1 && AllMapped(d, a, off, todo) && 0 < m <= todo
    ensures BlockAddr(d, a, off / BSIZE) != 0 && AllMapped(d, a, off + m, todo - m)
  {
    assert off <= off < off + todo;
    forall p | off + m <= p < off + m + (todo - m)
      ensures BlockAddr(d, a, p / BSIZE) != 0
    {
      assert off <= p < off + todo;
    }
  }

  /** One round of the copy loop in front of a run that read rest and changed nothing. */
  lemma ReadFromCons(d: Disk, a: seq<uint32>, off: nat, todo: nat, m: nat, rest: seq<byte>)
    requires |a| == NDIRECT + 1 && todo > 0 && BlockAddr(d, a, off / BSIZE) != 0
    requires m == Min(todo, BSIZE - off % BSIZE)
    requires ReadFrom(d, a, off + m, todo - m) == Moved(d, a, rest)
    ensures ReadFrom(d, a, off, todo) == Moved(d, a, Block(d, BlockAddr(d, a, off / BSIZE))[off % BSIZE .. off % BSIZE + m] + rest)
  {
    assert ReadRound(d, a, off, todo) == ReadBlock(d, a, off, m, todo - m);
  }

  /** Over blocks the file already has, the copy loop reads the file's bytes and changes nothing. */
  lemma {:induction false} ReadFromMapped(d: Disk, a: seq<uint32>, off: nat, todo: nat)
    requires |a| == NDIRECT + 1 && AllMapped(d, a, off, todo)
    ensures ReadFrom(d, a, off, todo) == Moved(d, a, FileBytes(d, a, off, todo))
    decreases todo
  {
    if todo > 0 {
      var m := Min(todo, BSIZE - off % BSIZE);
      AllMappedRest(d, a, off, todo, m);
      ReadFromMapped(d, a, off + m, todo - m);
      ReadFromCons(d, a, off, todo, m, FileBytes(d, a, off + m, todo - m));
      FileBytesSplit(d, a, off, todo, m);
    }
  }

  /** What fs1_readi gives: the return value, the bytes copied to dst and the state after, or a panic. */
  datatype Reading = Read(r: Syscall.int32, data: seq<byte>, disk: Disk, ino: Inode) | ReadPanic

  function Readi(d: Disk, ino: Inode, off: uint32, n: uint32): (rd: Reading)
    requires Addressed(ino)
    ensures rd.Read? ==> Addressed(rd.ino) && rd.ino == ino.(addrs := rd.ino.addrs)
    ensures rd.Read? && rd.r == n as int ==> |rd.data| == n && off as int + n <= ino.size
  {
    var count := ReadCount(ino.size, off, n);
    if count == -1 then Read(-1, [], d, ino)
    else
      match ReadFrom(d, ino.addrs, off, count)
      case TransferPanic => ReadPanic
      case Moved(d1, a1, data) => Read(Syscall.Int32Of(count), data, d1, ino.(addrs := a1))
  }

  /**
   * fs1_readi refuses with -1 exactly when off lies past the end or off + n
   * wraps; otherwise it copies min(n, size - off) bytes and returns that
   * count as a C int, which is the count itself for any size a file can
   * reach.
   */
  lemma ReadiCount(d: Disk, ino: Inode, off: uint32, n: uint32)
    requires Addressed(ino)
    ensures var rd := Readi(d, ino, off, n);
      (off > ino.size || off + n >= U32 ==> rd == Read(-1, [], d, ino))
      && (off <= ino.size && off + n < U32 && rd.Read? ==>
            |rd.data| == Min(n, ino.size - off) && (ino.size <= MAXFILE * BSIZE ==> rd.r == Min(n, ino.size - off)))
  {
    ReadCountBounds(ino.size, off, n);
  }

  /** Over blocks the file already has, fs1_readi gives the file's bytes at off and changes nothing. */
  lemma ReadiMapped(d: Disk, ino: Inode, off: uint32, n: uint32)
    requires Addressed(ino) && off <= ino.size && off + n < U32
    requires AllMapped(d, ino.addrs, off, Min(n, ino.size - off))
    ensures Readi(d, ino, off, n)
            == Read(Syscall.Int32Of(Min(n, ino.size - off)), FileBytes(d, ino.addrs, off, Min(n, ino.size - off)), d, ino)
  {
    ReadCountBounds(ino.size, off, n);
    ReadFromMapped(d, ino.addrs, off, Min(n, ino.size - off));
  }

  /** What a run of block writes gives: the disk and the addresses after, or a panic. */
  datatype Store = Stored(disk: Disk, addrs: seq<uint32>) | StorePanic

  /**
   * The copy loop of fs1_writei: the bytes of src from offset off on, one
   * block (or the rest of one) at a time, each block found with fs1_bmap.
   */
  function WriteFrom(d: Disk, a: seq<uint32>, off: nat, src: seq<byte>): (w: Store)
    requires |a| == NDIRECT + 1
    ensures w.Stored? ==> |w.addrs| == NDIRECT + 1
    decreases |src|, 2
  {
    if |src| == 0 then Stored(d, a) else WriteRound(d, a, off, src)
  }

  /** One round of the write loop: as much of src as fits in the block holding off, then the rest. */
  function WriteRound(d: Disk, a: seq<uint32>, off: nat, src: seq<byte>): (w: Store)
    requires |a| == NDIRECT + 1 && |src| > 0
    ensures w.Stored? ==> |w.addrs| == NDIRECT + 1
    decreases |src|, 1
  {
    var m := Min(|src|, BSIZE - off % BSIZE);
    WriteBlock(d, a, off, src[..m], src[m..])
  }

  /** fs1_bmap for the block holding off, part written into it from off on, then rest after it. */
  function WriteBlock(d: Disk, a: seq<uint32>, off: nat, part: seq<byte>, rest: seq<byte>): (w: Store)
    requires |a| == NDIRECT + 1 && 0 < |part| && off % BSIZE + |part| <= BSIZE
    ensures w.Stored? ==> |w.addrs| == NDIRECT + 1
    decreases |part| + |rest|, 0
  {
    match Bmap(d, a, off / BSIZE)
    case MapPanic => StorePanic
    case Mapped(x, d1, a1) => WriteFrom(Put(d1, x, Splice(Block(d1, x), off % BSIZE, part)), a1, off + |part|, rest)
  }

  /** Whether fs1_writei takes the request: off within the file, no wrap, not past MAXFILE blocks. */
  predicate WriteAccepted(size: uint32, off: uint32, n: uint32)
  {
    !(off > size || (off + n) % U32 < off) && !(off + n > MAXFILE * BSIZE)
  }

  lemma WriteAcceptedBounds(size: uint32, off: uint32, n: uint32)
    ensures WriteAccepted(size, off, n) <==> off <= size && off + n <= MAXFILE * BSIZE
  {
  }

  /** What fs1_writei gives: the return value and the state after, or a panic. */
  datatype Written = Wrote(r: Syscall.int32, disk: Disk, ino: Inode) | WritePanic

  /**
   * fs1_writei writing the n bytes of src at off. As written it writes the
   * inode back only when the file grows; `fixed` writes it back always, so
   * blocks fs1_bmap added inside the old size reach the disk too.
   */
  function Writei(d: Disk, ino: Inode, src: seq<byte>, off: uint32, n: uint32, fixed: bool): Written
    requires Addressed(ino) && |src| == n
  {
    if !WriteAccepted(ino.size, off, n) then Wrote(-1, d, ino)
    else
      match WriteFrom(d, ino.addrs, off, src)
      case StorePanic => WritePanic
      case Stored(d1, a1) =>
        var grown := n > 0 && off + n > ino.size;
        var ino1 := ino.(addrs := a1, size := if grown then off + n else ino.size);
        Wrote(Syscall.Int32Of(n), if grown || fixed then Iupdate(d1, ino1) else d1, ino1)
  }

  /**
   * fs1_writei refuses with -1, changing nothing, exactly when off lies
   * past the end, off + n wraps or the file would pass MAXFILE blocks.
   */
  lemma WriteiRefuses(d: Disk, ino: Inode, src: seq<byte>, off: uint32, n: uint32, fixed: bool)
    requires Addressed(ino) && |src| == n
    ensures Writei(d, ino, src, off, n, fixed) == Wrote(-1, d, ino) <==> off > ino.size || off + n > MAXFILE * BSIZE
  {
    WriteAcceptedBounds(ino.size, off, n);
  }

  /** An accepted fs1_writei returns n, and the size becomes max(size, off + n). */
  lemma WriteiSize(d: Disk, ino: Inode, src: seq<byte>, off: uint32, n: uint32, fixed: bool)
    requires Addressed(ino) && |src| == n && off <= ino.size && off + n <= MAXFILE * BSIZE
    requires Writei(d, ino, src, off, n, fixed).Wrote?
    ensures var w := Writei(d, ino, src, off, n, fixed);
      w.r == n && w.ino.size == Max(ino.size, off + n) && Addressed(w.ino)
  {
    WriteAcceptedBounds(ino.size, off, n);
  }

  /** With the fix, the disk's dinode agrees with the cached inode after every write. */
  lemma WriteiFixedWritesBack(d: Disk, ino: Inode, src: seq<byte>, off: uint32, n: uint32)
    requires Addressed(ino) && |src| == n && DinodeAt(d, ino.inum) == DinodeOf(ino)
    requires Writei(d, ino, src, off, n, true).Wrote?
    ensures var w := Writei(d, ino, src, off, n, true); Addressed(w.ino) && DinodeAt(w.disk, ino.inum) == DinodeOf(w.ino)
  {
    var w := Writei(d, ino, src, off, n, true);
    if WriteAccepted(ino.size, off, n) {
      DinodeReadBack(WriteFrom(d, ino.addrs, off, src).disk, ino.inum, DinodeOf(w.ino));
    }
  }

  /** fs1_balloc touches only the bitmap and the block it hands out, both past every inode block. */
  lemma BallocKeepsInodes(d: Disk, inum: nat)
    requires Sane(d) && Balloc(d).Got? && inum < Sb(d).ninodes
    ensures Block(Balloc(d).disk, IBlock(inum)) == Block(d, IBlock(inum))
  {
    var sb := Sb(d);
    BallocSane(d);
    BallocFromLowest(d, sb.ninodes, sb.size, 0);
    InodesBeforeBitmap(inum, sb.ninodes, Balloc(d).b);
    InodesBeforeBitmap(inum, sb.ninodes, sb.size);
  }

  /** Inside the file, fs1_writei as written keeps the size and does not write the dinode back. */
  lemma WriteiInsideAsWritten(d: Disk, ino: Inode, src: seq<byte>, off: uint32, n: uint32)
    requires Addressed(ino) && |src| == n && off + n <= ino.size && ino.size <= MAXFILE * BSIZE
    requires WriteFrom(d, ino.addrs, off, src).Stored?
    ensures var st := WriteFrom(d, ino.addrs, off, src);
      Writei(d, ino, src, off, n, false) == Wrote(Syscall.Int32Of(n), st.disk, ino.(addrs := st.addrs))
  {
    WriteAcceptedBounds(ino.size, off, n);
  }

  /** A one-byte write into a missing direct block: fs1_bmap takes the lowest free block, then the byte is stored in it. */
  lemma WriteIntoHole(d: Disk, a: seq<uint32>, off: nat, v: byte)
    requires |a| == NDIRECT + 1 && off / BSIZE < NDIRECT && a[off / BSIZE] == 0 && Balloc(d).Got?
    ensures var x := Balloc(d).b; var d1 := Balloc(d).disk;
      WriteFrom(d, a, off, [v]) == Stored(Put(d1, x, Splice(Block(d1, x), off % BSIZE, [v])), a[off / BSIZE := x])
  {
    var x := Balloc(d).b;
    var d1 := Balloc(d).disk;
    var d2 := Put(d1, x, Splice(Block(d1, x), off % BSIZE, [v]));
    assert Bmap(d, a, off / BSIZE) == Mapped(x, d1, a[off / BSIZE := x]);
    assert [v][..1] == [v] && [v][1..] == [];
    assert WriteFrom(d2, a[off / BSIZE := x], off + 1, []) == Stored(d2, a[off / BSIZE := x]);
    assert WriteRound(d, a, off, [v]) == WriteBlock(d, a, off, [v], []);
  }

  /**
   * As written, a one-byte write inside the file into a direct block the
   * file does not have yet (a hole below its size) takes a new block for
   * the cached entry but leaves the dinode on disk without it.
   */
  lemma WriteiLosesAddrsAsWritten(d: Disk, ino: Inode, v: byte, off: uint32)
    requires Addressed(ino) && Sane(d) && ino.inum < Sb(d).ninodes && DinodeAt(d, ino.inum) == DinodeOf(ino)
    requires off < ino.size <= MAXFILE * BSIZE && off / BSIZE < NDIRECT && ino.addrs[off / BSIZE] == 0 && Balloc(d).Got?
    ensures var w := Writei(d, ino, [v], off, 1, false);
      w.Wrote? && w.r == 1 && w.ino.addrs[off / BSIZE] != 0 && DinodeAt(w.disk, ino.inum).addrs[off / BSIZE] == 0
  {
    var x := Balloc(d).b;
    var d1 := Balloc(d).disk;
    BallocSane(d);
    BallocKeepsInodes(d, ino.inum);
    InodesBeforeBitmap(ino.inum, Sb(d).ninodes, Sb(d).size);
    WriteIntoHole(d, ino.addrs, off, v);
    WriteiInsideAsWritten(d, ino, [v], off, 1);
    var d2 := Put(d1, x, Splice(Block(d1, x), off % BSIZE, [v]));
    assert Block(d2, IBlock(ino.inum)) == Block(d, IBlock(ino.inum));
    assert DinodeAt(d2, ino.inum) == DinodeAt(d, ino.inum);
  }
}
