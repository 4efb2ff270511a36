/**
 * The state fs1 works on (kernel/fs/fs1.c): the disk, as the buffer cache
 * sees it, and the inode cache fs1_icache.inode. Each function of fs1.c is
 * a method that changes these in place, step by step as the source does,
 * and is proved to end in the state the value-level definition in Fs1
 * gives (or to panic exactly when it panics). One device; the lock, the
 * log and sleeping on busy buffers are left out.
 */
module Fs1State {
  import opened Common
  import opened Fs1Layout
  import opened Fs1Disk
  import opened Fs1

  /** Block b of a bitmap group starting at base: its bitmap block, byte and bit. */
  lemma GroupBit(base: nat, bi: nat, ninodes: nat)
    requires base % BPB == 0 && bi < BPB
    ensures BBlock(base + bi, ninodes) == BBlock(base, ninodes)
    ensures BitByte(base + bi) == bi / 8 && BitIndex(base + bi) == bi % 8
  {
    assert (base + bi) / BPB == base / BPB;
    assert (base + bi) % BPB == bi;
  }

  /** Setting bit bi of the bitmap block of the group from base marks block base + bi. */
  lemma MarkInGroup(d: Disk, base: nat, bi: nat, n: nat)
    requires base % BPB == 0 && bi < BPB
    ensures var blk := Block(d, BBlock(base, n));
      Put(d, BBlock(base, n), blk[bi / 8 := SetBit(blk[bi / 8], bi % 8)]) == Marked(d, n, base + bi)
  {
    GroupBit(base, bi, n);
  }

  /** Nonzero from index i: the address at i, if it is one, then the rest. */
  lemma NonzeroAt(s: seq<uint32>, i: nat)
    requires i < |s|
    ensures Nonzero(s[i..]) == (if s[i] != 0 then [s[i] as nat] else []) + Nonzero(s[i + 1..])
  {
    assert s[i..][1..] == s[i + 1..];
  }

  /** Freeing x, then rest. */
  lemma FreeOne(d: Disk, x: nat, rest: seq<nat>)
    ensures FreeAll(d, [x] + rest) == match Bfree(d, x) case None => None case Some(d1) => FreeAll(d1, rest)
  {
    assert ([x] + rest)[1..] == rest;
  }

  /** Bytes put in front of a run one after the other are the two runs joined. */
  lemma PrefixedTwice(w: Transfer, p: seq<byte>, q: seq<byte>, u: Transfer, t: Transfer)
    requires w == Prefixed(p, u) && u == Prefixed(q, t)
    ensures w == Prefixed(p + q, t)
  {
    if t.Moved? {
      assert p + (q + t.data) == (p + q) + t.data;
    }
  }

  /** One round of the copy loop of fs1_readi, with what fs1_bmap gave mp, the round's length m, the next offset off' and what is left todo' named. */
  lemma ReadStep(d: Disk, a: seq<uint32>, off: nat, todo: nat, mp: Mapping, m: nat, off': nat, todo': nat)
    requires |a| == NDIRECT + 1 && todo > 0 && mp == Locate(d, a, off / BSIZE) && mp.Mapped?
    requires m == Min(todo, BSIZE - off % BSIZE) && off' == off + m && todo' == todo - m
    ensures ReadFrom(d, a, off, todo) == Prefixed(Block(mp.disk, mp.addr)[off % BSIZE .. off % BSIZE + m], ReadFrom(mp.disk, mp.addrs, off', todo'))
  {
    assert ReadFrom(d, a, off, todo) == ReadRound(d, a, off, todo);
    assert ReadRound(d, a, off, todo) == ReadBlock(d, a, off, m, todo');
    ReadMapped(d, a, off, m, todo', mp, off');
  }

  /** The round's block read when fs1_bmap gave mp. */
  lemma ReadMapped(d: Disk, a: seq<uint32>, off: nat, m: nat, rest: nat, mp: Mapping, off': nat)
    requires |a| == NDIRECT + 1 && 0 < m && off % BSIZE + m <= BSIZE && mp == Locate(d, a, off / BSIZE) && mp.Mapped?
    requires off' == off + m
    ensures ReadBlock(d, a, off, m, rest) == Prefixed(Block(mp.disk, mp.addr)[off % BSIZE .. off % BSIZE + m], ReadFrom(mp.disk, mp.addrs, off', rest))
  {
  }

  /** The copy loop of fs1_readi panics when fs1_bmap does. */
  lemma ReadPanics(d: Disk, a: seq<uint32>, off: nat, todo: nat)
    requires |a| == NDIRECT + 1 && todo > 0 && Fs1.Bmap(d, a, off / BSIZE).MapPanic?
    ensures ReadFrom(d, a, off, todo) == TransferPanic
  {
    var m := Min(todo, BSIZE - off % BSIZE);
    LocateIsBmap(d, a, off / BSIZE);
    assert ReadFrom(d, a, off, todo) == ReadRound(d, a, off, todo);
    assert ReadRound(d, a, off, todo) == ReadBlock(d, a, off, m, todo - m);
  }

  /** One round of the copy loop of fs1_writei, with what fs1_bmap gave mp, the round's length m, the next offset off' and the bytes left s' named. */
  lemma WriteStep(d: Disk, a: seq<uint32>, off: nat, s: seq<byte>, mp: Mapping, m: nat, off': nat, s': seq<byte>)
    requires |a| == NDIRECT + 1 && |s| > 0 && mp == Fs1.Bmap(d, a, off / BSIZE) && mp.Mapped?
    requires m == Min(|s|, BSIZE - off % BSIZE) && off' == off + m && s' == s[m..]
    ensures |mp.addrs| == NDIRECT + 1
    ensures WriteFrom(d, a, off, s) == WriteFrom(Put(mp.disk, mp.addr, Splice(Block(mp.disk, mp.addr), off % BSIZE, s[..m])), mp.addrs, off', s')
  {
    assert WriteFrom(d, a, off, s) == WriteRound(d, a, off, s);
    assert WriteRound(d, a, off, s) == WriteBlock(d, a, off, s[..m], s');
  }

  /** The copy loop of fs1_writei panics when fs1_bmap does. */
  lemma WritePanics(d: Disk, a: seq<uint32>, off: nat, s: seq<byte>)
    requires |a| == NDIRECT + 1 && |s| > 0 && Fs1.Bmap(d, a, off / BSIZE).MapPanic?
    ensures WriteFrom(d, a, off, s) == StorePanic
  {
    var m := Min(|s|, BSIZE - off % BSIZE);
    assert WriteFrom(d, a, off, s) == WriteRound(d, a, off, s);
    assert WriteRound(d, a, off, s) == WriteBlock(d, a, off, s[..m], s[m..]);
  }

  /** fs1_writei once its copy loop has stored src: the size grows to off + n when it passes the old end. */
  lemma WriteiStored(d: Disk, ino: Inode, src: seq<byte>, off: uint32, n: uint32, fixed: bool, st: Store)
    requires Addressed(ino) && |src| == n && off <= ino.size && off + n <= MAXFILE * BSIZE
    requires st == WriteFrom(d, ino.addrs, off, src) && st.Stored?
    ensures var grown := n > 0 && off + n > ino.size;
      var ino1 := ino.(addrs := st.addrs, size := if grown then off + n else ino.size);
      Fs1.Writei(d, ino, src, off, n, fixed) == Wrote(Syscall.Int32Of(n), if grown || fixed then Fs1.Iupdate(st.disk, ino1) else st.disk, ino1)
  {
    WriteAcceptedBounds(ino.size, off, n);
  }

  class FileSystem {
    /** The disk, block by block. */
    var disk: Disk
    /** fs1_icache.inode: entry ip is what a struct inode* points at. */
    const icache: array<Inode>

    /** Every cache entry has its NDIRECT + 1 addresses. */
    predicate Valid()
      reads this, icache
    {
      forall i :: 0 <= i < icache.Length ==> Addressed(icache[i])
    }

    /** fs1_iinit: the zeroed static cache of ninode entries over disk d. */
    constructor (d: Disk, ninode: nat)
      ensures disk == d && icache.Length == ninode && fresh(icache) && Valid()
      ensures forall i :: 0 <= i < ninode ==> icache[i] == EmptyInode()
    {
      disk := d;
      icache := new Inode[ninode](_ => EmptyInode());
    }

    /** fs1_bzero: block bno becomes all zeros. */
    method Bzero(bno: nat)
      modifies this
      ensures disk == Put(old(disk), bno, Zeros(BSIZE))
    {
      disk := Put(disk, bno, Zeros(BSIZE));
    }

    /**
     * The inner loop of fs1_balloc over the bitmap block of the group of
     * BPB blocks from base: the first clear bit below size, if any.
     */
    method FreeInGroup(base: nat, n: nat, size: uint32) returns (bi: nat, found: bool)
      requires base % BPB == 0
      requires forall c :: 0 <= c < base && c < size ==> InUse(disk, n, c)
      ensures found ==> bi < BPB && base + bi < size && !InUse(disk, n, base + bi)
      ensures found ==> forall c :: 0 <= c < base + bi ==> InUse(disk, n, c)
      ensures !found ==> forall c :: 0 <= c < base + BPB && c < size ==> InUse(disk, n, c)
    {
      var blk := Block(disk, BBlock(base, n));
      bi := 0;
      while bi < BPB && base + bi < size
        invariant bi <= BPB
        invariant forall c :: 0 <= c < base + bi && c < size ==> InUse(disk, n, c)
        decreases BPB - bi
      {
        GroupBit(base, bi, n);
        if !Bit(blk[bi / 8], bi % 8) {
          return bi, true;
        }
        bi := bi + 1;
      }
      return bi, false;
    }

    /**
     * fs1_balloc: scan the bitmap one bitmap block at a time for the first
     * clear bit below sb.size, set it, zero that block and return it; panic
     * when there is none.
     */
    method Balloc() returns (b: uint32, panicked: bool)
      modifies this
      ensures panicked <==> Fs1Disk.Balloc(old(disk)).OutOfBlocks?
      ensures !panicked ==> b == Fs1Disk.Balloc(old(disk)).b && disk == Fs1Disk.Balloc(old(disk)).disk
    {
      var sb := Sb(disk);
      var base, bi, found := FirstFree(sb.size, sb.ninodes);
      if !found {
        BallocFull(disk);
        return 0, true;
      }
      BallocTakesFirst(disk, base + bi);
      MarkAndZero(base, bi, sb.ninodes);
      return base + bi, false;
    }

    /** The outer loop of fs1_balloc: the first block below size whose bit is clear, as group and index. */
    method FirstFree(size: uint32, n: nat) returns (base: nat, bi: nat, found: bool)
      ensures found ==> base % BPB == 0 && bi < BPB && base + bi < size && !InUse(disk, n, base + bi)
      ensures found ==> forall c :: 0 <= c < base + bi ==> InUse(disk, n, c)
      ensures !found ==> forall c :: 0 <= c < size ==> InUse(disk, n, c)
    {
      base := 0;
      while base < size
        invariant base % BPB == 0
        invariant forall c :: 0 <= c < base && c < size ==> InUse(disk, n, c)
        decreases size - base
      {
        bi, found := FreeInGroup(base, n, size);
        if found {
          return;
        }
        NextGroup(base);
        base := base + BPB;
      }
      return 0, 0, false;
    }

    /** The next bitmap group starts on a multiple of BPB too. */
    static lemma NextGroup(base: nat)
      requires base % BPB == 0
      ensures (base + BPB) % BPB == 0
    {
    }

    /** The end of fs1_balloc: set bit bi of the group from base, then zero block base + bi. */
    method MarkAndZero(base: nat, bi: nat, n: nat)
      requires base % BPB == 0 && bi < BPB
      modifies this
      ensures disk == Allocated(old(disk), n, base + bi)
    {
      var bb := BBlock(base, n);
      var blk := Block(disk, bb);
      MarkInGroup(disk, base, bi, n);
      disk := Put(disk, bb, blk[bi / 8 := SetBit(blk[bi / 8], bi % 8)]);
      Bzero(base + bi);
    }

    /** fs1_bfree: panic on a clear bit, otherwise clear the bit of block b. */
    method Bfree(b: nat) returns (panicked: bool)
      modifies this
      ensures panicked <==> Fs1Disk.Bfree(old(disk), b).None?
      ensures !panicked ==> disk == Fs1Disk.Bfree(old(disk), b).value
    {
      var sb := Sb(disk);
      var bb := BBlock(b, sb.ninodes);
      var blk := Block(disk, bb);
      var bi := b % BPB;
      if !Bit(blk[bi / 8], bi % 8) {
        return true;
      }
      disk := Put(disk, bb, blk[bi / 8 := ClearBit(blk[bi / 8], bi % 8)]);
      return false;
    }

    /** fs1_iupdate: the entry's dinode fields are copied into its slot on disk. */
    method Iupdate(ip: nat)
      requires Valid() && ip < icache.Length
      modifies this
      ensures disk == Fs1.Iupdate(old(disk), icache[ip])
    {
      var ino := icache[ip];
      disk := PutDinode(disk, ino.inum, Dinode(ino.kind, ino.major, ino.minor, ino.nlink, ino.size, ino.addrs));
    }

    /** fs1_readinode: the entry's dinode fields are read from its slot on disk. */
    method Readinode(ip: nat)
      requires Valid() && ip < icache.Length
      modifies icache
      ensures Valid() && icache[..] == old(icache[..])[ip := WithDinode(old(icache[ip]), DinodeAt(disk, old(icache[ip]).inum))]
    {
      var di := DinodeAt(disk, icache[ip].inum);
      icache[ip] := icache[ip].(kind := di.kind, major := di.major, minor := di.minor, nlink := di.nlink,
                                size := di.size, addrs := di.addrs);
    }

    /** fs1_idup: one more reference. */
    method Idup(ip: nat) returns (r: nat)
      requires Valid() && ip < icache.Length
      modifies icache
      ensures r == ip && Valid() && icache[..] == Fs1.Idup(old(icache[..]), ip)
    {
      icache[ip] := icache[ip].(ref := icache[ip].ref + 1);
      return ip;
    }

    /**
     * fs1_iget: one pass over the cache that returns a live entry for
     * (dev, inum) with one more reference and remembers the first free
     * entry, which is recycled when there is no live one.
     */
    method Iget(dev: uint32, inum: uint32) returns (ip: nat, panicked: bool)
      requires Valid()
      modifies icache
      ensures panicked <==> Fs1.Iget(old(icache[..]), dev, inum).NoInodes?
      ensures !panicked ==> ip == Fs1.Iget(old(icache[..]), dev, inum).ip && icache[..] == Fs1.Iget(old(icache[..]), dev, inum).cache
      ensures Valid()
    {
      ghost var c := icache[..];
      var empty: Option<nat> := None;
      var i := 0;
      while i < icache.Length
        invariant 0 <= i <= icache.Length && icache[..] == c
        invariant CachedFrom(c, dev, inum, 0) == CachedFrom(c, dev, inum, i)
        invariant empty.None? ==> EmptyFrom(c, 0) == EmptyFrom(c, i)
        invariant empty.Some? ==> EmptyFrom(c, 0) == empty
      {
        var e := icache[i];
        if e.ref > 0 && e.dev == dev && e.inum == inum {
          icache[i] := e.(ref := e.ref + 1);
          return i, false;
        }
        if empty.None? && e.ref == 0 {
          empty := Some(i);
        }
        i := i + 1;
      }
      if empty.None? {
        return 0, true;
      }
      ip := empty.value;
      icache[ip] := icache[ip].(dev := dev, inum := inum, ref := 1, busy := false, valid := false);
      return ip, false;
    }

    /**
     * fs1_ialloc: scan the dinodes from 1 on for one of type 0, rewrite it
     * as a zeroed dinode of the given type and fetch its cache entry; panic
     * when every dinode is taken.
     */
    method Ialloc(dev: uint32, kind: int16) returns (ip: nat, panicked: bool)
      requires Valid()
      modifies this, icache
      ensures panicked <==> Fs1.Ialloc(old(disk), old(icache[..]), dev, kind).CreatePanic?
      ensures !panicked ==>
                var r := Fs1.Ialloc(old(disk), old(icache[..]), dev, kind);
                ip == r.ip && disk == r.disk && icache[..] == r.cache
      ensures Valid()
    {
      var sb := Sb(disk);
      ghost var ks := Kinds(disk, sb.ninodes);
      var inum: nat := 1;
      while inum < sb.ninodes
        invariant 1 <= inum && disk == old(disk) && icache[..] == old(icache[..])
        invariant FirstZero(ks, 1) == FirstZero(ks, inum)
        decreases sb.ninodes - inum
      {
        if DinodeAt(disk, inum).kind == 0 {
          disk := PutDinode(disk, inum, FreshDinode(kind));
          ip, panicked := Iget(dev, inum as uint32);
          return;
        }
        inum := inum + 1;
      }
      return 0, true;
    }
    /**
     * fs1_bmap on entry ip: the disk block of block bn, allocated (and
     * entered in the entry's addresses or in the indirect block) when it is
     * missing; a panic past MAXFILE or when the disk is full.
     */
    method Bmap(ip: nat, bn: nat) returns (addr: uint32, panicked: bool)
      requires Valid() && ip < icache.Length
      modifies this, icache
      ensures Valid()
      ensures var m := Fs1.Bmap(old(disk), old(icache[ip].addrs), bn);
                (panicked <==> m.MapPanic?) &&
                (!panicked ==> addr == m.addr && disk == m.disk && icache[..] == old(icache[..])[ip := old(icache[ip]).(addrs := m.addrs)])
    {
      var a := icache[ip].addrs;
      if bn < NDIRECT {
        addr := a[bn];
        if addr == 0 {
          addr, panicked := Balloc();
          if panicked {
            return;
          }
          icache[ip] := icache[ip].(addrs := a[bn := addr]);
        }
        return addr, false;
      }
      if bn < MAXFILE {
        addr, panicked := BmapIndirect(ip, bn - NDIRECT);
        return;
      }
      return 0, true;
    }

    /** The indirect half of fs1_bmap: entry j of the indirect block, allocating the block and the entry as needed. */
    method BmapIndirect(ip: nat, j: nat) returns (addr: uint32, panicked: bool)
      requires Valid() && ip < icache.Length && j < NINDIRECT
      modifies this, icache
      ensures Valid()
      ensures var m := MapEntry(Indirect(old(disk), old(icache[ip].addrs)), j);
                (panicked <==> m.MapPanic?) &&
                (!panicked ==> addr == m.addr && disk == m.disk && icache[..] == old(icache[..])[ip := old(icache[ip]).(addrs := m.addrs)])
    {
      var ind;
      ind, panicked := IndirectBlock(ip);
      if panicked {
        return 0, true;
      }
      addr, panicked := IndirectEntry(ind, j, icache[ip].addrs);
    }

    /** The indirect block of entry ip, allocated and entered in its addresses when there is none. */
    method IndirectBlock(ip: nat) returns (ind: uint32, panicked: bool)
      requires Valid() && ip < icache.Length
      modifies this, icache
      ensures Valid()
      ensures var m := Indirect(old(disk), old(icache[ip].addrs));
                (panicked <==> m.MapPanic?) &&
                (!panicked ==> ind == m.addr && disk == m.disk && icache[..] == old(icache[..])[ip := old(icache[ip]).(addrs := m.addrs)])
    {
      ind := icache[ip].addrs[NDIRECT];
      if ind == 0 {
        ind, panicked := Balloc();
        if panicked {
          return;
        }
        icache[ip] := icache[ip].(addrs := icache[ip].addrs[NDIRECT := ind]);
      }
      return ind, false;
    }

    /** Entry j of indirect block ind, allocated and written into the block when it is 0 (a is the file's addresses). */
    method IndirectEntry(ind: uint32, j: nat, ghost a: seq<uint32>) returns (addr: uint32, panicked: bool)
      requires |a| == NDIRECT + 1 && j < NINDIRECT
      modifies this
      ensures var m := MapEntry(Mapped(ind, old(disk), a), j);
                (panicked <==> m.MapPanic?) && (!panicked ==> addr == m.addr && disk == m.disk)
    {
      addr := Entry(Block(disk, ind), j);
      if addr == 0 {
        addr, panicked := Balloc();
        if panicked {
          return;
        }
        disk := Put(disk, ind, SetEntry(Block(disk, ind), j, addr));
      }
      return addr, false;
    }

    /**
     * A loop of fs1_itrunc over the addresses s (the direct ones, or the
     * entries of the indirect block): free each nonzero one in turn.
     */
    method FreeNonzero(s: seq<uint32>) returns (panicked: bool)
      modifies this
      ensures var r := FreeAll(old(disk), Nonzero(s));
                (panicked <==> r.None?) && (!panicked ==> disk == r.value)
    {
      ghost var want := FreeAll(disk, Nonzero(s));
      assert s[0..] == s;
      var i := 0;
      while i < |s|
        invariant i <= |s|
        invariant want == FreeAll(disk, Nonzero(s[i..]))
      {
        NonzeroAt(s, i);
        if s[i] != 0 {
          FreeOne(disk, s[i] as nat, Nonzero(s[i + 1..]));
          panicked := Bfree(s[i] as nat);
          if panicked {
            return;
          }
        } else {
          assert Nonzero(s[i..]) == Nonzero(s[i + 1..]);
        }
        i := i + 1;
      }
      assert s[|s|..] == [];
      return false;
    }

    /**
     * The second half of fs1_itrunc: free each nonzero entry of indirect
     * block ind, as the block reads when the loop starts, then ind itself.
     */
    method FreeIndirect(ind: nat) returns (panicked: bool)
      modifies this
      ensures var r := FreeAll(old(disk), Nonzero(Entries(Block(old(disk), ind))) + [ind]);
                (panicked <==> r.None?) && (!panicked ==> disk == r.value)
    {
      var es := Entries(Block(disk, ind));
      FreeAllConcat(disk, Nonzero(es), [ind]);
      panicked := FreeNonzero(es);
      if panicked {
        return;
      }
      FreeOne(disk, ind, []);
      panicked := Bfree(ind);
    }

    /** The frees of fs1_itrunc on the addresses a of an entry: the direct blocks, then the indirect ones. */
    method FreeBlocks(a: seq<uint32>) returns (panicked: bool)
      requires |a| == NDIRECT + 1
      modifies this
      ensures panicked <==> Fs1.FreeBlocks(old(disk), a).None?
      ensures !panicked ==> disk == Fs1.FreeBlocks(old(disk), a).value
    {
      panicked := FreeNonzero(a[..NDIRECT]);
      if panicked || a[NDIRECT] == 0 {
        return;
      }
      panicked := FreeIndirect(a[NDIRECT] as nat);
    }

    /**
     * fs1_itrunc on entry ip: free the file's blocks, then write back the
     * entry with size 0 and no addresses; a panic on a block already free.
     */
    method Itrunc(ip: nat) returns (panicked: bool)
      requires Valid() && ip < icache.Length
      modifies this, icache
      ensures Valid()
      ensures var t := Fs1.Itrunc(old(disk), old(icache[ip]));
                (panicked <==> t.TruncPanic?) && (!panicked ==> disk == t.disk && icache[..] == old(icache[..])[ip := t.ino])
    {
      panicked := FreeBlocks(icache[ip].addrs);
      if panicked {
        return;
      }
      icache[ip] := icache[ip].(size := 0, addrs := seq(NDIRECT + 1, _ => 0));
      Iupdate(ip);
    }

    /**
     * fs1_iput on entry ip: drop one reference; on the last reference to a
     * valid inode without links, lock it (a panic if it is locked),
     * truncate it and write it back as free before clearing the flags.
     */
    method Iput(ip: nat) returns (panicked: bool)
      requires Valid() && ip < icache.Length
      modifies this, icache
      ensures Valid()
      ensures var r := Fs1.Iput(old(disk), old(icache[..]), ip);
                (panicked <==> r.ReleasePanic?) && (!panicked ==> disk == r.disk && icache[..] == r.cache)
    {
      var ino := icache[ip];
      if LastLink(ino) {
        if ino.busy {
          return true;
        }
        panicked := FreeInode(ip);
        return;
      }
      icache[ip] := ino.(ref := ino.ref - 1);
      return false;
    }

    /**
     * The freeing half of fs1_iput: lock the entry, truncate the file,
     * write it back with type 0, clear the flags and drop the reference.
     */
    method FreeInode(ip: nat) returns (panicked: bool)
      requires Valid() && ip < icache.Length && LastLink(icache[ip]) && !icache[ip].busy
      modifies this, icache
      ensures Valid()
      ensures var r := Fs1.Iput(old(disk), old(icache[..]), ip);
                (panicked <==> r.ReleasePanic?) && (!panicked ==> disk == r.disk && icache[..] == r.cache)
    {
      ghost var c := icache[..];
      var ino := icache[ip];
      ghost var t := Fs1.Itrunc(disk, ino.(busy := true));
      icache[ip] := ino.(busy := true);
      panicked := Itrunc(ip);
      if panicked {
        return;
      }
      assert disk == t.disk && icache[..] == c[ip := t.ino] && icache[ip] == t.ino;
      ghost var ino2 := t.ino.(kind := 0);
      MarkFree(ip);
      assert icache[..] == c[ip := ino2.(busy := false, valid := false, ref := ino2.ref - 1)];
      return false;
    }

    /** The end of fs1_iput on a truncated inode: type 0 written back, the flags cleared, one reference fewer. */
    method MarkFree(ip: nat)
      requires Valid() && ip < icache.Length
      modifies this, icache
      ensures Valid()
      ensures var ino := old(icache[ip]).(kind := 0);
                disk == Fs1.Iupdate(old(disk), ino) && icache[..] == old(icache[..])[ip := ino.(busy := false, valid := false, ref := ino.ref - 1)]
    {
      icache[ip] := icache[ip].(kind := 0);
      Iupdate(ip);
      icache[ip] := icache[ip].(busy := false, valid := false, ref := icache[ip].ref - 1);
    }
    /**
     * fs1_readi on entry ip: -1 when off lies past the end or off + n
     * wraps; otherwise the min(n, size - off) bytes from off on, each block
     * found with fs1_bmap, and their count.
     */
    method Readi(ip: nat, off: uint32, n: uint32) returns (r: Syscall.int32, dst: seq<byte>, panicked: bool)
      requires Valid() && ip < icache.Length
      modifies this, icache
      ensures Valid()
      ensures var rd := Fs1.Readi(old(disk), old(icache[ip]), off, n);
                (panicked <==> rd.ReadPanic?) &&
                (!panicked ==> r == rd.r && dst == rd.data && disk == rd.disk && icache[..] == old(icache[..])[ip := rd.ino])
    {
      r := 0;
      var size := icache[ip].size;
      if off > size || (off + n) % U32 < off {
        return -1, [], false;
      }
      var count: nat := n;
      if off + n > size {
        count := size - off;
      }
      dst, panicked := ReadBlocks(ip, off, count);
      if panicked {
        return;
      }
      r := Syscall.Int32Of(count);
    }

    /** The copy loop of fs1_readi: count bytes from off on, one block (or the rest of one) at a time. */
    method ReadBlocks(ip: nat, off: nat, count: nat) returns (dst: seq<byte>, panicked: bool)
      requires Valid() && ip < icache.Length
      modifies this, icache
      ensures Valid()
      ensures var t := ReadFrom(old(disk), old(icache[ip].addrs), off, count);
                (panicked <==> t.TransferPanic?) &&
                (!panicked ==> dst == t.data && disk == t.disk && icache[..] == old(icache[..])[ip := old(icache[ip]).(addrs := t.addrs)])
    {
      ghost var c0 := icache[..];
      ghost var want := ReadFrom(disk, icache[ip].addrs, off, count);
      assert want.Moved? ==> [] + want.data == want.data;
      dst := [];
      var left: nat := count;
      var o: nat := off;
      while left > 0
        invariant Valid()
        invariant icache[..] == c0[ip := c0[ip].(addrs := icache[ip].addrs)]
        invariant want == Prefixed(dst, ReadFrom(disk, icache[ip].addrs, o, left))
      {
        ghost var now := ReadFrom(disk, icache[ip].addrs, o, left);
        var chunk;
        chunk, o, left, panicked := ReadChunk(ip, o, left);
        if panicked {
          return;
        }
        PrefixedTwice(want, dst, chunk, now, ReadFrom(disk, icache[ip].addrs, o, left));
        dst := dst + chunk;
      }
      assert dst + [] == dst;
      return dst, false;
    }

    /** One round of the copy loop of fs1_readi: fs1_bmap for the block holding off, then the bytes of it from off on. */
    method ReadChunk(ip: nat, off: nat, todo: nat) returns (chunk: seq<byte>, off': nat, todo': nat, panicked: bool)
      requires Valid() && ip < icache.Length && todo > 0
      modifies this, icache
      ensures Valid()
      ensures panicked ==> ReadFrom(old(disk), old(icache[ip].addrs), off, todo) == TransferPanic
      ensures !panicked ==> todo' < todo && icache[..] == old(icache[..])[ip := old(icache[ip]).(addrs := icache[ip].addrs)]
      ensures !panicked ==> ReadFrom(old(disk), old(icache[ip].addrs), off, todo) == Prefixed(chunk, ReadFrom(disk, icache[ip].addrs, off', todo'))
    {
      ghost var d, a := disk, icache[ip].addrs;
      var addr;
      addr, panicked := Bmap(ip, off / BSIZE);
      if panicked {
        ReadPanics(d, a, off, todo);
        return [], off, todo, true;
      }
      var m := Min(todo, BSIZE - off % BSIZE);
      off', todo' := off + m, todo - m;
      LocateIsBmap(d, a, off / BSIZE);
      ReadStep(d, a, off, todo, Locate(d, a, off / BSIZE), m, off', todo');
      chunk := Block(disk, addr)[off % BSIZE .. off % BSIZE + m];
    }

    /**
     * fs1_writei on entry ip: -1 when off lies past the end, off + n wraps
     * or the file would pass MAXFILE blocks; otherwise the n bytes of src at
     * off, each block found with fs1_bmap, then the entry written back when
     * the file grew (always, when fixed) and n.
     */
    method Writei(ip: nat, src: seq<byte>, off: uint32, n: uint32, fixed: bool) returns (r: Syscall.int32, panicked: bool)
      requires Valid() && ip < icache.Length && |src| == n
      modifies this, icache
      ensures Valid()
      ensures var w := Fs1.Writei(old(disk), old(icache[ip]), src, off, n, fixed);
                (panicked <==> w.WritePanic?) && (!panicked ==> r == w.r && disk == w.disk && icache[..] == old(icache[..])[ip := w.ino])
    {
      r := 0;
      var size := icache[ip].size;
      if off > size || (off + n) % U32 < off {
        return -1, false;
      }
      if off + n > MAXFILE * BSIZE {
        return -1, false;
      }
      ghost var d0, c0 := disk, icache[..];
      ghost var st := WriteFrom(disk, icache[ip].addrs, off, src);
      panicked := WriteBlocks(ip, src, off);
      if panicked {
        return;
      }
      assert disk == st.disk && icache[..] == c0[ip := c0[ip].(addrs := st.addrs)];
      assert icache[ip] == c0[ip].(addrs := st.addrs);
      var grown := n > 0 && off + n > size;
      ghost var ino1 := c0[ip].(addrs := st.addrs, size := if grown then off + n else size);
      if grown {
        icache[ip] := icache[ip].(size := off + n);
      }
      assert icache[ip] == ino1 && icache[..] == c0[ip := ino1];
      if grown || fixed {
        Iupdate(ip);
      }
      WriteiStored(d0, c0[ip], src, off, n, fixed, st);
      r := Syscall.Int32Of(n);
    }

    /** The copy loop of fs1_writei: the bytes of src from off on, one block (or the rest of one) at a time. */
    method WriteBlocks(ip: nat, src: seq<byte>, off: nat) returns (panicked: bool)
      requires Valid() && ip < icache.Length
      modifies this, icache
      ensures Valid()
      ensures var w := WriteFrom(old(disk), old(icache[ip].addrs), off, src);
                (panicked <==> w.StorePanic?) &&
                (!panicked ==> disk == w.disk && icache[..] == old(icache[..])[ip := old(icache[ip]).(addrs := w.addrs)])
    {
      ghost var c0 := icache[..];
      ghost var want := WriteFrom(disk, icache[ip].addrs, off, src);
      var rest := src;
      var o: nat := off;
      while |rest| > 0
        invariant Valid()
        invariant icache[..] == c0[ip := c0[ip].(addrs := icache[ip].addrs)]
        invariant want == WriteFrom(disk, icache[ip].addrs, o, rest)
      {
        o, rest, panicked := WriteChunk(ip, o, rest);
        if panicked {
          return;
        }
      }
      return false;
    }

    /** One round of the write loop of fs1_writei: fs1_bmap for the block holding off, then as much of s as fits in it. */
    method WriteChunk(ip: nat, off: nat, s: seq<byte>) returns (off': nat, s': seq<byte>, panicked: bool)
      requires Valid() && ip < icache.Length && |s| > 0
      modifies this, icache
      ensures Valid()
      ensures panicked ==> WriteFrom(old(disk), old(icache[ip].addrs), off, s) == StorePanic
      ensures !panicked ==> |s'| < |s| && icache[..] == old(icache[..])[ip := old(icache[ip]).(addrs := icache[ip].addrs)]
      ensures !panicked ==> WriteFrom(old(disk), old(icache[ip].addrs), off, s) == WriteFrom(disk, icache[ip].addrs, off', s')
    {
      ghost var d, a := disk, icache[ip].addrs;
      var addr;
      addr, panicked := Bmap(ip, off / BSIZE);
      if panicked {
        WritePanics(d, a, off, s);
        return off, s, true;
      }
      var m := Min(|s|, BSIZE - off % BSIZE);
      off', s' := off + m, s[m..];
      WriteStep(d, a, off, s, Fs1.Bmap(d, a, off / BSIZE), m, off', s');
      disk := Put(disk, addr, Splice(Block(disk, addr), off % BSIZE, s[..m]));
    }
  }
}
