/**
 * The directory layer of fs1 (kernel/fs/fs1.c, fs1_namecmp, fs1_dirlookup
 * and fs1_dirlink) on values: a directory is an inode whose bytes are a
 * run of 16-byte entries, each a 16-bit inode number (0 = unused) and a
 * name of DIRSIZ characters, NUL-padded but not necessarily NUL-terminated.
 * The functions thread the disk and the inode cache through the fs1_readi,
 * fs1_iget, fs1_iput and fs1_writei calls the source makes; the lemmas
 * relate them to a plain list of entries.
 */
module Fs1Dir {
  import opened Common
  import opened Fs1Layout
  import opened Fs1Disk
  import opened Fs1
  import opened CText
  import CString
  import Syscall

  /** Every cache entry holds its NDIRECT + 1 addresses. */
  predicate AllAddressed(c: seq<Inode>)
  {
    forall i :: 0 <= i < |c| ==> Addressed(c[i])
  }

  /** fs1_iget changes no entry's addresses. */
  lemma IgetKeepsAddressed(c: seq<Inode>, dev: uint32, inum: uint32)
    requires AllAddressed(c)
    ensures Iget(c, dev, inum).Cached? ==> AllAddressed(Iget(c, dev, inum).cache)
  {
  }

  /**
   * strncmp(s, t, DIRSIZ) finds no difference from position i on: the
   * characters agree up to a NUL they share or up to DIRSIZ characters.
   */
  predicate Agree(s: seq<char>, t: seq<char>, i: nat)
    decreases DIRSIZ - i
  {
    i >= DIRSIZ || (At(s, i) == At(t, i) && (At(s, i) == '\0' || Agree(s, t, i + 1)))
  }

  /** fs1_namecmp(s, t) == 0. */
  predicate SameName(s: seq<char>, t: seq<char>)
  {
    Agree(s, t, 0)
  }

  /** The name field strncpy(de.name, name, DIRSIZ) leaves: the characters of name, then NULs. */
  function NameField(name: seq<char>): (f: seq<char>)
    ensures |f| == DIRSIZ
  {
    seq(DIRSIZ, k requires 0 <= k < DIRSIZ => if k < |UpToNul(name)| then name[k] else '\0')
  }

  /** The entry fs1_dirlink writes: inum cut to the 16 bits of de.inum, and the name field. */
  function NewEntry(name: seq<char>, inum: uint32): Dirent
  {
    Dirent(inum % U16, NameField(name))
  }

  /** What fs1_dirlookup gives: the entry found and its offset, or no entry; with the state after, or a panic. */
  datatype Looked = Found(ip: nat, off: nat, disk: Disk, cache: seq<Inode>) | Missing(disk: Disk, cache: seq<Inode>) | LookPanic

  /**
   * The loop of fs1_dirlookup from offset off on: each entry is read with
   * fs1_readi (a short read panics), unused entries are skipped, and the
   * first whose name matches is handed to fs1_iget.
   */
  function ScanFrom(d: Disk, c: seq<Inode>, dp: nat, name: seq<char>, off: nat): (l: Looked)
    requires dp < |c| && AllAddressed(c)
    ensures l.Found? ==> l.ip < |l.cache| == |c| && AllAddressed(l.cache) && l.off < c[dp].size
    ensures l.Missing? ==> |l.cache| == |c| && AllAddressed(l.cache) && l.cache[dp].size == c[dp].size
    decreases c[dp].size - off, 2
  {
    if off >= c[dp].size then Missing(d, c) else ScanRead(d, c, dp, name, off)
  }

  /** One round of the loop of fs1_dirlookup: the entry at off is read. */
  function ScanRead(d: Disk, c: seq<Inode>, dp: nat, name: seq<char>, off: nat): (l: Looked)
    requires dp < |c| && AllAddressed(c) && off < c[dp].size
    ensures l.Found? ==> l.ip < |l.cache| == |c| && AllAddressed(l.cache) && l.off < c[dp].size
    ensures l.Missing? ==> |l.cache| == |c| && AllAddressed(l.cache) && l.cache[dp].size == c[dp].size
    decreases c[dp].size - off, 1
  {
    match Readi(d, c[dp], off, DIRENT_SIZE)
    case ReadPanic => LookPanic
    case Read(r, data, d1, ino) =>
      if r != DIRENT_SIZE then LookPanic else ScanEntry(d1, c[dp := ino], dp, name, off, DecodeDirent(data))
  }

  /** The rest of the round: an entry in use with the name ends the scan in fs1_iget, any other is passed over. */
  function ScanEntry(d: Disk, c: seq<Inode>, dp: nat, name: seq<char>, off: nat, de: Dirent): (l: Looked)
    requires dp < |c| && AllAddressed(c) && off + DIRENT_SIZE <= c[dp].size
    ensures l.Found? ==> l.ip < |l.cache| == |c| && AllAddressed(l.cache) && l.off < c[dp].size
    ensures l.Missing? ==> |l.cache| == |c| && AllAddressed(l.cache) && l.cache[dp].size == c[dp].size
    decreases c[dp].size - off, 0
  {
    if de.inum != 0 && SameName(name, de.name) then
      match Iget(c, c[dp].dev, de.inum)
      case NoInodes => LookPanic
      case Cached(ip, c1) => IgetKeepsAddressed(c, c[dp].dev, de.inum); Found(ip, off, d, c1)
    else ScanFrom(d, c, dp, name, off + DIRENT_SIZE)
  }

  /** fs1_dirlookup: a panic unless dp is a directory, else the scan from offset 0. */
  function Dirlookup(d: Disk, c: seq<Inode>, dp: nat, name: seq<char>): (l: Looked)
    requires dp < |c| && AllAddressed(c)
    ensures l.Found? ==> l.ip < |l.cache| == |c| && AllAddressed(l.cache) && l.off < c[dp].size
    ensures l.Missing? ==> |l.cache| == |c| && AllAddressed(l.cache) && l.cache[dp].size == c[dp].size
  {
    if c[dp].kind != T_DIR then LookPanic else ScanFrom(d, c, dp, name, 0)
  }

  /** Where the entry of fs1_dirlink goes, with the state after the reads, or a panic. */
  datatype Slot = Slot(off: nat, disk: Disk, cache: seq<Inode>) | SlotPanic

  /** The second loop of fs1_dirlink from offset off on: the first unused entry, or the end of the directory. */
  function SlotFrom(d: Disk, c: seq<Inode>, dp: nat, off: nat): (s: Slot)
    requires dp < |c| && AllAddressed(c) && off <= c[dp].size
    ensures s.Slot? ==> |s.cache| == |c| && AllAddressed(s.cache) && s.cache[dp].size == c[dp].size
    ensures s.Slot? ==> off <= s.off <= c[dp].size
    decreases c[dp].size - off, 2
  {
    if off >= c[dp].size then Slot(off, d, c) else SlotRead(d, c, dp, off)
  }

  /** One round of the second loop of fs1_dirlink: the entry at off is read. */
  function SlotRead(d: Disk, c: seq<Inode>, dp: nat, off: nat): (s: Slot)
    requires dp < |c| && AllAddressed(c) && off < c[dp].size
    ensures s.Slot? ==> |s.cache| == |c| && AllAddressed(s.cache) && s.cache[dp].size == c[dp].size
    ensures s.Slot? ==> off <= s.off <= c[dp].size
    decreases c[dp].size - off, 1
  {
    match Readi(d, c[dp], off, DIRENT_SIZE)
    case ReadPanic => SlotPanic
    case Read(r, data, d1, ino) =>
      if r != DIRENT_SIZE then SlotPanic else SlotEntry(d1, c[dp := ino], dp, off, DecodeDirent(data))
  }

  /** The rest of the round: the loop stops at an unused entry. */
  function SlotEntry(d: Disk, c: seq<Inode>, dp: nat, off: nat, de: Dirent): (s: Slot)
    requires dp < |c| && AllAddressed(c) && off + DIRENT_SIZE <= c[dp].size
    ensures s.Slot? ==> |s.cache| == |c| && AllAddressed(s.cache) && s.cache[dp].size == c[dp].size
    ensures s.Slot? ==> off <= s.off <= c[dp].size
    decreases c[dp].size - off, 0
  {
    if de.inum == 0 then Slot(off, d, c) else SlotFrom(d, c, dp, off + DIRENT_SIZE)
  }

  /** What fs1_dirlink gives: its return value and the state after, or a panic. */
  datatype Linked = Linked(r: int, disk: Disk, cache: seq<Inode>) | LinkPanic

  /**
   * fs1_dirlink(dp, name, inum): -1 (after dropping the reference the
   * lookup took) when the name is present; otherwise the new entry is
   * written over the first unused one, or at the end, and anything but a
   * full 16-byte write panics. `fixed` is passed on to fs1_writei.
   */
  function Dirlink(d: Disk, c: seq<Inode>, dp: nat, name: seq<char>, inum: uint32, fixed: bool): (k: Linked)
    requires dp < |c| && AllAddressed(c)
    ensures k.Linked? ==> |k.cache| == |c| && (k.r == 0 || k.r == -1)
  {
    match Dirlookup(d, c, dp, name)
    case LookPanic => LinkPanic
    case Found(ip, _, d1, c1) =>
      (match Iput(d1, c1, ip)
       case ReleasePanic => LinkPanic
       case Released(d2, c2) => Linked(-1, d2, c2))
    case Missing(d1, c1) =>
      match SlotFrom(d1, c1, dp, 0)
      case SlotPanic => LinkPanic
      case Slot(off, d2, c2) => LinkAt(d2, c2, dp, name, inum, fixed, off)
  }

  /** The end of fs1_dirlink: the new entry written at off, where a short write panics. */
  function LinkAt(d: Disk, c: seq<Inode>, dp: nat, name: seq<char>, inum: uint32, fixed: bool, off: nat): (k: Linked)
    requires dp < |c| && AllAddressed(c) && off <= c[dp].size
    ensures k.Linked? ==> k.r == 0 && |k.cache| == |c| && k.cache[dp].size == Max(c[dp].size, off + DIRENT_SIZE)
  {
    var w := Writei(d, c[dp], EncodeDirent(NewEntry(name, inum)), off, DIRENT_SIZE, fixed);
    WriteiCount(d, c[dp], EncodeDirent(NewEntry(name, inum)), off, fixed);
    match w
    case WritePanic => LinkPanic
    case Wrote(r, d3, ino) => if r != DIRENT_SIZE then LinkPanic else Linked(0, d3, c[dp := ino])
  }

  /** A write of one entry that returns the entry's size made the file at least reach its end. */
  lemma WriteiCount(d: Disk, ino: Inode, src: seq<byte>, off: nat, fixed: bool)
    requires Addressed(ino) && |src| == DIRENT_SIZE && off <= ino.size
    ensures var w := Writei(d, ino, src, off, DIRENT_SIZE, fixed);
      w.Wrote? && w.r == DIRENT_SIZE ==> w.ino.size == Max(ino.size, off + DIRENT_SIZE)
  {
    var w := Writei(d, ino, src, off, DIRENT_SIZE, fixed);
    if w.Wrote? && w.r == DIRENT_SIZE {
      WriteiRefuses(d, ino, src, off, DIRENT_SIZE, fixed);
      WriteiSize(d, ino, src, off, DIRENT_SIZE, fixed);
    }
  }

  /** The contents of a string are the characters before the first NUL, wherever that is shown to be. */
  lemma UpToNulIs(t: seq<char>, m: nat)
    requires m <= |t| && '\0' !in t[..m] && (m < |t| ==> t[m] == '\0')
    ensures UpToNul(t) == t[..m]
  {
    forall k | 0 <= k < m
      ensures At(t, k) != '\0'
    {
      assert t[..m][k] == t[k];
    }
    if m < |t| {
      assert At(t, m) == '\0';
    }
  }

  /** A name whose characters fit a C char. */
  predicate Narrow(name: seq<char>)
  {
    forall k :: 0 <= k < |name| ==> name[k] as int < 256
  }

  /** A string with no NUL in its first i characters has contents at least that long. */
  lemma ContentsAtLeast(s: seq<char>, i: nat)
    requires forall k :: 0 <= k < i ==> At(s, k) != '\0'
    ensures i <= |UpToNul(s)| <= |s|
  {
  }

  /** A string whose first NUL is at position i has the first i characters as contents. */
  lemma ContentsEnd(s: seq<char>, i: nat)
    requires forall k :: 0 <= k < i ==> At(s, k) != '\0'
    requires At(s, i) == '\0'
    ensures i <= |s| && UpToNul(s) == s[..i]
  {
    ContentsAtLeast(s, i);
    forall k | 0 <= k < i
      ensures s[..i][k] != '\0'
    {
      assert s[..i][k] == At(s, k);
    }
    UpToNulIs(s, i);
  }

  /**
   * Once s and t agree, without a NUL, on their first i characters, the
   * character-by-character comparison from i on decides exactly whether
   * strncmp over DIRSIZ characters sees the same string in both.
   */
  lemma {:induction false} AgreeFrom(s: seq<char>, t: seq<char>, i: nat)
    requires i <= DIRSIZ
    requires forall k :: 0 <= k < i ==> At(s, k) == At(t, k) && At(s, k) != '\0'
    ensures Agree(s, t, i) <==> CString.Within(s, DIRSIZ) == CString.Within(t, DIRSIZ)
    decreases DIRSIZ - i
  {
    var u, v := UpToNul(s), UpToNul(t);
    var ws, wt := CString.Within(s, DIRSIZ), CString.Within(t, DIRSIZ);
    ContentsAtLeast(s, i);
    ContentsAtLeast(t, i);
    if i == DIRSIZ {
      assert |ws| == DIRSIZ == |wt|;
      forall k | 0 <= k < DIRSIZ
        ensures ws[k] == wt[k]
      {
        assert ws[k] == u[k] == s[k] == At(s, k);
        assert wt[k] == v[k] == t[k] == At(t, k);
      }
    } else if At(s, i) == At(t, i) && At(s, i) != '\0' {
      AgreeFrom(s, t, i + 1);
    } else if At(s, i) == '\0' && At(t, i) == '\0' {
      ContentsEnd(s, i);
      ContentsEnd(t, i);
      assert ws == s[..i] && wt == t[..i];
      forall k | 0 <= k < i
        ensures ws[k] == wt[k]
      {
        assert ws[k] == At(s, k) && wt[k] == At(t, k);
      }
    } else if At(s, i) == '\0' {
      ContentsEnd(s, i);
      ContentsAtLeast(t, i + 1);
      assert |ws| == i < |wt|;
    } else if At(t, i) == '\0' {
      ContentsEnd(t, i);
      ContentsAtLeast(s, i + 1);
      assert |wt| == i < |ws|;
    } else {
      ContentsAtLeast(s, i + 1);
      ContentsAtLeast(t, i + 1);
      assert ws[i] == At(s, i) && wt[i] == At(t, i);
    }
  }

  /** SameName is strncmp over DIRSIZ characters. */
  lemma SameNameWithin(s: seq<char>, t: seq<char>)
    ensures SameName(s, t) <==> CString.Within(s, DIRSIZ) == CString.Within(t, DIRSIZ)
  {
    AgreeFrom(s, t, 0);
  }

  /** The name field agrees with the name from position i on, once i is within the name's contents. */
  lemma {:induction false} NameFieldAgrees(name: seq<char>, i: nat)
    requires i <= DIRSIZ && i <= |UpToNul(name)|
    ensures Agree(name, NameField(name), i)
    decreases DIRSIZ - i
  {
    var u, f := UpToNul(name), NameField(name);
    if i < DIRSIZ && i < |u| {
      assert At(name, i) == u[i] == f[i];
      NameFieldAgrees(name, i + 1);
    } else if i < DIRSIZ {
      assert At(name, i) == '\0' == f[i];
    }
  }

  /** What strncpy stores into a name field, strncmp then matches against the name. */
  lemma NameFieldMatches(name: seq<char>)
    ensures SameName(name, NameField(name))
  {
    NameFieldAgrees(name, 0);
  }

  /** The entry fs1_dirlink writes reads back as written when the name is made of 8-bit characters. */
  lemma NewEntryRoundTrip(name: seq<char>, inum: uint32)
    requires Narrow(name)
    ensures DecodeDirent(EncodeDirent(NewEntry(name, inum))) == NewEntry(name, inum)
  {
    var f := NameField(name);
    forall k | 0 <= k < DIRSIZ
      ensures f[k] as int < 256
    {
      if k < |UpToNul(name)| {
        assert f[k] == name[k];
      }
    }
    DirentRoundTrip(NewEntry(name, inum));
  }

  /** The first entry at index k or later that is in use and carries name. */
  function FindName(es: seq<Dirent>, name: seq<char>, k: nat): (r: Option<nat>)
    ensures r.Some? ==> k <= r.value < |es| && es[r.value].inum != 0 && SameName(name, es[r.value].name)
    decreases |es| - k
  {
    if k >= |es| then None
    else if es[k].inum != 0 && SameName(name, es[k].name) then Some(k)
    else FindName(es, name, k + 1)
  }

  /** FindName misses no entry: none before the one it finds, and none at all when it finds nothing, is in use with the name. */
  lemma {:induction false} FindNameFirst(es: seq<Dirent>, name: seq<char>, k: nat)
    ensures FindName(es, name, k).Some? ==>
              forall j :: k <= j < FindName(es, name, k).value ==> es[j].inum == 0 || !SameName(name, es[j].name)
    ensures FindName(es, name, k).None? ==> forall j :: k <= j < |es| ==> es[j].inum == 0 || !SameName(name, es[j].name)
    decreases |es| - k
  {
    if k < |es| && !(es[k].inum != 0 && SameName(name, es[k].name)) {
      FindNameFirst(es, name, k + 1);
    }
  }

  /** The first unused entry at index k or later, or |es| when there is none. */
  function FirstUnused(es: seq<Dirent>, k: nat): (r: nat)
    requires k <= |es|
    ensures k <= r <= |es| && (r < |es| ==> es[r].inum == 0)
    decreases |es| - k
  {
    if k == |es| || es[k].inum == 0 then k else FirstUnused(es, k + 1)
  }

  /** Every entry FirstUnused passes over is in use. */
  lemma {:induction false} FirstUnusedFirst(es: seq<Dirent>, k: nat)
    requires k <= |es|
    ensures forall j :: k <= j < FirstUnused(es, k) ==> es[j].inum != 0
    decreases |es| - k
  {
    if k < |es| && es[k].inum != 0 {
      FirstUnusedFirst(es, k + 1);
    }
  }

  /** The entries with e stored at index j: over an entry of es, or appended when j is |es|. */
  function Placed(es: seq<Dirent>, j: nat, e: Dirent): (r: seq<Dirent>)
    requires j <= |es|
    ensures |r| == if j < |es| then |es| else |es| + 1
    ensures r[j] == e && forall i :: 0 <= i < |es| && i != j ==> r[i] == es[i]
  {
    if j < |es| then es[j := e] else es + [e]
  }

  /** Linking a name that is not present into the first unused entry makes the name found there. */
  lemma {:induction false} PlacedFound(es: seq<Dirent>, name: seq<char>, e: Dirent, k: nat, j: nat, es': seq<Dirent>)
    requires k <= |es| && FindName(es, name, k).None? && j == FirstUnused(es, k)
    requires e.inum != 0 && SameName(name, e.name) && es' == Placed(es, j, e)
    ensures FindName(es', name, k) == Some(j)
    decreases |es| - k
  {
    if k != j {
      assert es'[k] == es[k];
      PlacedFound(es, name, e, k + 1, j, es');
    }
  }

  /** Linking into an unused entry, or at the end, leaves the lookup of every name the new one does not match as it was. */
  lemma {:induction false} PlacedKeeps(es: seq<Dirent>, other: seq<char>, e: Dirent, k: nat, j: nat, es': seq<Dirent>)
    requires j <= |es| && (j < |es| ==> es[j].inum == 0)
    requires !SameName(other, e.name) && es' == Placed(es, j, e)
    ensures FindName(es', other, k) == FindName(es, other, k)
    decreases |es'| - k
  {
    if k < |es'| {
      if k != j {
        assert es'[k] == es[k];
      }
      PlacedKeeps(es, other, e, k + 1, j, es');
    }
  }

  /** The entries of directory ino as its bytes hold them: entry k is bytes 16k up to 16k + 16. */
  function Entries(d: Disk, ino: Inode): (es: seq<Dirent>)
    requires Addressed(ino)
    ensures |es| == ino.size / DIRENT_SIZE
  {
    seq(ino.size / DIRENT_SIZE,
        k requires 0 <= k < ino.size / DIRENT_SIZE => DecodeDirent(FileBytes(d, ino.addrs, DIRENT_SIZE * k, DIRENT_SIZE)))
  }

  /** A directory made of whole entries, every byte of it in a block the file has. */
  predicate Whole(d: Disk, ino: Inode)
    requires Addressed(ino)
  {
    ino.size % DIRENT_SIZE == 0 && AllMapped(d, ino.addrs, 0, ino.size)
  }

  /** A whole directory holds exactly its size over 16 entries. */
  lemma EntryCount(d: Disk, ino: Inode)
    requires Addressed(ino) && Whole(d, ino)
    ensures ino.size == DIRENT_SIZE * |Entries(d, ino)|
  {
    var n := ino.size;
    assert n % DIRENT_SIZE == 0;
    assert n == DIRENT_SIZE * (n / DIRENT_SIZE) + n % DIRENT_SIZE;
  }

  /** What fs1_dirlookup returns once the index of the matching entry of es is known, if any. */
  function LookedUp(d: Disk, c: seq<Inode>, dp: nat, es: seq<Dirent>, r: Option<nat>): Looked
    requires dp < |c| && (r.Some? ==> r.value < |es|)
  {
    match r
    case None => Missing(d, c)
    case Some(j) =>
      match Iget(c, c[dp].dev, es[j].inum)
      case NoInodes => LookPanic
      case Cached(ip, c1) => Found(ip, DIRENT_SIZE * j, d, c1)
  }

  /** Reading entry k of a whole directory gives Entries' entry k, and changes nothing. */
  lemma ReadEntry(d: Disk, ino: Inode, k: nat)
    requires Addressed(ino) && Whole(d, ino) && DIRENT_SIZE * k < ino.size
    ensures Readi(d, ino, DIRENT_SIZE * k, DIRENT_SIZE) == Read(DIRENT_SIZE, FileBytes(d, ino.addrs, DIRENT_SIZE * k, DIRENT_SIZE), d, ino)
    ensures k < |Entries(d, ino)| && Entries(d, ino)[k] == DecodeDirent(FileBytes(d, ino.addrs, DIRENT_SIZE * k, DIRENT_SIZE))
  {
    var off := DIRENT_SIZE * k;
    assert off + DIRENT_SIZE <= ino.size;
    assert Min(DIRENT_SIZE, ino.size - off) == DIRENT_SIZE;
    ReadiMapped(d, ino, off, DIRENT_SIZE);
  }

  /** One round of the scan of fs1_dirlookup over a read that returns a whole entry and changes nothing. */
  lemma ScanStep(d: Disk, c: seq<Inode>, dp: nat, name: seq<char>, off: nat, data: seq<byte>, de: Dirent)
    requires dp < |c| && AllAddressed(c) && off < c[dp].size && |data| == DIRENT_SIZE && de == DecodeDirent(data)
    requires Readi(d, c[dp], off, DIRENT_SIZE) == Read(DIRENT_SIZE, data, d, c[dp])
    ensures ScanFrom(d, c, dp, name, off) == ScanEntry(d, c, dp, name, off, de)
  {
    assert c[dp := c[dp]] == c;
    assert ScanRead(d, c, dp, name, off) == ScanEntry(d, c, dp, name, off, de);
  }

  /** The round of the scan of fs1_dirlookup at entry k of a whole directory. */
  lemma ScanAtEntry(d: Disk, c: seq<Inode>, dp: nat, name: seq<char>, es: seq<Dirent>, k: nat, off: nat)
    requires dp < |c| && AllAddressed(c) && Whole(d, c[dp]) && es == Entries(d, c[dp])
    requires c[dp].size == DIRENT_SIZE * |es| && k < |es| && off == DIRENT_SIZE * k
    ensures ScanFrom(d, c, dp, name, off)
            == if es[k].inum != 0 && SameName(name, es[k].name) then LookedUp(d, c, dp, es, Some(k))
               else ScanFrom(d, c, dp, name, off + DIRENT_SIZE)
  {
    ReadEntry(d, c[dp], k);
    ScanStep(d, c, dp, name, off, FileBytes(d, c[dp].addrs, off, DIRENT_SIZE), es[k]);
  }

  /** Over a whole directory the scan of fs1_dirlookup from entry k on is FindName over its entries. */
  lemma {:induction false} ScanWhole(d: Disk, c: seq<Inode>, dp: nat, name: seq<char>, es: seq<Dirent>, k: nat, off: nat, r: Looked)
    requires dp < |c| && AllAddressed(c) && Whole(d, c[dp]) && es == Entries(d, c[dp])
    requires c[dp].size == DIRENT_SIZE * |es| && k <= |es| && off == DIRENT_SIZE * k
    requires r == ScanFrom(d, c, dp, name, off)
    ensures r == LookedUp(d, c, dp, es, FindName(es, name, k))
    decreases |es| - k
  {
    if k < |es| {
      ScanAtEntry(d, c, dp, name, es, k, off);
      if !(es[k].inum != 0 && SameName(name, es[k].name)) {
        ScanWhole(d, c, dp, name, es, k + 1, off + DIRENT_SIZE, r);
      }
    }
  }

  /** One round of the slot loop of fs1_dirlink over a read that returns a whole entry and changes nothing. */
  lemma SlotStep(d: Disk, c: seq<Inode>, dp: nat, off: nat, data: seq<byte>, de: Dirent)
    requires dp < |c| && AllAddressed(c) && off < c[dp].size && |data| == DIRENT_SIZE && de == DecodeDirent(data)
    requires Readi(d, c[dp], off, DIRENT_SIZE) == Read(DIRENT_SIZE, data, d, c[dp])
    ensures SlotFrom(d, c, dp, off) == SlotEntry(d, c, dp, off, de)
  {
    assert c[dp := c[dp]] == c;
    assert SlotRead(d, c, dp, off) == SlotEntry(d, c, dp, off, de);
  }

  /** The round of the slot loop at entry k of a whole directory. */
  lemma SlotAtEntry(d: Disk, c: seq<Inode>, dp: nat, es: seq<Dirent>, k: nat, off: nat)
    requires dp < |c| && AllAddressed(c) && Whole(d, c[dp]) && es == Entries(d, c[dp])
    requires c[dp].size == DIRENT_SIZE * |es| && k < |es| && off == DIRENT_SIZE * k
    ensures SlotFrom(d, c, dp, off) == if es[k].inum == 0 then Slot(off, d, c) else SlotFrom(d, c, dp, off + DIRENT_SIZE)
  {
    ReadEntry(d, c[dp], k);
    SlotStep(d, c, dp, off, FileBytes(d, c[dp].addrs, off, DIRENT_SIZE), es[k]);
  }

  /** Over a whole directory the slot loop of fs1_dirlink from entry k on stops at FirstUnused of its entries. */
  lemma {:induction false} SlotWhole(d: Disk, c: seq<Inode>, dp: nat, es: seq<Dirent>, k: nat, off: nat)
    requires dp < |c| && AllAddressed(c) && Whole(d, c[dp]) && es == Entries(d, c[dp])
    requires c[dp].size == DIRENT_SIZE * |es| && k <= |es| && off == DIRENT_SIZE * k
    ensures SlotFrom(d, c, dp, off) == Slot(DIRENT_SIZE * FirstUnused(es, k), d, c)
    decreases |es| - k
  {
    if k < |es| {
      SlotAtEntry(d, c, dp, es, k, off);
      if es[k].inum != 0 {
        SlotWhole(d, c, dp, es, k + 1, off + DIRENT_SIZE);
      }
    }
  }

  /** For a whole directory fs1_dirlookup is FindName over its entries. */
  lemma DirlookupWhole(d: Disk, c: seq<Inode>, dp: nat, name: seq<char>)
    requires dp < |c| && AllAddressed(c) && c[dp].kind == T_DIR && Whole(d, c[dp])
    ensures Dirlookup(d, c, dp, name) == LookedUp(d, c, dp, Entries(d, c[dp]), FindName(Entries(d, c[dp]), name, 0))
  {
    var es := Entries(d, c[dp]);
    EntryCount(d, c[dp]);
    ScanWhole(d, c, dp, name, es, 0, 0, ScanFrom(d, c, dp, name, 0));
  }

  /** The scan of fs1_dirlookup that finds nothing leaves the disk and the cache as they were. */
  lemma LookedUpNothing(d: Disk, c: seq<Inode>, dp: nat, es: seq<Dirent>)
    requires dp < |c|
    ensures LookedUp(d, c, dp, es, None) == Missing(d, c)
  {
  }

  /**
   * fs1_dirlink over a whole directory: a name already present gives -1 or a
   * panic and writes no entry; otherwise the new entry goes to the first
   * unused entry, or at the end when every entry is in use.
   */
  lemma DirlinkWhole(d: Disk, c: seq<Inode>, dp: nat, name: seq<char>, inum: uint32, fixed: bool)
    requires dp < |c| && AllAddressed(c) && c[dp].kind == T_DIR && Whole(d, c[dp])
    ensures var es := Entries(d, c[dp]);
      FindName(es, name, 0).Some? ==> Dirlink(d, c, dp, name, inum, fixed).LinkPanic? || Dirlink(d, c, dp, name, inum, fixed).r == -1
    ensures var es := Entries(d, c[dp]);
      FindName(es, name, 0).None? ==>
        (DIRENT_SIZE * FirstUnused(es, 0) <= c[dp].size
         && Dirlink(d, c, dp, name, inum, fixed) == LinkAt(d, c, dp, name, inum, fixed, DIRENT_SIZE * FirstUnused(es, 0)))
  {
    if FindName(Entries(d, c[dp]), name, 0).None? {
      DirlinkAbsent(d, c, dp, name, inum, fixed);
    } else {
      DirlinkPresent(d, c, dp, name, inum, fixed);
    }
  }

  /** A name present in the directory: fs1_dirlink releases what it found and gives -1, or panics. */
  lemma DirlinkPresent(d: Disk, c: seq<Inode>, dp: nat, name: seq<char>, inum: uint32, fixed: bool)
    requires dp < |c| && AllAddressed(c) && c[dp].kind == T_DIR && Whole(d, c[dp])
    requires FindName(Entries(d, c[dp]), name, 0).Some?
    ensures Dirlink(d, c, dp, name, inum, fixed).LinkPanic? || Dirlink(d, c, dp, name, inum, fixed).r == -1
  {
    DirlookupWhole(d, c, dp, name);
  }

  /** A name absent from the directory: fs1_dirlink writes at the first unused entry, or at the end. */
  lemma DirlinkAbsent(d: Disk, c: seq<Inode>, dp: nat, name: seq<char>, inum: uint32, fixed: bool)
    requires dp < |c| && AllAddressed(c) && c[dp].kind == T_DIR && Whole(d, c[dp])
    requires FindName(Entries(d, c[dp]), name, 0).None?
    ensures var es := Entries(d, c[dp]);
      DIRENT_SIZE * FirstUnused(es, 0) <= c[dp].size
      && Dirlink(d, c, dp, name, inum, fixed) == LinkAt(d, c, dp, name, inum, fixed, DIRENT_SIZE * FirstUnused(es, 0))
  {
    var es := Entries(d, c[dp]);
    EntryCount(d, c[dp]);
    assert FirstUnused(es, 0) <= |es|;
    DirlookupWhole(d, c, dp, name);
    assert Dirlookup(d, c, dp, name) == Missing(d, c);
    SlotWhole(d, c, dp, es, 0, 0);
    assert SlotFrom(d, c, dp, 0) == Slot(DIRENT_SIZE * FirstUnused(es, 0), d, c);
  }

  /** The offset fs1_dirlink writes at holds an unused entry, or is the end of the directory, with every entry before it in use. */
  lemma DirlinkOffset(d: Disk, c: seq<Inode>, dp: nat)
    requires dp < |c| && Addressed(c[dp]) && Whole(d, c[dp])
    ensures var es := Entries(d, c[dp]); var j := FirstUnused(es, 0);
      (j < |es| ==> es[j].inum == 0) && (j == |es| ==> DIRENT_SIZE * j == c[dp].size)
      && forall i :: 0 <= i < j ==> es[i].inum != 0
  {
    var es := Entries(d, c[dp]);
    EntryCount(d, c[dp]);
    FirstUnusedFirst(es, 0);
  }

  /** A full directory that cannot grow by another entry makes fs1_dirlink panic on a new name. */
  lemma DirlinkFull(d: Disk, c: seq<Inode>, dp: nat, name: seq<char>, inum: uint32, fixed: bool)
    requires dp < |c| && AllAddressed(c) && c[dp].kind == T_DIR && Whole(d, c[dp])
    requires FindName(Entries(d, c[dp]), name, 0).None?
    requires forall i :: 0 <= i < |Entries(d, c[dp])| ==> Entries(d, c[dp])[i].inum != 0
    requires c[dp].size + DIRENT_SIZE > MAXFILE * BSIZE
    ensures Dirlink(d, c, dp, name, inum, fixed) == LinkPanic
  {
    var es := Entries(d, c[dp]);
    EntryCount(d, c[dp]);
    DirlinkWhole(d, c, dp, name, inum, fixed);
    FirstUnusedFirst(es, 0);
    var j := FirstUnused(es, 0);
    assert j == |es|;
    WriteiRefuses(d, c[dp], EncodeDirent(NewEntry(name, inum)), DIRENT_SIZE * j, DIRENT_SIZE, fixed);
  }

  // ------------------------------------------- the entries fs1_dirlink leaves

  /**
   * The blocks of a consistent file: no two of the blocks below its size
   * are one disk block, and none of them is its indirect block or the
   * block holding its own dinode (which fs1_iupdate rewrites).
   */
  ghost predicate Unaliased(d: Disk, ino: Inode)
    requires Addressed(ino)
  {
    var a := ino.addrs;
    (forall bn, bm :: 0 <= bn < bm && BSIZE * bm < ino.size ==> BlockAddr(d, a, bn) != BlockAddr(d, a, bm))
    && (forall bn :: 0 <= bn && BSIZE * bn < ino.size ==> BlockAddr(d, a, bn) != a[NDIRECT] && BlockAddr(d, a, bn) != IBlock(ino.inum))
    && a[NDIRECT] != IBlock(ino.inum)
  }

  /** dF is d with block x rewritten as the entry write leaves it, and nothing else changed but the dinode block ib. */
  ghost predicate EntryStored(d: Disk, dF: Disk, x: nat, o: nat, src: seq<byte>, ib: nat)
    requires o + |src| <= BSIZE
  {
    x != ib && Block(dF, x) == Splice(Block(d, x), o, src)
    && forall n :: n != x && n != ib ==> Block(dF, n) == Block(d, n)
  }

  /** dF is what writing the 16 bytes of src at off leaves of d, for a consistent file ino whose block there is mapped. */
  ghost predicate Overwrote(d: Disk, dF: Disk, ino: Inode, off: nat, src: seq<byte>)
  {
    Addressed(ino) && Unaliased(d, ino) && |src| == DIRENT_SIZE && off % BSIZE + DIRENT_SIZE <= BSIZE
    && BSIZE * (off / BSIZE) < ino.size
    && EntryStored(d, dF, BlockAddr(d, ino.addrs, off / BSIZE), off % BSIZE, src, IBlock(ino.inum))
  }

  /** An entry at offset 16j lies inside one block. */
  lemma EntryInBlock(j: nat, off: nat)
    requires off == DIRENT_SIZE * j
    ensures off % BSIZE + DIRENT_SIZE <= BSIZE
  {
    var q, r := j / 32, j % 32;
    assert j == 32 * q + r;
    assert off == BSIZE * q + DIRENT_SIZE * r;
    assert off % BSIZE == DIRENT_SIZE * r;
  }

  /** Every byte of a whole directory lies in one of the MAXFILE blocks a file can have. */
  lemma WholeBound(d: Disk, ino: Inode)
    requires Addressed(ino) && Whole(d, ino)
    ensures ino.size <= MAXFILE * BSIZE
  {
    if ino.size > 0 {
      var p: nat := ino.size - 1;
      assert BlockAddr(d, ino.addrs, p / BSIZE) != 0;
      assert p / BSIZE < MAXFILE;
    }
  }

  /** The write loop of fs1_writei for one entry in a block the file has: that block is rewritten, nothing allocated. */
  lemma StoreInBlock(d: Disk, a: seq<uint32>, off: nat, src: seq<byte>)
    requires |a| == NDIRECT + 1 && |src| == DIRENT_SIZE && off % BSIZE + DIRENT_SIZE <= BSIZE
    requires BlockAddr(d, a, off / BSIZE) != 0
    ensures var x := BlockAddr(d, a, off / BSIZE);
      WriteFrom(d, a, off, src) == Stored(Put(d, x, Splice(Block(d, x), off % BSIZE, src)), a)
  {
    var x := BlockAddr(d, a, off / BSIZE);
    var d1 := Put(d, x, Splice(Block(d, x), off % BSIZE, src));
    BmapKeepsMapped(d, a, off / BSIZE);
    assert src[..DIRENT_SIZE] == src && src[DIRENT_SIZE..] == [];
    assert WriteFrom(d1, a, off + DIRENT_SIZE, []) == Stored(d1, a);
    assert WriteRound(d, a, off, src) == WriteBlock(d, a, off, src, []);
  }

  /**
   * fs1_writei of one entry in a block the file has: it returns 16, the
   * size becomes max(size, off + 16), and the disk is the block rewritten,
   * with the dinode written back when the file grew (or always, fixed).
   */
  lemma WriteiEntry(d: Disk, ino: Inode, src: seq<byte>, off: nat, fixed: bool)
    requires Addressed(ino) && |src| == DIRENT_SIZE && off <= ino.size && off + DIRENT_SIZE <= MAXFILE * BSIZE
    requires off % BSIZE + DIRENT_SIZE <= BSIZE && BlockAddr(d, ino.addrs, off / BSIZE) != 0
    ensures var x := BlockAddr(d, ino.addrs, off / BSIZE);
      var d1 := Put(d, x, Splice(Block(d, x), off % BSIZE, src));
      var w := Writei(d, ino, src, off, DIRENT_SIZE, fixed);
      w.Wrote? && w.r == DIRENT_SIZE && w.ino == ino.(size := w.ino.size) && w.ino.size == Max(ino.size, off + DIRENT_SIZE)
      && w.disk == (if off + DIRENT_SIZE > ino.size || fixed then Iupdate(d1, w.ino) else d1)
  {
    StoreInBlock(d, ino.addrs, off, src);
    var x := BlockAddr(d, ino.addrs, off / BSIZE);
    WriteiInPlace(d, ino, src, off, fixed, Put(d, x, Splice(Block(d, x), off % BSIZE, src)));
  }

  /** An accepted fs1_writei of one entry whose store keeps the block map. */
  lemma WriteiInPlace(d: Disk, ino: Inode, src: seq<byte>, off: nat, fixed: bool, d1: Disk)
    requires Addressed(ino) && |src| == DIRENT_SIZE && off <= ino.size && off + DIRENT_SIZE <= MAXFILE * BSIZE
    requires WriteFrom(d, ino.addrs, off, src) == Stored(d1, ino.addrs)
    ensures var ino1 := ino.(size := Max(ino.size, off + DIRENT_SIZE));
      Writei(d, ino, src, off, DIRENT_SIZE, fixed)
      == Wrote(DIRENT_SIZE, if off + DIRENT_SIZE > ino.size || fixed then Iupdate(d1, ino1) else d1, ino1)
  {
    WriteAcceptedBounds(ino.size, off, DIRENT_SIZE);
    assert Syscall.Int32Of(DIRENT_SIZE) == DIRENT_SIZE;
  }

  /** The dinode write-back after the entry write changes only the dinode block. */
  lemma IupdateStored(d: Disk, d1: Disk, ino: Inode, x: nat, o: nat, src: seq<byte>)
    requires Addressed(ino) && o + |src| <= BSIZE && x != IBlock(ino.inum) && |Splice(Block(d, x), o, src)| == BSIZE
    requires d1 == Put(d, x, Splice(Block(d, x), o, src))
    ensures EntryStored(d, d1, x, o, src, IBlock(ino.inum)) && EntryStored(d, Iupdate(d1, ino), x, o, src, IBlock(ino.inum))
  {
    forall n | n != IBlock(ino.inum)
      ensures Block(Iupdate(d1, ino), n) == Block(d1, n)
    {
      PutDinodeKeepsBlocks(d1, ino.inum, DinodeOf(ino), n);
    }
  }

  /**
   * After the entry write, the file's block map is unchanged and its byte
   * at p is src's where the entry went and the old byte elsewhere.
   */
  lemma StoredByte(d: Disk, dF: Disk, ino: Inode, off: nat, src: seq<byte>, p: nat)
    requires Overwrote(d, dF, ino, off, src) && (p < ino.size || off <= p < off + DIRENT_SIZE)
    ensures BlockAddr(dF, ino.addrs, p / BSIZE) == BlockAddr(d, ino.addrs, p / BSIZE)
    ensures FileByte(dF, ino.addrs, p) == if off <= p < off + DIRENT_SIZE then src[p - off] else FileByte(d, ino.addrs, p)
  {
    var a := ino.addrs;
    var bj := off / BSIZE;
    var x := BlockAddr(d, a, bj);
    assert x != a[NDIRECT];
    if a[NDIRECT] != 0 {
      assert Block(dF, a[NDIRECT]) == Block(d, a[NDIRECT]);
    }
    var bp := p / BSIZE;
    if off <= p < off + DIRENT_SIZE {
      SameBlock(off, p - off);
      assert bp == bj && p % BSIZE == off % BSIZE + (p - off);
    } else if bp == bj {
      assert p == BSIZE * bj + p % BSIZE && off == BSIZE * bj + off % BSIZE;
      assert !(off % BSIZE <= p % BSIZE < off % BSIZE + DIRENT_SIZE);
    } else {
      assert BSIZE * bp <= p < ino.size;
      assert BlockAddr(d, a, bp) != x && BlockAddr(d, a, bp) != IBlock(ino.inum);
    }
  }

  /** The bytes of the entry written after the entry write: src. */
  lemma StoredEntryAt(d: Disk, dF: Disk, ino: Inode, off: nat, src: seq<byte>)
    requires Overwrote(d, dF, ino, off, src)
    ensures FileBytes(dF, ino.addrs, off, DIRENT_SIZE) == src
  {
    var bytes := FileBytes(dF, ino.addrs, off, DIRENT_SIZE);
    forall i | 0 <= i < DIRENT_SIZE
      ensures bytes[i] == src[i]
    {
      StoredByte(d, dF, ino, off, src, off + i);
    }
  }

  /** The bytes of another entry inside the file after the entry write: as they were. */
  lemma StoredEntryElse(d: Disk, dF: Disk, ino: Inode, off: nat, src: seq<byte>, q: nat)
    requires Overwrote(d, dF, ino, off, src) && q + DIRENT_SIZE <= ino.size && (q + DIRENT_SIZE <= off || off + DIRENT_SIZE <= q)
    ensures FileBytes(dF, ino.addrs, q, DIRENT_SIZE) == FileBytes(d, ino.addrs, q, DIRENT_SIZE)
  {
    var bytes := FileBytes(dF, ino.addrs, q, DIRENT_SIZE);
    var was := FileBytes(d, ino.addrs, q, DIRENT_SIZE);
    forall i | 0 <= i < DIRENT_SIZE
      ensures bytes[i] == was[i]
    {
      StoredByte(d, dF, ino, off, src, q + i);
    }
  }

  /** Entry k after the entry write: src decoded at j, the old entry elsewhere. */
  lemma StoredEntry(d: Disk, dF: Disk, ino: Inode, j: nat, off: nat, src: seq<byte>, k: nat)
    requires Overwrote(d, dF, ino, off, src) && off == DIRENT_SIZE * j
    requires k == j || DIRENT_SIZE * k + DIRENT_SIZE <= ino.size
    ensures FileBytes(dF, ino.addrs, DIRENT_SIZE * k, DIRENT_SIZE)
            == if k == j then src else FileBytes(d, ino.addrs, DIRENT_SIZE * k, DIRENT_SIZE)
  {
    if k == j {
      StoredEntryAt(d, dF, ino, off, src);
    } else {
      EntriesApart(j, k);
      StoredEntryElse(d, dF, ino, off, src, DIRENT_SIZE * k);
    }
  }

  /** Two different entries do not overlap. */
  lemma EntriesApart(j: nat, k: nat)
    requires j != k
    ensures DIRENT_SIZE * k + DIRENT_SIZE <= DIRENT_SIZE * j || DIRENT_SIZE * j + DIRENT_SIZE <= DIRENT_SIZE * k
  {
    if k < j {
      assert DIRENT_SIZE * j == DIRENT_SIZE * k + DIRENT_SIZE * (j - k);
    } else {
      assert DIRENT_SIZE * k == DIRENT_SIZE * j + DIRENT_SIZE * (k - j);
    }
  }

  /**
   * The entry write leaves entry j holding src decoded, appended when j is
   * the entry count, and every other entry as it was.
   */
  lemma StoredEntries(d: Disk, dF: Disk, ino: Inode, ino1: Inode, j: nat, off: nat, src: seq<byte>)
    requires Overwrote(d, dF, ino, off, src) && Whole(d, ino) && j <= |Entries(d, ino)| && off == DIRENT_SIZE * j
    requires Addressed(ino1) && ino1.addrs == ino.addrs && ino1.size == Max(ino.size, off + DIRENT_SIZE)
    ensures Entries(dF, ino1) == Placed(Entries(d, ino), j, DecodeDirent(src))
  {
    var es := Entries(d, ino);
    EntryCount(d, ino);
    var es1 := Entries(dF, ino1);
    var placed := Placed(es, j, DecodeDirent(src));
    EntrySizes(ino.size, |es|, j, ino1.size);
    assert |es1| == |placed|;
    forall k | 0 <= k < |es1|
      ensures es1[k] == placed[k]
    {
      StoredEntry(d, dF, ino, j, off, src, k);
    }
  }

  /** After the entry write, a byte inside the old file or the new entry lies in a mapped block. */
  lemma StoredMapped(d: Disk, dF: Disk, ino: Inode, off: nat, src: seq<byte>, p: nat)
    requires Overwrote(d, dF, ino, off, src) && Whole(d, ino) && (p < ino.size || off <= p < off + DIRENT_SIZE)
    ensures BlockAddr(dF, ino.addrs, p / BSIZE) != 0
  {
    StoredByte(d, dF, ino, off, src, p);
    if p >= ino.size {
      SameBlock(off, p - off);
      var first: nat := BSIZE * (off / BSIZE);
      assert BlockAddr(d, ino.addrs, first / BSIZE) != 0;
    }
  }

  /** A directory of n entries grown to cover entry j holds n entries, or n + 1 when j is n. */
  lemma EntrySizes(size: nat, n: nat, j: nat, size1: nat)
    requires size == DIRENT_SIZE * n && j <= n && size1 == Max(size, DIRENT_SIZE * j + DIRENT_SIZE)
    ensures size1 / DIRENT_SIZE == if j < n then n else n + 1
  {
    if j < n {
      assert DIRENT_SIZE * j + DIRENT_SIZE <= size;
    } else {
      assert size1 == DIRENT_SIZE * (n + 1);
    }
  }

  /** A size made of whole entries, grown to cover entry j, is still made of whole entries. */
  lemma EntryMultiple(size: nat, j: nat, size1: nat)
    requires size % DIRENT_SIZE == 0 && size1 == Max(size, DIRENT_SIZE * j + DIRENT_SIZE)
    ensures size1 % DIRENT_SIZE == 0
  {
    if size1 != size {
      assert size1 == DIRENT_SIZE * (j + 1);
    }
  }

  /** The entry write leaves the directory whole. */
  lemma StoredWhole(d: Disk, dF: Disk, ino: Inode, ino1: Inode, j: nat, off: nat, src: seq<byte>)
    requires Overwrote(d, dF, ino, off, src) && Whole(d, ino) && off == DIRENT_SIZE * j && off <= ino.size
    requires Addressed(ino1) && ino1.addrs == ino.addrs && ino1.size == Max(ino.size, off + DIRENT_SIZE)
    ensures Whole(dF, ino1)
  {
    EntryMultiple(ino.size, j, ino1.size);
    forall p | 0 <= p < ino1.size
      ensures BlockAddr(dF, ino1.addrs, p / BSIZE) != 0
    {
      StoredMapped(d, dF, ino, off, src, p);
    }
  }

  /**
   * k is a successful fs1_dirlink on directory dp of c that left the
   * entries es with e placed at index j: only dp's cache entry changed,
   * and only in size, and the directory is still whole.
   */
  ghost predicate PlacedAfter(c: seq<Inode>, dp: nat, es: seq<Dirent>, j: nat, e: Dirent, k: Linked)
    requires dp < |c|
  {
    j <= |es| && k.Linked? && k.r == 0 && |k.cache| == |c| && AllAddressed(k.cache)
    && k.cache == c[dp := k.cache[dp]] && k.cache[dp] == c[dp].(size := k.cache[dp].size)
    && Whole(k.disk, k.cache[dp]) && Entries(k.disk, k.cache[dp]) == Placed(es, j, e)
  }

  /**
   * The case DirlinkPlaces covers with a write: a whole, consistent
   * directory without the name, whose first unused entry j lies in a
   * block the directory has.
   */
  ghost predicate AbsentCase(d: Disk, c: seq<Inode>, dp: nat, name: seq<char>, es: seq<Dirent>, j: nat)
  {
    dp < |c| && AllAddressed(c) && c[dp].kind == T_DIR && Whole(d, c[dp]) && Unaliased(d, c[dp]) && Narrow(name)
    && es == Entries(d, c[dp]) && FindName(es, name, 0).None? && j == FirstUnused(es, 0) && (j < |es| || c[dp].size % BSIZE != 0)
  }

  /** DirlinkPlaces for an absent name: the write fs1_dirlink ends with, at the first unused entry, into a block the directory has. */
  lemma LinkPlaces(d: Disk, c: seq<Inode>, dp: nat, name: seq<char>, inum: uint32, fixed: bool, es: seq<Dirent>, j: nat, off: nat, k: Linked)
    requires AbsentCase(d, c, dp, name, es, j) && off == DIRENT_SIZE * j && k == Dirlink(d, c, dp, name, inum, fixed)
    ensures PlacedAfter(c, dp, es, j, NewEntry(name, inum), k)
  {
    EntryCount(d, c[dp]);
    DirlinkAbsent(d, c, dp, name, inum, fixed);
    var src := EncodeDirent(NewEntry(name, inum));
    var dF, ino1 := LinkWrite(d, c, dp, name, inum, fixed, j, off);
    StoredEntries(d, dF, c[dp], ino1, j, off, src);
    StoredWhole(d, dF, c[dp], ino1, j, off, src);
    NewEntryRoundTrip(name, inum);
  }

  /** The block of entry j of a whole directory is mapped, and writing there is accepted by fs1_writei. */
  lemma LinkTarget(d: Disk, ino: Inode, es: seq<Dirent>, j: nat, off: nat)
    requires Addressed(ino) && Whole(d, ino) && es == Entries(d, ino) && j <= |es| && off == DIRENT_SIZE * j
    requires j < |es| || ino.size % BSIZE != 0
    ensures off <= ino.size && off + DIRENT_SIZE <= MAXFILE * BSIZE && off % BSIZE + DIRENT_SIZE <= BSIZE
    ensures BSIZE * (off / BSIZE) < ino.size && BlockAddr(d, ino.addrs, off / BSIZE) != 0
  {
    EntryCount(d, ino);
    EntryInBlock(j, off);
    WholeBound(d, ino);
    assert BSIZE * (off / BSIZE) < ino.size by {
      if j == |es| {
        assert off == ino.size && ino.size % BSIZE != 0;
      }
    }
    assert off / BSIZE < MAXFILE;
    var first: nat := BSIZE * (off / BSIZE);
    assert BlockAddr(d, ino.addrs, first / BSIZE) != 0;
  }

  /** The write fs1_dirlink ends with succeeds, leaving the disk as Overwrote says and the directory grown to cover the entry. */
  lemma LinkWrite(d: Disk, c: seq<Inode>, dp: nat, name: seq<char>, inum: uint32, fixed: bool, j: nat, off: nat)
    returns (dF: Disk, ino1: Inode)
    requires dp < |c| && AllAddressed(c) && Whole(d, c[dp]) && Unaliased(d, c[dp])
    requires j <= |Entries(d, c[dp])| && off == DIRENT_SIZE * j && (j < |Entries(d, c[dp])| || c[dp].size % BSIZE != 0)
    ensures off <= c[dp].size && LinkAt(d, c, dp, name, inum, fixed, off) == Linked(0, dF, c[dp := ino1])
    ensures Overwrote(d, dF, c[dp], off, EncodeDirent(NewEntry(name, inum)))
    ensures Addressed(ino1) && ino1 == c[dp].(size := ino1.size) && ino1.size == Max(c[dp].size, off + DIRENT_SIZE)
  {
    var ino := c[dp];
    var src := EncodeDirent(NewEntry(name, inum));
    LinkTarget(d, ino, Entries(d, ino), j, off);
    WriteiEntry(d, ino, src, off, fixed);
    var x := BlockAddr(d, ino.addrs, off / BSIZE);
    var d1 := Put(d, x, Splice(Block(d, x), off % BSIZE, src));
    var w := Writei(d, ino, src, off, DIRENT_SIZE, fixed);
    IupdateStored(d, d1, w.ino, x, off % BSIZE, src);
    dF, ino1 := w.disk, w.ino;
  }
}
