/**
 * What fs1_dirlink (kernel/fs/fs1.c) leaves in a directory whose new entry
 * goes to a block the directory already has, and what fs1_dirlookup then
 * finds there.
 */
module Fs1Link {
  import opened Common
  import opened Fs1Layout
  import opened Fs1Disk
  import opened Fs1
  import opened Fs1Dir

  /**
   * fs1_dirlink over a whole, consistent directory, when the entry goes to
   * a block the directory has (an unused entry, or the end of a directory
   * whose last block has room): on success the name was absent, and the
   * directory's entries are the old ones with the new entry at the first
   * unused index, or appended.
   */
  lemma DirlinkPlaces(d: Disk, c: seq<Inode>, dp: nat, name: seq<char>, inum: uint32, fixed: bool)
    requires dp < |c| && AllAddressed(c) && c[dp].kind == T_DIR && Whole(d, c[dp]) && Unaliased(d, c[dp]) && Narrow(name)
    ensures var es := Fs1Dir.Entries(d, c[dp]); var j := FirstUnused(es, 0); var k := Dirlink(d, c, dp, name, inum, fixed);
      (j < |es| || c[dp].size % BSIZE != 0) && k.Linked? && k.r == 0 ==>
        FindName(es, name, 0).None? && PlacedAfter(c, dp, es, j, NewEntry(name, inum), k)
  {
    var es := Fs1Dir.Entries(d, c[dp]);
    var j := FirstUnused(es, 0);
    if FindName(es, name, 0).None? {
      if j < |es| || c[dp].size % BSIZE != 0 {
        LinkPlaces(d, c, dp, name, inum, fixed, es, j, DIRENT_SIZE * j, Dirlink(d, c, dp, name, inum, fixed));
      }
    } else {
      DirlinkPresent(d, c, dp, name, inum, fixed);
    }
  }

  /** After a successful fs1_dirlink as DirlinkPlaces covers it, fs1_dirlookup of the name finds the new entry. */
  lemma DirlinkFinds(d: Disk, c: seq<Inode>, dp: nat, name: seq<char>, inum: uint32, fixed: bool)
    requires dp < |c| && AllAddressed(c) && c[dp].kind == T_DIR && Whole(d, c[dp]) && Unaliased(d, c[dp]) && Narrow(name)
    ensures var es := Fs1Dir.Entries(d, c[dp]); var j := FirstUnused(es, 0); var k := Dirlink(d, c, dp, name, inum, fixed);
      (j < |es| || c[dp].size % BSIZE != 0) && k.Linked? && k.r == 0 && inum % U16 != 0 ==>
        AllAddressed(k.cache) &&
        var es1 := Fs1Dir.Entries(k.disk, k.cache[dp]);
        FindName(es1, name, 0) == Some(j)
        && Dirlookup(k.disk, k.cache, dp, name) == LookedUp(k.disk, k.cache, dp, es1, Some(j))
  {
    var es := Fs1Dir.Entries(d, c[dp]);
    var j := FirstUnused(es, 0);
    var k := Dirlink(d, c, dp, name, inum, fixed);
    if (j < |es| || c[dp].size % BSIZE != 0) && k.Linked? && k.r == 0 && inum % U16 != 0 {
      DirlinkPlaces(d, c, dp, name, inum, fixed);
      NameFieldMatches(name);
      PlacedFound(es, name, NewEntry(name, inum), 0, j, Fs1Dir.Entries(k.disk, k.cache[dp]));
      DirlookupWhole(k.disk, k.cache, dp, name);
    }
  }

  /**
   * After a successful fs1_dirlink as DirlinkPlaces covers it, every name
   * the new entry does not match is looked up at the same index as before.
   */
  lemma DirlinkKeepsOthers(d: Disk, c: seq<Inode>, dp: nat, name: seq<char>, inum: uint32, fixed: bool, other: seq<char>)
    requires dp < |c| && AllAddressed(c) && c[dp].kind == T_DIR && Whole(d, c[dp]) && Unaliased(d, c[dp]) && Narrow(name)
    ensures var es := Fs1Dir.Entries(d, c[dp]); var j := FirstUnused(es, 0); var k := Dirlink(d, c, dp, name, inum, fixed);
      (j < |es| || c[dp].size % BSIZE != 0) && k.Linked? && k.r == 0 && !SameName(other, NewEntry(name, inum).name) ==>
        AllAddressed(k.cache) &&
        var es1 := Fs1Dir.Entries(k.disk, k.cache[dp]);
        FindName(es1, other, 0) == FindName(es, other, 0)
        && Dirlookup(k.disk, k.cache, dp, other) == LookedUp(k.disk, k.cache, dp, es1, FindName(es, other, 0))
  {
    var es := Fs1Dir.Entries(d, c[dp]);
    var j := FirstUnused(es, 0);
    var k := Dirlink(d, c, dp, name, inum, fixed);
    if (j < |es| || c[dp].size % BSIZE != 0) && k.Linked? && k.r == 0 && !SameName(other, NewEntry(name, inum).name) {
      DirlinkPlaces(d, c, dp, name, inum, fixed);
      PlacedKeeps(es, other, NewEntry(name, inum), 0, j, Fs1Dir.Entries(k.disk, k.cache[dp]));
      DirlookupWhole(k.disk, k.cache, dp, other);
    }
  }
}
