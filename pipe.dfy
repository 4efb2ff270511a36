/**
 * Pipes (kernel/pipe.c): a ring of PIPESIZE bytes with counters nread and
 * nwrite of the bytes read and written so far, and a flag for each open
 * end. The counters are unbounded here; the source's 32-bit counters wrap
 * at 2^32, which PIPESIZE divides, so slots and differences agree. The
 * lock is a parameter saying whether sacquire succeeded, the killed flag
 * of the calling process a parameter, and each bounded spin-wait is
 * replaced by its outcome: the caller holds the lock while it spins, so
 * the other end cannot change the pipe meanwhile.
 */
module Pipe {
  import opened Common

  const PIPESIZE: nat := 512
  const F_ERROR: int := -1
  const FNOT_READY: int := -2

  /** The readable and writable flags of a file structure. */
  datatype FileEnd = FileEnd(readable: bool, writable: bool)

  class Pipe {
    const data: array<byte>
    var nread: nat
    var nwrite: nat
    var readopen: bool
    var writeopen: bool
    /** Set when pipeclose frees the page. */
    var freed: bool
    /** The bytes written and not yet read, oldest first. */
    ghost var contents: seq<byte>

    /** nread <= nwrite <= nread + PIPESIZE, and byte k of contents is in slot (nread + k) mod PIPESIZE. */
    ghost predicate Valid()
      reads this, data
    {
      data.Length == PIPESIZE && nread <= nwrite <= nread + PIPESIZE
      && |contents| == nwrite - nread
      && forall k :: 0 <= k < |contents| ==> contents[k] == data[(nread + k) % PIPESIZE]
    }

    /** The pipe part of pipealloc: both ends open and no byte written or read. */
    constructor ()
      ensures Valid() && fresh(data)
      ensures nread == 0 && nwrite == 0 && readopen && writeopen && !freed && contents == []
    {
      data := new byte[PIPESIZE];
      nread, nwrite := 0, 0;
      readopen, writeopen := true, true;
      freed := false;
      contents := [];
    }

    /** pipeclose: one end's flag is cleared; the pipe is freed only once both are. */
    method Close(writable: bool)
      modifies this
      ensures writeopen == (old(writeopen) && !writable)
      ensures readopen == (old(readopen) && writable)
      ensures freed == (old(freed) || (!readopen && !writeopen))
      ensures nread == old(nread) && nwrite == old(nwrite) && contents == old(contents)
    {
      if writable {
        writeopen := false;
      } else {
        readopen := false;
      }
      if !readopen && !writeopen {
        freed := true;
      }
    }

    /**
     * pipewrite: the bytes of addr go in order into slots nwrite mod
     * PIPESIZE until n are written, or the pipe is full; then F_ERROR if
     * the reader has closed or the caller is killed and FNOT_READY
     * otherwise, the bytes already written staying in the pipe.
     */
    method Write(addr: seq<byte>, n: int, locked: bool, killed: bool) returns (res: int)
      requires Valid() && n <= |addr|
      modifies this, data
      ensures Valid() && nread == old(nread)
      ensures readopen == old(readopen) && writeopen == old(writeopen) && freed == old(freed)
      ensures var written := if locked then Min(Max(n, 0), PIPESIZE - |old(contents)|) else 0;
        contents == old(contents) + addr[..written]
      ensures res == if !locked then FNOT_READY
                     else if n <= PIPESIZE - |old(contents)| then n
                     else if !readopen || killed then F_ERROR
                     else FNOT_READY
    {
      if !locked {
        return FNOT_READY;
      }
      var i := 0;
      while i < n
        invariant Valid() && nread == old(nread) && 0 <= i <= Max(n, 0)
        invariant i <= PIPESIZE - |old(contents)|
        invariant contents == old(contents) + addr[..i]
        invariant readopen == old(readopen) && writeopen == old(writeopen) && freed == old(freed)
      {
        if nwrite == nread + PIPESIZE {
          if !readopen || killed {
            return F_ERROR;
          }
          return FNOT_READY;
        }
        Push(addr[i]);
        assert addr[..i + 1] == addr[..i] + [addr[i]];
        i := i + 1;
      }
      res := n;
    }

    /** One byte into slot nwrite mod PIPESIZE. */
    method Push(b: byte)
      requires Valid() && nwrite < nread + PIPESIZE
      modifies this, data
      ensures Valid() && contents == old(contents) + [b]
      ensures nread == old(nread) && nwrite == old(nwrite) + 1
      ensures readopen == old(readopen) && writeopen == old(writeopen) && freed == old(freed)
    {
      data[nwrite % PIPESIZE] := b;
      forall k | 0 <= k < |contents|
        ensures contents[k] == data[(nread + k) % PIPESIZE]
      {
        DistinctSlots(nread + k, nwrite);
      }
      contents := contents + [b];
      nwrite := nwrite + 1;
    }

    /**
     * piperead: FNOT_READY or F_ERROR while the pipe is empty and its
     * writer open; otherwise the oldest bytes, up to n, go to addr in
     * order, and their count is returned (0 for an empty pipe whose writer
     * has closed).
     */
    method Read(addr: array<byte>, n: int, locked: bool, killed: bool) returns (res: int)
      requires Valid() && n <= addr.Length && addr != data
      modifies this, addr
      ensures Valid() && nwrite == old(nwrite) && data[..] == old(data[..])
      ensures readopen == old(readopen) && writeopen == old(writeopen) && freed == old(freed)
      ensures !locked || (old(contents) == [] && writeopen) ==>
        res == (if locked && killed then F_ERROR else FNOT_READY)
        && contents == old(contents) && addr[..] == old(addr[..])
      ensures locked && (old(contents) != [] || !writeopen) ==>
        var got := Min(Max(n, 0), |old(contents)|);
        res == got && addr[..got] == old(contents)[..got] && addr[got..] == old(addr[got..])
        && contents == old(contents)[got..]
    {
      if !locked {
        return FNOT_READY;
      }
      if nread == nwrite && writeopen {
        if killed {
          return F_ERROR;
        }
        return FNOT_READY;
      }
      var i := 0;
      while i < n
        invariant Valid() && nwrite == old(nwrite) && data[..] == old(data[..])
        invariant 0 <= i <= Max(n, 0) && i <= |old(contents)|
        invariant contents == old(contents)[i..]
        invariant readopen == old(readopen) && writeopen == old(writeopen) && freed == old(freed)
        invariant addr[..i] == old(contents)[..i] && addr[i..] == old(addr[i..])
      {
        if nread == nwrite {
          break;
        }
        addr[i] := data[nread % PIPESIZE];
        assert addr[..i + 1] == addr[..i] + [old(contents)[i]];
        nread := nread + 1;
        contents := contents[1..];
        i := i + 1;
      }
      res := i;
    }
  }

  /** Two counter values less than PIPESIZE apart name different slots. */
  lemma DistinctSlots(a: nat, b: nat)
    requires a < b < a + PIPESIZE
    ensures a % PIPESIZE != b % PIPESIZE
  {
    assert a == (a / PIPESIZE) * PIPESIZE + a % PIPESIZE;
    assert b == (b / PIPESIZE) * PIPESIZE + b % PIPESIZE;
  }

  /**
   * pipealloc: with both file structures and the page allocated, the read
   * end is readable only and the write end writable only, around a new
   * pipe; any allocation failing gives -1 and no file.
   */
  method PipeAlloc(file0: bool, file1: bool, page: bool) returns (r: int, f0: Option<FileEnd>, f1: Option<FileEnd>, p: Pipe?)
    ensures r == 0 <==> file0 && file1 && page
    ensures r == 0 ==>
      f0 == Some(FileEnd(true, false)) && f1 == Some(FileEnd(false, true))
      && p != null && fresh(p) && p.Valid() && p.contents == [] && p.readopen && p.writeopen
    ensures r != 0 ==> r == -1 && f0.None? && f1.None? && p == null
  {
    if !file0 || !file1 || !page {
      return -1, None, None, null;
    }
    p := new Pipe();
    r, f0, f1 := 0, Some(FileEnd(true, false)), Some(FileEnd(false, true));
  }
}
