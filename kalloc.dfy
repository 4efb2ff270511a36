/**
 * The physical page allocator (kernel/kalloc.c): a free list of 4096-byte
 * pages threaded through the pages themselves. The list is a sequence of
 * page addresses, head first; the next pointer that the source keeps in
 * each free page is that order. Memory is a map from page address to its
 * bytes, and a kernel panic is a result that leaves the state unchanged.
 * The lock is left out: it only serialises the same updates.
 */
module Kalloc {
  import opened Common

  const PGSIZE: nat := 4096
  const PHYSTOP: nat := 0xE000000
  const KERNBASE: nat := 0xFFFF_FFFF_8000_0000

  /** PGROUNDUP: the first page boundary at or above a. */
  function PageRoundUp(a: nat): (r: nat)
    ensures r % PGSIZE == 0 && a <= r < a + PGSIZE
  {
    ((a + PGSIZE - 1) / PGSIZE) * PGSIZE
  }

  /** The 4096 bytes of value 1 that kfree fills a page with. */
  function Junk(): (s: seq<byte>)
    ensures |s| == PGSIZE && forall k :: 0 <= k < |s| ==> s[k] == 1
  {
    seq(PGSIZE, _ => 1)
  }

  /** The pages first, first + PGSIZE, … of count pages, as kfree pushes them: the last on top. */
  function Pushed(first: nat, count: nat): (s: seq<nat>)
    ensures |s| == count
    ensures forall k :: 0 <= k < count ==> s[k] == first + (count - 1 - k) * PGSIZE
  {
    if count == 0 then [] else [first + (count - 1) * PGSIZE] + Pushed(first, count - 1)
  }

  /** Address a is one of the count pages first, first + PGSIZE, …. */
  predicate InPages(first: nat, count: nat, a: nat)
  {
    a >= first && (a - first) % PGSIZE == 0 && (a - first) / PGSIZE < count
  }

  /** One more page adds exactly the page after the last. */
  lemma InPagesStep(first: nat, count: nat)
    ensures forall a :: InPages(first, count + 1, a) <==> InPages(first, count, a) || a == first + count * PGSIZE
  {
  }

  /** The page contents after kfree has filled count pages from first, the last filled last. */
  function Filled(m: map<nat, seq<byte>>, first: nat, count: nat): map<nat, seq<byte>>
    decreases count
  {
    if count == 0 then m else Filled(m, first, count - 1)[first + (count - 1) * PGSIZE := Junk()]
  }

  /** After the count pages from first are filled, each of them holds Junk() and every other page keeps what m held. */
  lemma {:induction false} FilledPages(m: map<nat, seq<byte>>, first: nat, count: nat)
    ensures var r := Filled(m, first, count);
      (forall a :: a in r <==> a in m || InPages(first, count, a))
      && (forall a :: a in r ==> r[a] == if InPages(first, count, a) then Junk() else m[a])
    decreases count
  {
    if count > 0 {
      FilledPages(m, first, count - 1);
      InPagesStep(first, count - 1);
    }
  }

  /** The outcome of kmalloc. */
  datatype Kmalloc = Page(addr: nat) | Null | NotSetUp | NullDereference

  /**
   * kmalloc as written: with the free list non-empty it returns the head,
   * and its loop takes pages further entries off the list; the uint8
   * counter i counts modulo 256 and the loop dereferences n, the entry
   * after the one it makes the new head, every round.
   */
  function KmallocAsWritten(freelist: seq<nat>, pages: nat, setUp: bool): (k: (Kmalloc, seq<nat>))
    requires pages < U16
  {
    if !setUp then (NotSetUp, freelist)
    else if freelist == [] then (Null, freelist)
    else if pages == 0 then (Page(freelist[0]), freelist)
    else if pages < 256 && pages + 1 <= |freelist| then (Page(freelist[0]), freelist[pages..])
    else (NullDereference, freelist)
  }

  /** One free page and kmalloc(1): the loop reads the next pointer of the NULL after it. */
  lemma KmallocLastPageFaults(a: nat)
    ensures KmallocAsWritten([a], 1, true).0 == NullDereference
  {
  }

  /** kmalloc(256) never reaches i == pages with an 8-bit counter, whatever the list holds. */
  lemma KmallocWideCountFaults(freelist: seq<nat>)
    requires freelist != []
    ensures KmallocAsWritten(freelist, 256, true).0 == NullDereference
  {
  }

  /**
   * kmalloc as evidently intended: with at least pages >= 1 free pages it
   * removes the first pages of them and returns the head; otherwise it
   * returns NULL and leaves the list alone.
   */
  function KmallocIntended(freelist: seq<nat>, pages: nat, setUp: bool): (k: (Kmalloc, seq<nat>))
    requires pages < U16
    ensures k.0.Page? ==> 1 <= pages <= |freelist| && k.0.addr == freelist[0] && k.1 == freelist[pages..]
    ensures !k.0.Page? ==> k.1 == freelist
    ensures setUp && 1 <= pages <= |freelist| <==> k.0.Page?
  {
    if !setUp then (NotSetUp, freelist)
    else if pages == 0 || |freelist| < pages then (Null, freelist)
    else (Page(freelist[0]), freelist[pages..])
  }

  class Kmem {
    /** The free list, head first. */
    var freelist: seq<nat>
    var useLock: bool
    var fullySetUp: bool
    /** The contents of the pages kfree has filled. */
    var mem: map<nat, seq<byte>>
    /** The first address after the kernel image. */
    const end: nat

    constructor (kernelEnd: nat)
      ensures freelist == [] && !useLock && !fullySetUp && mem == map[] && end == kernelEnd
    {
      freelist := [];
      useLock := false;
      fullySetUp := false;
      mem := map[];
      end := kernelEnd;
    }

    /** kfree's check: page-aligned, above the kernel and below PHYSTOP physically. */
    predicate Freeable(v: nat)
      reads this
    {
      v % PGSIZE == 0 && v >= end && v >= KERNBASE && v - KERNBASE < PHYSTOP
    }

    /** kfree: panics on an unfreeable page; otherwise fills it with 1s and pushes it on the list. */
    method Kfree(v: nat) returns (panicked: bool)
      modifies this
      ensures panicked == !Freeable(v)
      ensures panicked ==> freelist == old(freelist) && mem == old(mem)
      ensures !panicked ==> freelist == [v] + old(freelist) && mem == old(mem)[v := Junk()]
      ensures useLock == old(useLock) && fullySetUp == old(fullySetUp)
    {
      if v % PGSIZE != 0 || v < end || v < KERNBASE || v - KERNBASE >= PHYSTOP {
        return true;
      }
      mem := mem[v := Junk()];
      freelist := [v] + freelist;
      panicked := false;
    }

    /** kalloc: pops the head of the list, or returns 0 with the list unchanged when it is empty. */
    method Kalloc() returns (r: nat)
      modifies this
      ensures old(freelist) == [] ==> r == 0 && freelist == []
      ensures old(freelist) != [] ==> r == old(freelist)[0] && freelist == old(freelist)[1..]
      ensures mem == old(mem) && useLock == old(useLock) && fullySetUp == old(fullySetUp)
    {
      if freelist == [] {
        return 0;
      }
      r := freelist[0];
      freelist := freelist[1..];
    }

    /** kalloc right after a kfree that did not panic returns that page, and the list is as before. */
    method FreeThenAlloc(v: nat) returns (r: nat)
      requires Freeable(v)
      modifies this
      ensures r == v && freelist == old(freelist)
    {
      var panicked := Kfree(v);
      r := Kalloc();
    }

    /**
     * What freerange(vstart, vend) does when it frees count pages: the
     * pages from PGROUNDUP(vstart) on are freeable and lie before vend, and
     * it panics exactly on a whole page before vend that kfree refuses,
     * stopping there; otherwise the next page would pass vend.
     */
    predicate FreedRange(vstart: nat, vend: nat, count: nat, panicked: bool)
      reads this
    {
      var first := PageRoundUp(vstart);
      first + count * PGSIZE <= Max(vend, first)
      && (panicked <==> first + (count + 1) * PGSIZE <= vend && !Freeable(first + count * PGSIZE))
      && (!panicked ==> first + (count + 1) * PGSIZE > vend)
      && forall k :: 0 <= k < count ==> Freeable(first + k * PGSIZE)
    }

    /**
     * freerange: kfree of every whole page from PGROUNDUP(vstart) on while
     * it ends at or before vend; count is the number of pages freed
     * (up to the one that panicked).
     */
    method Freerange(vstart: nat, vend: nat) returns (panicked: bool, ghost count: nat)
      modifies this
      ensures FreedRange(vstart, vend, count, panicked)
      ensures freelist == Pushed(PageRoundUp(vstart), count) + old(freelist)
      ensures mem == Filled(old(mem), PageRoundUp(vstart), count)
      ensures useLock == old(useLock) && fullySetUp == old(fullySetUp)
    {
      var p := PageRoundUp(vstart);
      ghost var first := p;
      count := 0;
      while p + PGSIZE <= vend
        invariant p == first + count * PGSIZE && p <= Max(vend, first)
        invariant forall k :: 0 <= k < count ==> Freeable(first + k * PGSIZE)
        invariant freelist == Pushed(first, count) + old(freelist)
        invariant mem == Filled(old(mem), first, count)
        invariant useLock == old(useLock) && fullySetUp == old(fullySetUp)
        decreases vend - p
      {
        panicked := Kfree(p);
        if panicked {
          return;
        }
        assert mem == Filled(old(mem), first, count + 1);
        count := count + 1;
        p := p + PGSIZE;
      }
      panicked := false;
    }

    /** kinit1: the pages of the range go on the free list as freerange pushes them, without the lock. */
    method Kinit1(vstart: nat, vend: nat) returns (panicked: bool, ghost count: nat)
      modifies this
      ensures FreedRange(vstart, vend, count, panicked)
      ensures freelist == Pushed(PageRoundUp(vstart), count) + old(freelist)
      ensures mem == Filled(old(mem), PageRoundUp(vstart), count)
      ensures !useLock && fullySetUp == old(fullySetUp)
    {
      useLock := false;
      panicked, count := Freerange(vstart, vend);
    }

    /**
     * kinit2: the rest of the pages go on the free list; from then on the
     * lock is used and kmalloc allowed.
     */
    method Kinit2(vstart: nat, vend: nat) returns (panicked: bool, ghost count: nat)
      modifies this
      ensures FreedRange(vstart, vend, count, panicked)
      ensures freelist == Pushed(PageRoundUp(vstart), count) + old(freelist)
      ensures mem == Filled(old(mem), PageRoundUp(vstart), count)
      ensures !panicked ==> useLock && fullySetUp
      ensures panicked ==> useLock == old(useLock) && fullySetUp == old(fullySetUp)
    {
      panicked, count := Freerange(vstart, vend);
      if !panicked {
        useLock := true;
        fullySetUp := true;
      }
    }

    /**
     * kmalloc as written: the head is returned, and the loop takes the
     * list to the entry pages places on, reading one further next pointer
     * each round.
     */
    method KmallocAsWrittenLoop(pages: nat) returns (res: Kmalloc)
      requires pages < U16
      modifies this
      ensures (res, freelist) == KmallocAsWritten(old(freelist), pages, old(fullySetUp))
      ensures mem == old(mem) && fullySetUp == old(fullySetUp)
    {
      if !fullySetUp {
        return NotSetUp;
      }
      if freelist == [] {
        return Null;
      }
      var all := freelist;
      var r := freelist[0];
      var n: Option<nat> := if |freelist| > 1 then Some(1) else None;   // the position of r->next
      var i := 0;
      var head := 0;
      while i != pages
        invariant 0 <= i < 256 && head < |all|
        invariant freelist == all[head..] && all == old(freelist)
        invariant pages == 0 ==> i == 0 && head == 0
        invariant pages > 0 && pages < 256 ==> i <= pages && head == i
        invariant pages >= 256 ==> head % 256 == i
        invariant n == (if head + 1 < |all| then Some(head + 1) else None)
        invariant mem == old(mem) && fullySetUp == old(fullySetUp) && r == all[0]
        decreases |all| - head
      {
        if n.None? {
          freelist := all;
          return NullDereference;
        }
        freelist := all[n.value..];
        head := n.value;
        n := if head + 1 < |all| then Some(head + 1) else None;
        i := (i + 1) % 256;
      }
      res := Page(r);
    }
  }
}
