/**
 * The process table of kernel/proc.c: a list of nodes, grown a page at a
 * time, that every operation walks with EACH_PTABLE_NODE. The list is the
 * sequence procs in list order; a node is named by its position, which
 * never changes because the list only grows at its end, and a pointer to
 * a process (parent, initproc, the current process) is such a position.
 * Every scan stops at the node whose next is null, so the last node of
 * the list is never visited: it is the zeroed node a growth appended.
 * Kernel stacks, page tables, open files, names and the context switch
 * are not part of this model; allocations that can fail are given as
 * their outcome.
 */
module ProcTable {
  import opened Common

  const PROC_BLESSED: byte := 1
  const PROC_DAMNED: byte := 0
  const PROC_NO_BOOST_PRIORITY: byte := 0x0A
  const PROC_DEFAULT_PRIORITY: byte := 0x80
  const PROC_MAX_PRIORITY: byte := 0xFF
  const CPU_RESERVED_BLESS: nat := 0x01
  const CPU_DISABLED: nat := 0x02

  datatype State = Unused | Embryo | Sleeping | Runnable | Running | Zombie

  /** What a process sleeps on: nothing (0), a process (wait sleeps on itself) or some other object. */
  datatype Chan = NoChan | OnProc(node: nat) | OnObject(addr: nat)

  /** The fields of struct proc this model keeps; pipes says whether rpipe and wpipe are both allocated. */
  datatype Proc = Proc(state: State, pid: int, parent: Option<nat>, chan: Chan, killed: int,
                       blessed: byte, priority: byte, skipped: uint32, pipes: bool)

  /** A node of a page fresh from memset(ptr, 0, 4096). */
  const Zero: Proc := Proc(Unused, 0, None, NoChan, 0, 0, 0, 0, false)

  /** The n zeroed nodes of a new page. */
  function ZeroNodes(n: nat): (r: seq<Proc>)
    ensures |r| == n && forall j :: 0 <= j < n ==> r[j] == Zero
  {
    seq(n, _ => Zero)
  }

  /** Node j is visited by the scans: it is not the last node of the list. */
  predicate Visible(ps: seq<Proc>, j: int)
  {
    0 <= j && j + 1 < |ps|
  }

  /** What a scan looks for. */
  datatype Match = ByPid(pid: int) | LivePid(pid: int) | Free | ZombieChildOf(node: nat)

  predicate Matches(p: Proc, m: Match)
  {
    match m
    case ByPid(pid) => p.pid == pid
    case LivePid(pid) => p.state != Unused && p.pid == pid
    case Free => p.state == Unused
    case ZombieChildOf(n) => p.parent == Some(n) && p.state == Zombie
  }

  /** The first node from k on that the scan visits and that matches m. */
  function First(ps: seq<Proc>, m: Match, k: nat): (r: Option<nat>)
    ensures r.Some? ==> k <= r.value && Visible(ps, r.value) && Matches(ps[r.value], m)
                        && forall j :: k <= j < r.value ==> !Matches(ps[j], m)
    ensures r.None? ==> forall j :: k <= j && Visible(ps, j) ==> !Matches(ps[j], m)
    decreases |ps| - k
  {
    if k + 1 >= |ps| then None
    else if Matches(ps[k], m) then Some(k)
    else First(ps, m, k + 1)
  }

  /** The pointer the scans compare or sleep on: a process, or null. */
  function ChanOf(p: Option<nat>): Chan
  {
    if p.None? then NoChan else OnProc(p.value)
  }

  /** wakeup1's effect on one node. */
  function WakeOne(p: Proc, c: Chan): Proc
  {
    if p.state == Sleeping && p.chan == c then p.(state := Runnable) else p
  }

  /** wakeup1(c): every visited node. */
  function Woken(ps: seq<Proc>, c: Chan): (r: seq<Proc>)
    ensures |r| == |ps|
  {
    seq(|ps|, j requires 0 <= j < |ps| => if j + 1 < |ps| then WakeOne(ps[j], c) else ps[j])
  }

  /**
   * After wakeup1(c) no visited process sleeps on c, every one that did is
   * RUNNABLE, and nothing else changed.
   */
  lemma WokenSpec(ps: seq<Proc>, c: Chan)
    ensures forall j :: Visible(ps, j) ==> !(Woken(ps, c)[j].state == Sleeping && Woken(ps, c)[j].chan == c)
    ensures forall j :: Visible(ps, j) && ps[j].state == Sleeping && ps[j].chan == c ==> Woken(ps, c)[j] == ps[j].(state := Runnable)
    ensures forall j :: 0 <= j < |ps| && !(Visible(ps, j) && ps[j].state == Sleeping && ps[j].chan == c) ==> Woken(ps, c)[j] == ps[j]
  {
  }

  /** wakeup1 twice is wakeup1 once. */
  lemma WokenIdempotent(ps: seq<Proc>, c: Chan)
    ensures Woken(Woken(ps, c), c) == Woken(ps, c)
  {
    var w := Woken(ps, c);
    assert forall j :: 0 <= j < |ps| ==> Woken(w, c)[j] == w[j];
  }

  /* ---------------- the scheduler's choice ---------------- */

  /** The CPU takes only blessed processes (CPU_RESERVED_BLESS, bit 0 of its capabilities). */
  predicate Reserved(caps: nat)
  {
    caps % 2 == 1
  }

  /** The CPU is disabled (CPU_DISABLED, bit 1 of its capabilities). */
  predicate Disabled(caps: nat)
  {
    (caps / 2) % 2 == 1
  }

  /** A process the scheduler may pick, on a CPU reserved for blessed processes or not. */
  predicate Eligible(p: Proc, reserved: bool)
  {
    p.state == Runnable && !(reserved && p.blessed != PROC_BLESSED)
  }

  /**
   * The effective priority: priority + skipped (a 32-bit unsigned sum)
   * above PROC_NO_BOOST_PRIORITY, else priority, capped at
   * PROC_MAX_PRIORITY.
   */
  function Eff(p: Proc): (e: nat)
    ensures e <= PROC_MAX_PRIORITY
  {
    var raw := if p.priority > PROC_NO_BOOST_PRIORITY then (p.priority + p.skipped) % U32 else p.priority;
    if raw > PROC_MAX_PRIORITY then PROC_MAX_PRIORITY else raw
  }

  /** One more skip, wrapping at 2^32. */
  function Bump(p: Proc): Proc
  {
    p.(skipped := (p.skipped + 1) % U32)
  }

  /**
   * A process above PROC_NO_BOOST_PRIORITY that is passed over gains one
   * point of effective priority, up to the cap, until skipped wraps; one
   * at or below it never gains any.
   */
  lemma BumpBoosts(p: Proc)
    ensures p.priority > PROC_NO_BOOST_PRIORITY && p.priority + p.skipped + 1 < U32 ==> Eff(Bump(p)) == Min(Eff(p) + 1, PROC_MAX_PRIORITY)
    ensures p.priority <= PROC_NO_BOOST_PRIORITY ==> Eff(Bump(p)) == Eff(p) == p.priority
  {
  }

  /** The scheduler's best among the first k nodes: a later eligible one of at least the same effective priority wins. */
  function BestIn(ps: seq<Proc>, reserved: bool, k: nat): (r: Option<nat>)
    requires k <= |ps|
    ensures r.Some? ==> r.value < k
    decreases k
  {
    if k == 0 then None
    else
      var b := BestIn(ps, reserved, k - 1);
      if Eligible(ps[k - 1], reserved) && (b.None? || Eff(ps[k - 1]) >= Eff(ps[b.value])) then Some(k - 1) else b
  }

  /**
   * The choice among the first k nodes is an eligible one of maximal
   * effective priority, later than any other of that priority, and there
   * is none exactly when no node is eligible.
   */
  lemma {:induction false} BestInIsBest(ps: seq<Proc>, reserved: bool, k: nat)
    requires k <= |ps|
    ensures BestIn(ps, reserved, k).None? <==> forall j :: 0 <= j < k ==> !Eligible(ps[j], reserved)
    ensures var b := BestIn(ps, reserved, k);
      b.Some? ==> b.value < k && Eligible(ps[b.value], reserved)
                  && (forall j :: 0 <= j < k && Eligible(ps[j], reserved) ==> Eff(ps[j]) <= Eff(ps[b.value]))
                  && (forall j :: b.value < j < k && Eligible(ps[j], reserved) ==> Eff(ps[j]) < Eff(ps[b.value]))
    decreases k
  {
    if k > 0 {
      BestInIsBest(ps, reserved, k - 1);
    }
  }

  /**
   * The pass over ps: the chosen process becomes RUNNING with skipped 0,
   * every other eligible visited one is skipped once more, and the rest is
   * unchanged.
   */
  function Scheduled(ps: seq<Proc>, reserved: bool, best: Option<nat>): (r: seq<Proc>)
    ensures |r| == |ps|
  {
    seq(|ps|, j requires 0 <= j < |ps| =>
      if best == Some(j) then ps[j].(state := Running, skipped := 0)
      else if j + 1 < |ps| && Eligible(ps[j], reserved) then Bump(ps[j])
      else ps[j])
  }

  /**
   * Node j partway through the pass, at node i with best the best so far:
   * skipped once more when it lies before i, is eligible and is not best.
   */
  function Partway(p: Proc, j: nat, i: nat, best: Option<nat>, reserved: bool): Proc
  {
    if j < i && Eligible(p, reserved) && best != Some(j) then Bump(p) else p
  }

  /** How the best so far moves on at node i. */
  lemma BestStep(ps: seq<Proc>, reserved: bool, i: nat)
    requires i < |ps|
    ensures var b := BestIn(ps, reserved, i);
      BestIn(ps, reserved, i + 1) == if Eligible(ps[i], reserved) && (b.None? || Eff(ps[i]) >= Eff(ps[b.value])) then Some(i) else b
  {
  }

  /** At the end of the pass, crowning the best gives Scheduled's table. */
  lemma PartwayScheduled(ps: seq<Proc>, table: seq<Proc>, reserved: bool, best: Option<nat>, i: nat)
    requires i + 1 == |ps| && |table| == |ps| && (best.Some? ==> best.value < i)
    requires forall j :: 0 <= j < |ps| ==> table[j] == Partway(ps[j], j, i, best, reserved)
    ensures var t := if best.Some? then table[best.value := table[best.value].(state := Running, skipped := 0)] else table;
      t == Scheduled(ps, reserved, best) && t[|ps| - 1] == ps[|ps| - 1]
  {
    var t := if best.Some? then table[best.value := table[best.value].(state := Running, skipped := 0)] else table;
    assert forall j :: 0 <= j < |ps| ==> t[j] == Scheduled(ps, reserved, best)[j];
  }

  /**
   * The scheduler's loop over the table: it keeps the best eligible node
   * so far (a later one of at least its effective priority replaces it)
   * and skips every other eligible one; the best is then made RUNNING.
   */
  method Pass(ps: seq<Proc>, reserved: bool) returns (table: seq<Proc>, best: Option<nat>)
    requires |ps| >= 1
    ensures best == BestIn(ps, reserved, |ps| - 1) && table == Scheduled(ps, reserved, best)
    ensures table[|ps| - 1] == ps[|ps| - 1]
  {
    table := ps;
    var highest := 0;
    best := None;
    var i := 0;
    while i + 1 < |table|
      invariant 0 <= i < |table| && |table| == |ps|
      invariant best == BestIn(ps, reserved, i) && (best.Some? ==> best.value < i && Eligible(ps[best.value], reserved))
      invariant highest == if best.Some? then Eff(ps[best.value]) else 0
      invariant forall j :: 0 <= j < |ps| ==> table[j] == Partway(ps[j], j, i, best, reserved)
    {
      table, best, highest := PassStep(ps, reserved, i, table, best, highest);
      i := i + 1;
    }
    PartwayScheduled(ps, table, reserved, best, i);
    if best.Some? {
      table := table[best.value := table[best.value].(state := Running, skipped := 0)];
    }
  }

  /** One node of the scheduler's loop. */
  method PassStep(ps: seq<Proc>, reserved: bool, i: nat, table: seq<Proc>, best: Option<nat>, highest: nat)
    returns (table': seq<Proc>, best': Option<nat>, highest': nat)
    requires i + 1 < |ps| && |table| == |ps|
    requires best == BestIn(ps, reserved, i) && (best.Some? ==> best.value < i && Eligible(ps[best.value], reserved))
    requires highest == if best.Some? then Eff(ps[best.value]) else 0
    requires forall j :: 0 <= j < |ps| ==> table[j] == Partway(ps[j], j, i, best, reserved)
    ensures best' == BestIn(ps, reserved, i + 1) && (best'.Some? ==> best'.value < i + 1 && Eligible(ps[best'.value], reserved))
    ensures highest' == if best'.Some? then Eff(ps[best'.value]) else 0
    ensures |table'| == |ps| && forall j :: 0 <= j < |ps| ==> table'[j] == Partway(ps[j], j, i + 1, best', reserved)
  {
    BestStep(ps, reserved, i);
    assert table[i] == ps[i];
    table', best', highest' := table, best, highest;
    if Eligible(table[i], reserved) {
      var e := Eff(table[i]);
      if e >= highest {
        if best.Some? {
          table' := table[best.value := Bump(table[best.value])];
        }
        best' := Some(i);
        highest' := e;
      } else {
        table' := table[i := Bump(table[i])];
      }
    }
  }

  /**
   * On a CPU reserved for blessed processes a damned one is neither
   * chosen nor counted as skipped.
   */
  lemma ReservedSkipsDamned(ps: seq<Proc>, reserved: bool, j: nat)
    requires 2 <= |ps| && j < |ps| && reserved && ps[j].blessed != PROC_BLESSED
    ensures BestIn(ps, reserved, |ps| - 1) != Some(j)
    ensures Scheduled(ps, reserved, BestIn(ps, reserved, |ps| - 1))[j] == ps[j]
  {
    BestInIsBest(ps, reserved, |ps| - 1);
  }

  /* ---------------- exit ---------------- */

  /** exit's reparenting of one node. */
  function Reparent(p: Proc, cur: nat, init: Option<nat>): Proc
  {
    if p.parent == Some(cur) then p.(parent := init) else p
  }

  /** Some visited child of cur in ps is a ZOMBIE before node i. */
  predicate ZombieChildBefore(ps: seq<Proc>, cur: nat, i: nat)
  {
    exists j :: 0 <= j < i && Visible(ps, j) && ps[j].parent == Some(cur) && ps[j].state == Zombie
  }

  /**
   * exit's pass over the children of cur in w: each visited one passes to
   * init, and init is woken when one of them is a ZOMBIE.
   */
  function Reparented(w: seq<Proc>, cur: nat, init: Option<nat>): (r: seq<Proc>)
    ensures |r| == |w|
  {
    var rp := seq(|w|, j requires 0 <= j < |w| => if j + 1 < |w| then Reparent(w[j], cur, init) else w[j]);
    if ZombieChildBefore(w, cur, |w|) then Woken(rp, ChanOf(init)) else rp
  }

  /**
   * The table after exit by cur: its parent is woken, its children are
   * Reparented, and cur becomes a ZOMBIE.
   */
  function Exited(ps: seq<Proc>, cur: nat, init: Option<nat>): (r: seq<Proc>)
    requires cur < |ps|
    ensures |r| == |ps|
  {
    var w2 := Reparented(Woken(ps, ChanOf(ps[cur].parent)), cur, init);
    w2[cur := w2[cur].(state := Zombie)]
  }

  /**
   * After exit (by a process other than init) no visited node has cur as
   * its parent; those that had now have init; every other parent is
   * unchanged; and cur is a ZOMBIE.
   */
  lemma ExitedReparents(ps: seq<Proc>, cur: nat, init: Option<nat>)
    requires cur < |ps| && init != Some(cur)
    ensures var r := Exited(ps, cur, init);
      r[cur].state == Zombie
      && (forall j :: Visible(ps, j) ==> r[j].parent != Some(cur))
      && (forall j :: Visible(ps, j) && ps[j].parent == Some(cur) ==> r[j].parent == init)
      && (forall j :: 0 <= j < |ps| && (ps[j].parent != Some(cur) || !Visible(ps, j)) ==> r[j].parent == ps[j].parent)
  {
    var w := Woken(ps, ChanOf(ps[cur].parent));
    assert forall j :: 0 <= j < |ps| ==> w[j].parent == ps[j].parent;
  }

  /* ---------------- wait, kill ---------------- */

  /** What wait gives: a reaped child's pid, -1, or the sleep until a child exits. */
  datatype Waited = Reaped(pid: int) | NoChildren | Blocks

  /** cur has a visited child. */
  predicate HasChild(ps: seq<Proc>, cur: nat)
  {
    exists j :: 0 <= j < |ps| - 1 && ps[j].parent == Some(cur)
  }

  /** A reaped node: UNUSED, with pid, parent and killed cleared and the rest kept. */
  function Reap(p: Proc): Proc
  {
    p.(state := Unused, pid := 0, parent := None, killed := 0)
  }

  /** kill's effect on the node it found. */
  function KillOne(p: Proc): Proc
  {
    p.(killed := 1, state := if p.state == Sleeping then Runnable else p.state)
  }

  /** The processes the scan finds with the given pid: as written, any node; fixed, only a used one. */
  function KillTarget(pid: int, fixed: bool): Match
  {
    if fixed then LivePid(pid) else ByPid(pid)
  }

  /**
   * As written, kill(0) on the table pinit makes succeeds: it marks the
   * free first node killed, and allocproc then hands that node, still
   * killed, to the first process.
   */
  lemma KillZeroAsWritten(allot: nat)
    requires allot >= 2
    ensures var ps := ZeroNodes(allot);
      var f := First(ps, KillTarget(0, false), 0);
      f == Some(0)
      && var k := ps[0 := KillOne(ps[0])];
         First(k, Free, 0) == Some(0) && Taken(k[0], 1, true).killed == 1 && Taken(k[0], 1, true).state == Embryo
  {
    var ps := ZeroNodes(allot);
    assert Matches(ps[0], ByPid(0));
    var k := ps[0 := KillOne(ps[0])];
    assert Matches(k[0], Free);
  }

  /** Fixed, kill(0) on the table pinit makes finds nothing and returns -1. */
  lemma KillZeroFixed(allot: nat)
    ensures First(ZeroNodes(allot), KillTarget(0, true), 0) == None
  {
  }

  /** Fixed, kill only ever marks a used process, so a free node is never born killed. */
  lemma FixedKillFindsLive(ps: seq<Proc>, pid: int)
    ensures var f := First(ps, LivePid(pid), 0);
      f.Some? ==> ps[f.value].state != Unused && ps[f.value].pid == pid
    ensures First(ps, LivePid(pid), 0).None? <==> forall j :: Visible(ps, j) ==> ps[j].state == Unused || ps[j].pid != pid
  {
  }

  /* ---------------- growth ---------------- */

  /** A table whose last node is the zeroed one that no scan visits. */
  predicate WellFormed(ps: seq<Proc>)
  {
    |ps| >= 1 && ps[|ps| - 1] == Zero
  }

  /**
   * When no visited node is free, growing the table makes its former last
   * node visible, and that zeroed node is the first free one; the new last
   * node is zeroed again.
   */
  lemma GrowthFreesLast(ps: seq<Proc>, allot: nat)
    requires WellFormed(ps) && allot >= 1 && First(ps, Free, 0).None?
    ensures First(ps + ZeroNodes(allot), Free, 0) == Some(|ps| - 1)
    ensures WellFormed(ps + ZeroNodes(allot))
  {
    var g := ps + ZeroNodes(allot);
    assert forall j :: 0 <= j < |ps| - 1 ==> g[j] == ps[j];
    assert g[|ps| - 1] == Zero;
  }

  /** The node allocproc takes, given whether growptable's page can be had. */
  function AllocSlot(ps: seq<Proc>, pageOk: bool): Option<nat>
    requires |ps| >= 1
  {
    var f := First(ps, Free, 0);
    if f.Some? then f else if pageOk then Some(|ps| - 1) else None
  }

  /** The table allocproc works on: grown when no visited node is free and a page can be had. */
  function Grown(ps: seq<Proc>, allot: nat, pageOk: bool): (r: seq<Proc>)
  {
    if First(ps, Free, 0).None? && pageOk then ps + ZeroNodes(allot) else ps
  }

  /** allocproc's claim on a node: EMBRYO with the next pid and the default priority, or back to UNUSED when no kernel stack was had. */
  function Taken(p: Proc, pid: int, stackOk: bool): Proc
  {
    p.(state := if stackOk then Embryo else Unused, pid := pid, priority := PROC_DEFAULT_PRIORITY)
  }

  /**
   * The node allocproc takes is the first free node the scan visits in the
   * table it works on, and it finds none exactly when no visited node is
   * free and no page can be had.
   */
  lemma AllocSlotFirstFree(ps: seq<Proc>, allot: nat, pageOk: bool)
    requires WellFormed(ps) && allot >= 1
    ensures var s := AllocSlot(ps, pageOk);
      var g := Grown(ps, allot, pageOk);
      (s.None? <==> First(ps, Free, 0).None? && !pageOk)
      && (s.Some? ==> s == First(g, Free, 0) && Visible(g, s.value) && g[s.value].state == Unused)
  {
    if First(ps, Free, 0).None? && pageOk {
      GrowthFreesLast(ps, allot);
    }
  }

  /** Replacing a node by one that matches m alike leaves the scan for m where it was. */
  lemma {:induction false} FirstUnmoved(ps: seq<Proc>, m: Match, k: nat, i: nat, q: Proc)
    requires i < |ps| && (Matches(q, m) <==> Matches(ps[i], m))
    ensures First(ps[i := q], m, k) == First(ps, m, k)
    decreases |ps| - k
  {
    if k + 1 < |ps| {
      FirstUnmoved(ps, m, k + 1, i, q);
    }
  }

  /** After setpriority succeeds, getpriority finds the same process and gives the stored byte. */
  lemma SetThenGetPriority(ps: seq<Proc>, pid: int, priority: int)
    ensures var f := First(ps, ByPid(pid), 0);
      f.Some? ==> var ps' := ps[f.value := ps[f.value].(priority := priority % 256)];
        First(ps', ByPid(pid), 0) == f && ps'[f.value].priority == priority % 256
  {
    var f := First(ps, ByPid(pid), 0);
    if f.Some? {
      FirstUnmoved(ps, ByPid(pid), 0, f.value, ps[f.value].(priority := priority % 256));
    }
  }

  /** wait reaps exactly when the caller has a visited ZOMBIE child, and a reaped node is free for allocproc. */
  lemma WaitReapsZombie(ps: seq<Proc>, cur: nat)
    ensures var z := First(ps, ZombieChildOf(cur), 0);
      (z.Some? <==> exists j :: Visible(ps, j) && ps[j].parent == Some(cur) && ps[j].state == Zombie)
      && (z.Some? ==> Matches(Reap(ps[z.value]), Free) && Reap(ps[z.value]).parent.None?)
  {
    var z := First(ps, ZombieChildOf(cur), 0);
    if z.Some? {
      assert Matches(ps[z.value], ZombieChildOf(cur));
    }
  }

  /** The process table and the globals beside it. */
  class PTable {
    var procs: seq<Proc>
    var nextpid: int
    var initproc: Option<nat>
    const allot: nat    // 4096 / sizeof(struct ptable_node)

    ghost predicate Valid()
      reads this
    {
      WellFormed(procs) && allot >= 1
    }

    /** pinit: the first page's nodes, all zeroed; nextpid starts at 1. */
    constructor (nodesPerPage: nat)
      requires nodesPerPage >= 1
      ensures Valid() && allot == nodesPerPage
      ensures procs == ZeroNodes(nodesPerPage) && nextpid == 1 && initproc == None
    {
      allot := nodesPerPage;
      procs := ZeroNodes(nodesPerPage);
      nextpid := 1;
      initproc := None;
    }

    /** An EACH_PTABLE_NODE scan for the first visited node matching m. */
    method Find(m: Match) returns (r: Option<nat>)
      ensures r == First(procs, m, 0)
    {
      var i := 0;
      while i + 1 < |procs|
        invariant First(procs, m, i) == First(procs, m, 0)
      {
        if Matches(procs[i], m) {
          return Some(i);
        }
        i := i + 1;
      }
      return None;
    }

    /** growptable: a failed kalloc gives 0; otherwise the page's allot zeroed nodes are linked after the last and 1 is returned. */
    method GrowPtable(pageOk: bool) returns (r: int)
      requires Valid()
      modifies this
      ensures Valid() && nextpid == old(nextpid) && initproc == old(initproc)
      ensures r == (if pageOk then 1 else 0)
      ensures procs == if pageOk then old(procs) + ZeroNodes(allot) else old(procs)
    {
      if !pageOk {
        return 0;
      }
      var offset := 0;
      var page: seq<Proc> := [];
      while allot > offset
        invariant offset <= allot && page == ZeroNodes(offset)
      {
        page := page + [Zero];
        offset := offset + 1;
      }
      procs := procs + page;
      return 1;
    }

    /**
     * allocproc: the first free visited node, after a growth of the table
     * when there is none; pageOk and stackOk are what kalloc gives for the
     * new page and the kernel stack.
     */
    method AllocProc(pageOk: bool, stackOk: bool) returns (r: Option<nat>)
      requires Valid()
      modifies this
      ensures Valid() && initproc == old(initproc)
      ensures var s := AllocSlot(old(procs), pageOk);
        var g := Grown(old(procs), allot, pageOk);
        (s.None? ==> r.None? && procs == old(procs) && nextpid == old(nextpid))
        && (s.Some? ==> s.value < |g| && procs == g[s.value := Taken(g[s.value], old(nextpid), stackOk)]
                        && nextpid == old(nextpid) + 1 && r == (if stackOk then s else None))
      decreases if First(procs, Free, 0).Some? then 0 else 1
    {
      var f := Find(Free);
      if f.None? {
        var grew := GrowPtable(pageOk);
        if grew > 0 {
          GrowthFreesLast(old(procs), allot);
          r := AllocProc(pageOk, stackOk);
          return;
        }
        return None;
      }
      var i := f.value;
      procs := procs[i := procs[i].(state := Embryo, pid := nextpid, priority := PROC_DEFAULT_PRIORITY)];
      nextpid := nextpid + 1;
      if !stackOk {
        procs := procs[i := procs[i].(state := Unused)];
        return None;
      }
      return Some(i);
    }

    /** wakeup1(c). */
    method WakeUp1(c: Chan)
      requires Valid()
      modifies this
      ensures Valid() && nextpid == old(nextpid) && initproc == old(initproc)
      ensures procs == Woken(old(procs), c)
    {
      var i := 0;
      while i + 1 < |procs|
        invariant nextpid == old(nextpid) && initproc == old(initproc)
        invariant 0 <= i < |procs| && |procs| == |old(procs)|
        invariant forall j :: 0 <= j < |procs| ==> procs[j] == if j < i then WakeOne(old(procs)[j], c) else old(procs)[j]
      {
        if procs[i].state == Sleeping && procs[i].chan == c {
          procs := procs[i := procs[i].(state := Runnable)];
        }
        i := i + 1;
      }
    }

    /**
     * kill: the first visited node with that pid (fixed: the first used
     * one) is marked killed and woken from SLEEPING, and 0 is returned;
     * -1 when there is none.
     */
    method Kill(pid: int, fixed: bool) returns (r: int)
      requires Valid()
      modifies this
      ensures Valid() && nextpid == old(nextpid) && initproc == old(initproc)
      ensures var f := First(old(procs), KillTarget(pid, fixed), 0);
        r == (if f.Some? then 0 else -1)
        && procs == (if f.Some? then old(procs)[f.value := KillOne(old(procs)[f.value])] else old(procs))
    {
      var f := Find(KillTarget(pid, fixed));
      if f.None? {
        return -1;
      }
      var i := f.value;
      procs := procs[i := procs[i].(killed := 1)];
      if procs[i].state == Sleeping {
        procs := procs[i := procs[i].(state := Runnable)];
      }
      return 0;
    }

    /**
     * wait by the process at cur: the first visited ZOMBIE child is reaped
     * and its pid returned; otherwise -1 without children or when cur is
     * killed, and else the sleep.
     */
    method Wait(cur: nat) returns (w: Waited)
      requires Valid() && cur < |procs|
      modifies this
      ensures Valid() && nextpid == old(nextpid) && initproc == old(initproc)
      ensures var z := First(old(procs), ZombieChildOf(cur), 0);
        (z.Some? ==> w == Reaped(old(procs)[z.value].pid) && procs == old(procs)[z.value := Reap(old(procs)[z.value])])
        && (z.None? ==> procs == old(procs)
                        && w == (if !HasChild(old(procs), cur) || old(procs)[cur].killed != 0 then NoChildren else Blocks))
    {
      var havekids := false;
      var i := 0;
      while i + 1 < |procs|
        invariant nextpid == old(nextpid) && initproc == old(initproc)
        invariant 0 <= i < |procs| && procs == old(procs)
        invariant First(procs, ZombieChildOf(cur), i) == First(procs, ZombieChildOf(cur), 0)
        invariant havekids <==> exists j :: 0 <= j < i && procs[j].parent == Some(cur)
      {
        if procs[i].parent == Some(cur) {
          havekids := true;
          if procs[i].state == Zombie {
            var pid := procs[i].pid;
            procs := procs[i := procs[i].(state := Unused, pid := 0, parent := None, killed := 0)];
            return Reaped(pid);
          }
        }
        i := i + 1;
      }
      if !havekids || procs[cur].killed != 0 {
        return NoChildren;
      }
      return Blocks;
    }

    /** The loop of exit that hands the children of cur to initproc. */
    method ReparentChildren(cur: nat)
      requires Valid()
      modifies this
      ensures Valid() && nextpid == old(nextpid) && initproc == old(initproc)
      ensures procs == Reparented(old(procs), cur, initproc)
    {
      ghost var w := procs;
      var found := false;
      var i := 0;
      while i + 1 < |procs|
        invariant nextpid == old(nextpid) && initproc == old(initproc)
        invariant 0 <= i < |procs| && |procs| == |w| && WellFormed(procs)
        invariant found == ZombieChildBefore(w, cur, i)
        invariant forall j :: 0 <= j < |w| ==> procs[j] == Stage(w[j], j, i, |w|, cur, initproc, found)
      {
        if procs[i].parent == Some(cur) {
          procs := procs[i := procs[i].(parent := initproc)];
          if procs[i].state == Zombie {
            ghost var before := procs;
            WakeUp1(ChanOf(initproc));
            StageWake(w, before, procs, i, cur, initproc, found);
            found := true;
          }
        }
        StageNext(w, procs, i, cur, initproc, found);
        i := i + 1;
      }
      ReparentedStage(w, procs, cur, initproc, found);
    }

    /**
     * exit by the process at cur: a panic when cur is initproc; otherwise
     * its parent is woken, its children pass to initproc (waking initproc
     * when one of them is a ZOMBIE) and it becomes a ZOMBIE.
     */
    method Exit(cur: nat) returns (panicked: bool)
      requires Valid() && cur + 1 < |procs|
      modifies this
      ensures Valid() && nextpid == old(nextpid) && initproc == old(initproc)
      ensures panicked <==> initproc == Some(cur)
      ensures !panicked ==> procs == Exited(old(procs), cur, initproc)
      ensures panicked ==> procs == old(procs)
    {
      if initproc == Some(cur) {
        return true;
      }
      WakeUp1(ChanOf(procs[cur].parent));
      ReparentChildren(cur);
      procs := procs[cur := procs[cur].(state := Zombie)];
      return false;
    }

    /**
     * The scheduler's pass on a CPU with these capabilities: none on a
     * disabled CPU; otherwise the choice BestIn makes, with the table
     * Scheduled describes.
     */
    method Schedule(caps: nat) returns (chosen: Option<nat>)
      requires Valid()
      modifies this
      ensures Valid() && nextpid == old(nextpid) && initproc == old(initproc)
      ensures Disabled(caps) ==> chosen.None? && procs == old(procs)
      ensures !Disabled(caps) ==> chosen == BestIn(old(procs), Reserved(caps), |old(procs)| - 1)
                                  && procs == Scheduled(old(procs), Reserved(caps), chosen)
    {
      if Disabled(caps) {
        return None;
      }
      var table;
      table, chosen := Pass(procs, Reserved(caps));
      procs := table;
    }

    /**
     * bless by the process at cur: 0 and no change unless cur is blessed;
     * otherwise the first visited node with that pid is blessed and given
     * its pipes (pipeOk: pipealloc succeeds), and 1 is returned; 0 when
     * there is none.
     */
    method Bless(cur: nat, pid: int, pipeOk: bool) returns (r: int)
      requires Valid() && cur < |procs|
      modifies this
      ensures Valid() && nextpid == old(nextpid) && initproc == old(initproc)
      ensures var f := First(old(procs), ByPid(pid), 0);
        if old(procs)[cur].blessed != PROC_BLESSED || f.None? then r == 0 && procs == old(procs)
        else r == 1 && procs == old(procs)[f.value := old(procs)[f.value].(blessed := PROC_BLESSED, pipes := old(procs)[f.value].pipes || pipeOk)]
    {
      if procs[cur].blessed != PROC_BLESSED {
        return 0;
      }
      var f := Find(ByPid(pid));
      if f.None? {
        return 0;
      }
      var i := f.value;
      procs := procs[i := procs[i].(blessed := PROC_BLESSED)];
      if !procs[i].pipes {
        procs := procs[i := procs[i].(pipes := pipeOk)];
      }
      return 1;
    }

    /**
     * damn: the same check; the node found is damned and loses its pipes
     * (_deallocpipe only forgets the two pointers: the pipes are never
     * closed, and stay allocated with nothing pointing at them).
     */
    method Damn(cur: nat, pid: int) returns (r: int)
      requires Valid() && cur < |procs|
      modifies this
      ensures Valid() && nextpid == old(nextpid) && initproc == old(initproc)
      ensures var f := First(old(procs), ByPid(pid), 0);
        if old(procs)[cur].blessed != PROC_BLESSED || f.None? then r == 0 && procs == old(procs)
        else r == 1 && procs == old(procs)[f.value := old(procs)[f.value].(blessed := PROC_DAMNED, pipes := false)]
    {
      if procs[cur].blessed != PROC_BLESSED {
        return 0;
      }
      var f := Find(ByPid(pid));
      if f.None? {
        return 0;
      }
      var i := f.value;
      procs := procs[i := procs[i].(blessed := PROC_DAMNED, pipes := false)];
      return 1;
    }

    /** getpriority: the priority of the first visited node with that pid, or -1. */
    method GetPriority(pid: int) returns (r: int)
      ensures var f := First(procs, ByPid(pid), 0);
        r == (if f.Some? then procs[f.value].priority else -1)
      ensures r == -1 || 0 <= r <= PROC_MAX_PRIORITY
    {
      var f := Find(ByPid(pid));
      if f.None? {
        return -1;
      }
      return procs[f.value].priority;
    }

    /** setpriority: the int is truncated to the uint8 field of the node found, and 1 returned; -1 when there is none. */
    method SetPriority(pid: int, priority: int) returns (r: int)
      requires Valid()
      modifies this
      ensures Valid() && nextpid == old(nextpid) && initproc == old(initproc)
      ensures var f := First(old(procs), ByPid(pid), 0);
        r == (if f.Some? then 1 else -1)
        && procs == (if f.Some? then old(procs)[f.value := old(procs)[f.value].(priority := priority % 256)] else old(procs))
    {
      var f := Find(ByPid(pid));
      if f.None? {
        return -1;
      }
      procs := procs[f.value := procs[f.value].(priority := priority % 256)];
      return 1;
    }
  }

  /* ---------------- the steps of exit's loop ---------------- */

  /**
   * Node j of the table while exit's loop is at node i: reparented if
   * visited already, then woken on init when a ZOMBIE child was found.
   */
  function Stage(p: Proc, j: nat, i: nat, n: nat, cur: nat, init: Option<nat>, found: bool): Proc
  {
    var q := if j < i && j + 1 < n then Reparent(p, cur, init) else p;
    if found && j + 1 < n then WakeOne(q, ChanOf(init)) else q
  }

  /** Reparenting does not change whether a node is woken, nor the other way round. */
  lemma WakeReparentCommute(p: Proc, c: Chan, cur: nat, init: Option<nat>)
    ensures WakeOne(Reparent(p, cur, init), c) == Reparent(WakeOne(p, c), cur, init)
    ensures WakeOne(WakeOne(p, c), c) == WakeOne(p, c)
  {
  }

  /** The wakeup1(initproc) in exit's loop brings every node to the found stage. */
  lemma StageWake(w: seq<Proc>, before: seq<Proc>, after: seq<Proc>, i: nat, cur: nat, init: Option<nat>, found: bool)
    requires |before| == |w| && i + 1 < |w| && after == Woken(before, ChanOf(init))
    requires forall j :: 0 <= j < |w| ==> before[j] == if j == i then Stage(w[j], j, i + 1, |w|, cur, init, found) else Stage(w[j], j, i, |w|, cur, init, found)
    ensures forall j :: 0 <= j < |w| ==> after[j] == if j == i then Stage(w[j], j, i + 1, |w|, cur, init, true) else Stage(w[j], j, i, |w|, cur, init, true)
  {
    forall j | 0 <= j < |w|
      ensures after[j] == if j == i then Stage(w[j], j, i + 1, |w|, cur, init, true) else Stage(w[j], j, i, |w|, cur, init, true)
    {
      WakeReparentCommute(w[j], ChanOf(init), cur, init);
    }
  }

  /** One node of exit's loop: node i passes to the next stage. */
  lemma StageNext(w: seq<Proc>, ps: seq<Proc>, i: nat, cur: nat, init: Option<nat>, found: bool)
    requires |ps| == |w| && i + 1 < |w|
    requires forall j :: 0 <= j < |w| ==> ps[j] == if j == i then Stage(w[j], j, i + 1, |w|, cur, init, found) else Stage(w[j], j, i, |w|, cur, init, found)
    ensures forall j :: 0 <= j < |w| ==> ps[j] == Stage(w[j], j, i + 1, |w|, cur, init, found)
  {
  }

  /** At the end of exit's loop the table is Reparented's. */
  lemma ReparentedStage(w: seq<Proc>, ps: seq<Proc>, cur: nat, init: Option<nat>, found: bool)
    requires |ps| == |w| >= 1
    requires found == ZombieChildBefore(w, cur, |w| - 1)
    requires forall j :: 0 <= j < |w| ==> ps[j] == Stage(w[j], j, |w| - 1, |w|, cur, init, found)
    ensures ps == Reparented(w, cur, init)
  {
    var rp := seq(|w|, j requires 0 <= j < |w| => if j + 1 < |w| then Reparent(w[j], cur, init) else w[j]);
    assert ZombieChildBefore(w, cur, |w|) == found;
    var w2 := if found then Woken(rp, ChanOf(init)) else rp;
    assert forall j :: 0 <= j < |w| ==> ps[j] == w2[j];
  }
}
