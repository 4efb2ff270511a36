/**
 * ACPI discovery of the processors (kernel/acpi.c): the search for the Root
 * System Description Pointer (section 5.2.5 of the ACPI specification), the
 * walk of the root table's entries for the MADT and the walk of the MADT's
 * interrupt controller structures (section 5.2.12). Physical memory is a
 * byte image indexed by physical address (p2v is the identity here); bytes
 * past the image read as 0. include/acpi.h is not part of this model: the
 * structure sizes and field offsets are the ACPI specification's.
 */
module Acpi {
  import opened Common

  const RDSP_SIZE: nat := 36           // sizeof(struct acpi_rdsp), ACPI 2.0 layout
  const RDSP_CHECKSUM_LEN: nat := 20   // the ACPI 1.0 part the checksum covers
  const RSDT_ADDR_OFFSET: nat := 16
  const HEADER_SIZE: nat := 36         // sizeof(struct acpi_desc_header) == sizeof(struct acpi_rsdt)
  const LENGTH_OFFSET: nat := 4        // header.length
  const MADT_SIZE: nat := 44           // header, lapic_addr_phys, flags
  const LAPIC_ADDR_OFFSET: nat := 36
  const TYPE_LAPIC: byte := 0
  const TYPE_IOAPIC: byte := 1
  const LAPIC_SIZE: nat := 8
  const IOAPIC_SIZE: nat := 12
  const PHYSLIMIT: nat := 0x8000_0000
  const EBDA_PTR: nat := 0x40E
  const BIOS_AREA: nat := 0xE0000
  const BIOS_AREA_LEN: nat := 0x20000
  const DEVSPACE: nat := 0xFE00_0000            // include/memlayout.h: physical device space
  const DEVBASE: nat := 0xFFFF_FFFF_4000_0000   // include/memlayout.h: its virtual mapping

  const SIG_RDSP: seq<byte> := [0x52, 0x53, 0x44, 0x20, 0x50, 0x54, 0x52, 0x20]  // "RSD PTR "
  const SIG_MADT: seq<byte> := [0x41, 0x50, 0x49, 0x43]                          // "APIC"

  /** memcmp(p, sig, |sig|) == 0. */
  predicate Matches(mem: seq<byte>, p: nat, sig: seq<byte>)
  {
    forall i :: 0 <= i < |sig| ==> ByteAt(mem, p + i) == sig[i]
  }

  /** The sum of the n bytes at p. */
  function ByteSum(mem: seq<byte>, p: nat, n: nat): nat
    decreases n
  {
    if n == 0 then 0 else ByteSum(mem, p, n - 1) + ByteAt(mem, p + n - 1)
  }

  /** A Root System Description Pointer: its signature, and its first 20 bytes summing to 0 modulo 256. */
  predicate IsRdsp(mem: seq<byte>, p: nat)
  {
    Matches(mem, p, SIG_RDSP) && ByteSum(mem, p, RDSP_CHECKSUM_LEN) % 256 == 0
  }

  /** The first RDSP among the candidates p, p + 4, ... that leave a whole structure within len bytes. */
  function FirstRdsp(mem: seq<byte>, p: nat, len: nat): Option<nat>
    decreases len
  {
    if len < RDSP_SIZE then None
    else if IsRdsp(mem, p) then Some(p)
    else FirstRdsp(mem, p + 4, len - 4)
  }

  /** The k-th candidate from p. */
  function Candidate(p: nat, k: nat): nat
  {
    p + 4 * k
  }

  /**
   * What FirstRdsp finds is an RDSP at a 4-byte step from p whose
   * structure lies within the area, and no earlier step holds one.
   */
  lemma {:induction false} FirstRdspFound(mem: seq<byte>, p: nat, len: nat) returns (k: nat)
    requires FirstRdsp(mem, p, len).Some?
    ensures FirstRdsp(mem, p, len).value == Candidate(p, k) && 4 * k + RDSP_SIZE <= len
    ensures IsRdsp(mem, Candidate(p, k)) && forall j: nat :: j < k ==> !IsRdsp(mem, Candidate(p, j))
    decreases len
  {
    if IsRdsp(mem, p) {
      k := 0;
      assert Candidate(p, 0) == p;
    } else {
      var q := p + 4;
      var k' := FirstRdspFound(mem, q, len - 4);
      k := k' + 1;
      assert Candidate(p, k) == Candidate(q, k');
      forall j: nat | j < k
        ensures !IsRdsp(mem, Candidate(p, j))
      {
        if j > 0 {
          assert Candidate(p, j) == Candidate(q, j - 1);
        }
      }
    }
  }

  /** FirstRdsp finds nothing exactly when no candidate within the area is an RDSP. */
  lemma {:induction false} FirstRdspNone(mem: seq<byte>, p: nat, len: nat)
    ensures FirstRdsp(mem, p, len).None? <==> forall k: nat :: 4 * k + RDSP_SIZE <= len ==> !IsRdsp(mem, Candidate(p, k))
    decreases len
  {
    if len >= RDSP_SIZE {
      if IsRdsp(mem, p) {
        assert Candidate(p, 0) == p;
      } else {
        var q := p + 4;
        FirstRdspNone(mem, q, len - 4);
        if FirstRdsp(mem, q, len - 4).None? {
          forall k: nat | 4 * k + RDSP_SIZE <= len
            ensures !IsRdsp(mem, Candidate(p, k))
          {
            if k > 0 {
              assert Candidate(p, k) == Candidate(q, k - 1);
            }
          }
        } else {
          var k: nat :| 4 * k + RDSP_SIZE <= len - 4 && IsRdsp(mem, Candidate(q, k));
          assert Candidate(p, k + 1) == Candidate(q, k) && 4 * (k + 1) + RDSP_SIZE <= len;
        }
      }
    }
  }

  /**
   * scan_rdsp: steps 4 bytes at a time while a whole structure fits in
   * what is left of the area, and gives the first candidate whose
   * signature matches and whose checksum is right.
   */
  method ScanRdsp(mem: seq<byte>, base: uint32, len: uint32) returns (r: Option<nat>)
    ensures r == FirstRdsp(mem, base, len)
  {
    var p: nat := base;
    var left: nat := len;
    while left >= RDSP_SIZE
      invariant FirstRdsp(mem, p, left) == FirstRdsp(mem, base, len)
      decreases left
    {
      if Matches(mem, p, SIG_RDSP) {
        var sum := Checksum(mem, p);
        if sum % 256 == 0 {
          return Some(p);
        }
      }
      left := left - 4;
      p := p + 4;
    }
    return None;
  }

  /** The loop of scan_rdsp that adds up the first 20 bytes of a candidate. */
  method Checksum(mem: seq<byte>, p: nat) returns (sum: nat)
    ensures sum == ByteSum(mem, p, RDSP_CHECKSUM_LEN)
  {
    sum := 0;
    var n: nat := 0;
    while n < RDSP_CHECKSUM_LEN
      invariant n <= RDSP_CHECKSUM_LEN && sum == ByteSum(mem, p, n)
    {
      sum := sum + ByteAt(mem, p + n);
      n := n + 1;
    }
  }

  /** Where find_rdsp looks: the first 1 KiB of the EBDA when its pointer is set, then the BIOS area. */
  function Located(mem: seq<byte>): Option<nat>
  {
    var pa := LeAt(mem, EBDA_PTR, 2) * 16;
    if pa != 0 && FirstRdsp(mem, pa, 1024).Some? then FirstRdsp(mem, pa, 1024)
    else FirstRdsp(mem, BIOS_AREA, BIOS_AREA_LEN)
  }

  /** Whatever find_rdsp returns is an RDSP, and it returns none only when the BIOS area holds none. */
  lemma LocatedIsRdsp(mem: seq<byte>)
    ensures Located(mem).Some? ==> IsRdsp(mem, Located(mem).value)
    ensures Located(mem).None? ==> forall k: nat :: 4 * k + RDSP_SIZE <= BIOS_AREA_LEN ==> !IsRdsp(mem, Candidate(BIOS_AREA, k))
  {
    var pa := LeAt(mem, EBDA_PTR, 2) * 16;
    if pa != 0 && FirstRdsp(mem, pa, 1024).Some? {
      var _ := FirstRdspFound(mem, pa, 1024);
    } else if FirstRdsp(mem, BIOS_AREA, BIOS_AREA_LEN).Some? {
      var _ := FirstRdspFound(mem, BIOS_AREA, BIOS_AREA_LEN);
    } else {
      FirstRdspNone(mem, BIOS_AREA, BIOS_AREA_LEN);
    }
  }

  /** find_rdsp. */
  method FindRdsp(mem: seq<byte>) returns (r: Option<nat>)
    ensures r == Located(mem)
  {
    var pa := LeAt(mem, EBDA_PTR, 2) * 16;
    if pa != 0 && pa < U32 {
      r := ScanRdsp(mem, pa, 1024);
      if r.Some? {
        return;
      }
    }
    r := ScanRdsp(mem, BIOS_AREA, BIOS_AREA_LEN);
  }

  /* ---------------- the MADT's entries ---------------- */

  /** The length byte of the entry at q. */
  function EntryLen(mem: seq<byte>, q: nat): byte
  {
    ByteAt(mem, q + 1)
  }

  /** The entries the walk visits: all of them, or those before the zero-length entry it spins on. */
  datatype Walk = Hangs(entries: seq<nat>) | Ends(entries: seq<nat>)

  /** visited, then the walk w. */
  function After(visited: seq<nat>, w: Walk): Walk
  {
    if w.Hangs? then Hangs(visited + w.entries) else Ends(visited + w.entries)
  }

  /**
   * The walk from p to e: it stops when fewer than 2 bytes are left or the
   * entry's length exceeds what is left, and advances by the entry's
   * length, so an entry of length 0 is visited for ever.
   */
  function EntriesFrom(mem: seq<byte>, p: nat, e: nat): Walk
    decreases e - p
  {
    if p >= e || e - p < 2 || e - p < EntryLen(mem, p) then Ends([])
    else if EntryLen(mem, p) == 0 then Hangs([])
    else After([p], EntriesFrom(mem, p + EntryLen(mem, p), e))
  }

  /**
   * The entries tile the table from its start: each lies within [p, e),
   * has a nonzero length and starts where the one before it ends.
   */
  lemma {:induction false} EntriesTile(mem: seq<byte>, p: nat, e: nat)
    ensures var w := EntriesFrom(mem, p, e);
      w.Ends? ==> (|w.entries| > 0 ==> w.entries[0] == p)
                  && (forall i :: 0 <= i < |w.entries| ==>
                        p <= w.entries[i] && 0 < EntryLen(mem, w.entries[i]) && w.entries[i] + EntryLen(mem, w.entries[i]) <= e)
                  && (forall i :: 0 < i < |w.entries| ==> w.entries[i] == w.entries[i - 1] + EntryLen(mem, w.entries[i - 1]))
    decreases e - p
  {
    if !(p >= e || e - p < 2 || e - p < EntryLen(mem, p)) && EntryLen(mem, p) != 0 {
      var q := p + EntryLen(mem, p);
      EntriesTile(mem, q, e);
      var rest := EntriesFrom(mem, q, e);
      if rest.Ends? {
        var es := [p] + rest.entries;
        assert EntriesFrom(mem, p, e) == Ends(es);
        forall i | 0 < i < |es|
          ensures es[i] == es[i - 1] + EntryLen(mem, es[i - 1])
        {
          assert es[i] == rest.entries[i - 1];
        }
      }
    }
  }

  /** An entry of length 0 with at least 2 bytes left stops the walk for ever. */
  lemma ZeroLengthEntryHangs(mem: seq<byte>, p: nat, e: nat)
    requires p + 2 <= e && EntryLen(mem, p) == 0
    ensures EntriesFrom(mem, p, e).Hangs?
  {
  }

  /** A processor-local APIC entry long enough to read, with its enabled flag set. */
  predicate EnabledLapic(mem: seq<byte>, q: nat)
  {
    ByteAt(mem, q) == TYPE_LAPIC && EntryLen(mem, q) >= LAPIC_SIZE && ByteAt(mem, q + 4) % 2 == 1
  }

  /** An I/O APIC entry long enough to read. */
  predicate LongIoapic(mem: seq<byte>, q: nat)
  {
    ByteAt(mem, q) == TYPE_IOAPIC && EntryLen(mem, q) >= IOAPIC_SIZE
  }

  /** The apic_id of every enabled LAPIC entry among es, in order. */
  function LapicIds(mem: seq<byte>, es: seq<nat>): seq<byte>
    decreases |es|
  {
    if |es| == 0 then []
    else LapicIds(mem, es[..|es| - 1]) + (if EnabledLapic(mem, es[|es| - 1]) then [ByteAt(mem, es[|es| - 1] + 3)] else [])
  }

  /** The id of every readable I/O APIC entry among es, in order. */
  function IoapicIds(mem: seq<byte>, es: seq<nat>): seq<byte>
    decreases |es|
  {
    if |es| == 0 then []
    else IoapicIds(mem, es[..|es| - 1]) + (if LongIoapic(mem, es[|es| - 1]) then [ByteAt(mem, es[|es| - 1] + 2)] else [])
  }

  /** No processor is found exactly when no entry is an enabled LAPIC. */
  lemma {:induction false} LapicIdsEmpty(mem: seq<byte>, es: seq<nat>)
    ensures LapicIds(mem, es) == [] <==> forall i :: 0 <= i < |es| ==> !EnabledLapic(mem, es[i])
    decreases |es|
  {
    if |es| > 0 {
      var init := es[..|es| - 1];
      LapicIdsEmpty(mem, init);
      assert forall i :: 0 <= i < |init| ==> init[i] == es[i];
    }
  }

  /* ---------------- what acpi_config_smp records ---------------- */

  /** One entry of cpus[]: its index and its local APIC id. */
  datatype Cpu = Cpu(id: int, apicid: byte)

  /** cpus[0..ncpu), ioapicid, ismp and the lapic pointer. */
  datatype SmpState = SmpState(cpus: seq<Cpu>, ioapicid: byte, ismp: int, lapic: nat)

  /**
   * What a call gives: a spin that never returns, a fault (a null RDSP
   * dereferenced, or cpus[] written past its NCPU entries), or a result
   * and the new state.
   */
  datatype Outcome = Hang | Fault | Done(r: int, st: SmpState)

  /** The entries numbered n, n + 1, ... with the given local APIC ids. */
  function Records(n: int, ids: seq<byte>): seq<Cpu>
    decreases |ids|
  {
    if |ids| == 0 then [] else Records(n, ids[..|ids| - 1]) + [Cpu(n + |ids| - 1, ids[|ids| - 1])]
  }

  /** Records numbers its entries consecutively from n, with the ids in order. */
  lemma {:induction false} RecordsNumbered(n: int, ids: seq<byte>)
    ensures |Records(n, ids)| == |ids|
    ensures forall i :: 0 <= i < |ids| ==> Records(n, ids)[i] == Cpu(n + i, ids[i])
    decreases |ids|
  {
    if |ids| > 0 {
      RecordsNumbered(n, ids[..|ids| - 1]);
    }
  }

  /** Each entry of cpus[..] holds its own index. */
  predicate Numbered(cpus: seq<Cpu>)
  {
    forall i :: 0 <= i < |cpus| ==> cpus[i].id == i
  }

  /** madt->header.length. */
  function MadtLength(mem: seq<byte>, madt: nat): nat
  {
    LeAt(mem, madt + LENGTH_OFFSET, 4)
  }

  /** The walk over the table that follows the MADT's fixed part. */
  function MadtEntries(mem: seq<byte>, madt: nat): Walk
  {
    EntriesFrom(mem, madt + MADT_SIZE, madt + MadtLength(mem, madt))
  }

  /**
   * acpi_config_smp on a machine in state st, with room for ncpuMax CPUs
   * (NCPU of param.h, which is not part of this model): -1 for a null or
   * short MADT; otherwise each enabled LAPIC appends a CPU numbered ncpu,
   * the first I/O APIC's id is kept, and when any CPU is known ismp is
   * set, lapic takes the virtual address IO2V gives the table's
   * lapic_addr_phys and the result is 0. Nothing
   * bounds ncpu: an enabled LAPIC met with ncpuMax CPUs known writes
   * cpus[ncpuMax], past the array, before any spin the walk reaches.
   */
  function Configured(st: SmpState, mem: seq<byte>, madt: Option<nat>, ncpuMax: nat): Outcome
  {
    if madt.None? || MadtLength(mem, madt.value) < MADT_SIZE then Done(-1, st)
    else
      var w := MadtEntries(mem, madt.value);
      if |st.cpus| + |LapicIds(mem, w.entries)| > ncpuMax then Fault
      else if w.Hangs? then Hang
      else Finished(Walked(st, mem, w.entries), LeAt(mem, madt.value + LAPIC_ADDR_OFFSET, 4))
  }

  /** The state after the walk over the entries es. */
  function Walked(st: SmpState, mem: seq<byte>, es: seq<nat>): SmpState
  {
    var ios := IoapicIds(mem, es);
    st.(cpus := st.cpus + Records(|st.cpus|, LapicIds(mem, es)), ioapicid := if |ios| > 0 then ios[0] else st.ioapicid)
  }

  /**
   * IO2V: the kernel virtual address of a physical device address, the
   * pointer sum taken modulo 2^64. A 32-bit physical address keeps its
   * offset from DEVSPACE, and the device space itself starts at DEVBASE.
   */
  function Io2V(a: nat): (r: nat)
    ensures r < U64
    ensures a < U32 ==> r + DEVSPACE == a + DEVBASE
  {
    (a + DEVBASE - DEVSPACE) % U64
  }

  /**
   * The end of acpi_config_smp: with some CPU known, ismp is set, lapic
   * takes IO2V of the table's physical address and the result is 0;
   * otherwise -1.
   */
  function Finished(st: SmpState, lapicAddr: nat): Outcome
  {
    if |st.cpus| > 0 then Done(0, st.(ismp := 1, lapic := Io2V(lapicAddr))) else Done(-1, st)
  }

  /**
   * A null MADT or one shorter than its fixed part is refused with -1 and
   * nothing recorded.
   */
  lemma ShortMadtRefused(st: SmpState, mem: seq<byte>, madt: Option<nat>, ncpuMax: nat)
    requires madt.None? || MadtLength(mem, madt.value) < MADT_SIZE
    ensures Configured(st, mem, madt, ncpuMax) == Done(-1, st)
  {
  }

  /**
   * A completed walk keeps the CPUs already known, appends one numbered
   * CPU per enabled LAPIC entry with its apic_id, keeps the numbering,
   * records only the first I/O APIC and answers 0 (setting ismp) exactly
   * when some CPU is known, otherwise -1 with ismp and lapic untouched.
   */
  lemma ConfiguredRecords(st: SmpState, mem: seq<byte>, madt: nat, ncpuMax: nat)
    requires Numbered(st.cpus) && MadtLength(mem, madt) >= MADT_SIZE && MadtEntries(mem, madt).Ends?
    requires |st.cpus| + |LapicIds(mem, MadtEntries(mem, madt).entries)| <= ncpuMax
    ensures var es := MadtEntries(mem, madt).entries;
      var o := Configured(st, mem, Some(madt), ncpuMax);
      var ids := LapicIds(mem, es);
      o.Done? && Numbered(o.st.cpus)
      && |o.st.cpus| == |st.cpus| + |ids| && o.st.cpus[..|st.cpus|] == st.cpus
      && (forall i :: 0 <= i < |ids| ==> o.st.cpus[|st.cpus| + i].apicid == ids[i])
      && o.st.ioapicid == (if |IoapicIds(mem, es)| > 0 then IoapicIds(mem, es)[0] else st.ioapicid)
      && (o.r == 0 <==> |o.st.cpus| > 0) && (o.r == 0 || o.r == -1)
      && (o.r == 0 ==> o.st.ismp == 1 && o.st.lapic == Io2V(LeAt(mem, madt + LAPIC_ADDR_OFFSET, 4))
                       && o.st.lapic + DEVSPACE == LeAt(mem, madt + LAPIC_ADDR_OFFSET, 4) + DEVBASE)
      && (o.r == -1 ==> o.st.ismp == st.ismp && o.st.lapic == st.lapic)
  {
    var es := MadtEntries(mem, madt).entries;
    assert Configured(st, mem, Some(madt), ncpuMax) == Finished(Walked(st, mem, es), LeAt(mem, madt + LAPIC_ADDR_OFFSET, 4));
    WalkedRecords(st, mem, es);
    LeAt4Below(mem, madt + LAPIC_ADDR_OFFSET);
  }

  /** The walk over es appends one numbered CPU per enabled LAPIC after the known ones and leaves ismp and lapic. */
  lemma WalkedRecords(st: SmpState, mem: seq<byte>, es: seq<nat>)
    requires Numbered(st.cpus)
    ensures var w := Walked(st, mem, es);
      var ids := LapicIds(mem, es);
      Numbered(w.cpus) && |w.cpus| == |st.cpus| + |ids| && w.cpus[..|st.cpus|] == st.cpus
      && (forall i :: 0 <= i < |ids| ==> w.cpus[|st.cpus| + i].apicid == ids[i])
      && w.ismp == st.ismp && w.lapic == st.lapic
  {
    var ids := LapicIds(mem, es);
    var w := Walked(st, mem, es);
    RecordsNumbered(|st.cpus|, ids);
    assert w.cpus[..|st.cpus|] == st.cpus;
    assert forall i :: 0 <= i < |ids| ==> w.cpus[|st.cpus| + i] == Records(|st.cpus|, ids)[i];
  }

  /**
   * More enabled LAPIC entries than there is room for, before the walk
   * ends or spins, overrun cpus[]; while they fit, a walk that
   * spins is a hang.
   */
  lemma TooManyCpusFault(st: SmpState, mem: seq<byte>, madt: nat, ncpuMax: nat)
    requires MadtLength(mem, madt) >= MADT_SIZE
    ensures var w := MadtEntries(mem, madt);
      Configured(st, mem, Some(madt), ncpuMax) == Fault <==> |st.cpus| + |LapicIds(mem, w.entries)| > ncpuMax
    ensures var w := MadtEntries(mem, madt);
      w.Hangs? && |st.cpus| + |LapicIds(mem, w.entries)| <= ncpuMax ==> Configured(st, mem, Some(madt), ncpuMax) == Hang
  {
    var w := MadtEntries(mem, madt);
    if w.Ends? && |st.cpus| + |LapicIds(mem, w.entries)| <= ncpuMax {
      assert Finished(Walked(st, mem, w.entries), LeAt(mem, madt + LAPIC_ADDR_OFFSET, 4)).Done?;
    }
  }

  /** On a machine with no CPU yet, the call succeeds exactly when the MADT lists an enabled LAPIC. */
  lemma FirstConfigurationIff(st: SmpState, mem: seq<byte>, madt: nat, ncpuMax: nat)
    requires st.cpus == [] && MadtLength(mem, madt) >= MADT_SIZE && MadtEntries(mem, madt).Ends?
    requires |LapicIds(mem, MadtEntries(mem, madt).entries)| <= ncpuMax
    ensures var es := MadtEntries(mem, madt).entries;
      Configured(st, mem, Some(madt), ncpuMax).r == 0 <==> exists i :: 0 <= i < |es| && EnabledLapic(mem, es[i])
  {
    var es := MadtEntries(mem, madt).entries;
    LapicIdsEmpty(mem, es);
    RecordsNumbered(0, LapicIds(mem, es));
  }

  /* ---------------- the root table ---------------- */

  /** Entry k of the root table at rsdt (a 32-bit physical address). */
  function TableEntry(mem: seq<byte>, rsdt: nat, k: nat): nat
  {
    LeAt(mem, rsdt + HEADER_SIZE + 4 * k, 4)
  }

  /**
   * count = (length - sizeof(*rsdt)) / 4 as acpiinit computes it: the
   * uint32 length minus the 64-bit size_t is taken modulo 2^64, divided by
   * 4, and truncated into the 32-bit unsigned count.
   */
  function CountOf(length: nat): nat
  {
    (((length - HEADER_SIZE) % U64) / 4) % U32
  }

  /** The number of entries acpiinit reads from the root table at rsdt. */
  function RsdtCount(mem: seq<byte>, rsdt: nat): nat
  {
    CountOf(LeAt(mem, rsdt + LENGTH_OFFSET, 4))
  }

  /**
   * A root table at least a header long has (length - 36) / 4 entries; a
   * shorter one wraps to nearly 2^32 entries.
   */
  lemma CountOfLength(length: nat)
    requires length < U32
    ensures length >= HEADER_SIZE ==> CountOf(length) == (length - HEADER_SIZE) / 4
    ensures length < HEADER_SIZE ==> CountOf(length) == U32 - (HEADER_SIZE - length + 3) / 4
  {
    if length < HEADER_SIZE {
      var d := HEADER_SIZE - length;
      assert (length - HEADER_SIZE) % U64 == U64 - d;
      assert (U64 - d) / 4 == U64 / 4 - (d + 3) / 4;
    }
  }

  /** A length four bytes short of the header gives 2^32 - 1 entries. */
  lemma ShortRootTableCount()
    ensures CountOf(HEADER_SIZE - 4) == U32 - 1
  {
    CountOfLength(HEADER_SIZE - 4);
  }

  /** Four little-endian bytes are a 32-bit value. */
  lemma LeAt4Below(mem: seq<byte>, a: nat)
    ensures LeAt(mem, a, 4) < U32
  {
    assert LeAt(mem, a + 3, 1) < 256;
    assert LeAt(mem, a + 2, 2) < 256 * 256;
    assert LeAt(mem, a + 1, 3) < 256 * 256 * 256;
  }

  /** The root table's entry count, by the length field read from memory. */
  lemma RsdtCountOf(mem: seq<byte>, rsdt: nat)
    ensures var length := LeAt(mem, rsdt + LENGTH_OFFSET, 4);
      (length >= HEADER_SIZE ==> RsdtCount(mem, rsdt) == (length - HEADER_SIZE) / 4)
      && (length < HEADER_SIZE ==> RsdtCount(mem, rsdt) == U32 - (HEADER_SIZE - length + 3) / 4)
  {
    LeAt4Below(mem, rsdt + LENGTH_OFFSET);
    CountOfLength(LeAt(mem, rsdt + LENGTH_OFFSET, 4));
  }

  predicate IsMadt(mem: seq<byte>, a: nat)
  {
    Matches(mem, a, SIG_MADT)
  }

  /** The scan's outcome: a table above PHYSLIMIT, or the MADT it settled on. */
  datatype Scan = Unmapped | Tables(madt: Option<nat>)

  /** The scan of entries n..count-1, having settled on madt so far: a later MADT replaces an earlier one. */
  function LastMadt(mem: seq<byte>, rsdt: nat, n: nat, count: nat, madt: Option<nat>): Scan
    decreases count - n
  {
    if n >= count then Tables(madt)
    else
      var a := TableEntry(mem, rsdt, n);
      if a > PHYSLIMIT then Unmapped
      else LastMadt(mem, rsdt, n + 1, count, if IsMadt(mem, a) then Some(a) else madt)
  }

  /**
   * The scan fails exactly when some entry lies above PHYSLIMIT; otherwise
   * it yields the last MADT among the entries, or what it had when none is.
   */
  lemma {:induction false} LastMadtIsLast(mem: seq<byte>, rsdt: nat, n: nat, count: nat, madt: Option<nat>)
    ensures LastMadt(mem, rsdt, n, count, madt).Unmapped? <==> exists k :: n <= k < count && TableEntry(mem, rsdt, k) > PHYSLIMIT
    ensures var s := LastMadt(mem, rsdt, n, count, madt);
      s.Tables? ==>
        (s.madt == madt && forall k :: n <= k < count ==> !IsMadt(mem, TableEntry(mem, rsdt, k)))
        || (exists k :: n <= k < count && s.madt == Some(TableEntry(mem, rsdt, k)) && IsMadt(mem, TableEntry(mem, rsdt, k))
                        && forall j :: k < j < count ==> !IsMadt(mem, TableEntry(mem, rsdt, j)))
    decreases count - n
  {
    if n < count && TableEntry(mem, rsdt, n) <= PHYSLIMIT {
      var a := TableEntry(mem, rsdt, n);
      var m := if IsMadt(mem, a) then Some(a) else madt;
      LastMadtIsLast(mem, rsdt, n + 1, count, m);
    }
  }

  /**
   * acpiinit on a machine in state st: when no RDSP exists the source
   * dereferences the null pointer find_rdsp returned (fixed: -1, so that
   * the caller falls back to the MP tables); -1 when the root table or one
   * of its entries lies above PHYSLIMIT; otherwise acpi_config_smp on the
   * last MADT the root table lists.
   */
  function Initialised(st: SmpState, mem: seq<byte>, fixed: bool, ncpuMax: nat): Outcome
  {
    var rdsp := Located(mem);
    if rdsp.None? then (if fixed then Done(-1, st) else Fault)
    else
      var rsdt := LeAt(mem, rdsp.value + RSDT_ADDR_OFFSET, 4);
      if rsdt > PHYSLIMIT then Done(-1, st)
      else
        var s := LastMadt(mem, rsdt, 0, RsdtCount(mem, rsdt), None);
        if s.Unmapped? then Done(-1, st) else Configured(st, mem, s.madt, ncpuMax)
  }

  /**
   * As written, a machine whose memory holds no RDSP (an all-zero image)
   * faults in acpiinit instead of returning the -1 that makes main fall
   * back to mpinit.
   */
  lemma NoRdspFaults(st: SmpState, ncpuMax: nat)
    ensures Initialised(st, [], false, ncpuMax) == Fault
  {
    forall k: nat | 4 * k + RDSP_SIZE <= BIOS_AREA_LEN
      ensures !IsRdsp([], Candidate(BIOS_AREA, k))
    {
      assert ByteAt([], Candidate(BIOS_AREA, k) + 0) != SIG_RDSP[0];
    }
    FirstRdspNone([], BIOS_AREA, BIOS_AREA_LEN);
  }

  /** Corrected, a machine with no RDSP gets -1 and nothing recorded; with an RDSP the two agree. */
  lemma NoRdspRefusedWhenFixed(st: SmpState, mem: seq<byte>, ncpuMax: nat)
    ensures Located(mem).None? ==> Initialised(st, mem, true, ncpuMax) == Done(-1, st)
    ensures Located(mem).Some? ==> Initialised(st, mem, true, ncpuMax) == Initialised(st, mem, false, ncpuMax)
  {
  }

  /** Tables above PHYSLIMIT are refused with -1, and nothing is recorded. */
  lemma HighTablesRefused(st: SmpState, mem: seq<byte>, fixed: bool, ncpuMax: nat)
    requires Located(mem).Some?
    requires var rsdt := LeAt(mem, Located(mem).value + RSDT_ADDR_OFFSET, 4);
      rsdt > PHYSLIMIT || exists k :: 0 <= k < RsdtCount(mem, rsdt) && TableEntry(mem, rsdt, k) > PHYSLIMIT
    ensures Initialised(st, mem, fixed, ncpuMax) == Done(-1, st)
  {
    var rsdt := LeAt(mem, Located(mem).value + RSDT_ADDR_OFFSET, 4);
    LastMadtIsLast(mem, rsdt, 0, RsdtCount(mem, rsdt), None);
  }

  /** A root table that lists no MADT leaves acpiinit answering -1 with nothing recorded. */
  lemma NoMadtRefused(st: SmpState, mem: seq<byte>, fixed: bool, ncpuMax: nat)
    requires Located(mem).Some?
    requires var rsdt := LeAt(mem, Located(mem).value + RSDT_ADDR_OFFSET, 4);
      rsdt <= PHYSLIMIT && forall k :: 0 <= k < RsdtCount(mem, rsdt) ==> TableEntry(mem, rsdt, k) <= PHYSLIMIT && !IsMadt(mem, TableEntry(mem, rsdt, k))
    ensures Initialised(st, mem, fixed, ncpuMax) == Done(-1, st)
  {
    var rsdt := LeAt(mem, Located(mem).value + RSDT_ADDR_OFFSET, 4);
    LastMadtIsLast(mem, rsdt, 0, RsdtCount(mem, rsdt), None);
  }

  /* ---------------- the globals acpi.c writes ---------------- */

  /** cpus[], ncpu, ioapicid, ismp and lapic; ncpuMax is NCPU, the length of cpus[]. */
  class Smp {
    const ncpuMax: nat
    var cpus: seq<Cpu>
    var ncpu: int
    var ioapicid: byte
    var ismp: int
    var lapic: nat

    ghost predicate Valid()
      reads this
    {
      ncpu == |cpus| <= ncpuMax && Numbered(cpus)
    }

    function State(): SmpState
      reads this
    {
      SmpState(cpus, ioapicid, ismp, lapic)
    }

    /** The state at boot: no CPU known, room for ncpuMax. */
    constructor (ncpuMax: nat)
      ensures Valid() && State() == SmpState([], 0, 0, 0) && this.ncpuMax == ncpuMax
    {
      this.ncpuMax := ncpuMax;
      cpus := [];
      ncpu := 0;
      ioapicid := 0;
      ismp := 0;
      lapic := 0;
    }

    /**
     * acpi_config_smp. Where the walk meets a zero-length entry the
     * source spins for ever, and where it writes cpus[NCPU] it leaves the
     * array; the model stops there and reports hangs or fault.
     */
    method ConfigSmp(mem: seq<byte>, madt: Option<nat>) returns (r: int, fault: bool, hangs: bool)
      requires Valid()
      modifies this
      ensures Valid()
      ensures fault <==> Configured(old(State()), mem, madt, ncpuMax) == Fault
      ensures hangs ==> Configured(old(State()), mem, madt, ncpuMax) == Hang
      ensures !fault && !hangs ==> Configured(old(State()), mem, madt, ncpuMax) == Done(r, State())
    {
      if madt.None? {
        return -1, false, false;
      }
      var a := madt.value;
      var length := LeAt(mem, a + LENGTH_OFFSET, 4);
      if length < MADT_SIZE {
        return -1, false, false;
      }
      var lapicAddr := LeAt(mem, a + LAPIC_ADDR_OFFSET, 4);
      hangs, fault := WalkEntries(mem, a + MADT_SIZE, a + length);
      if fault {
        return -1, true, false;
      }
      if hangs {
        return -1, false, true;
      }
      if ncpu != 0 {
        ismp := 1;
        lapic := Io2V(lapicAddr);
        r := 0;
      } else {
        r := -1;
      }
    }

    /**
     * The loop of acpi_config_smp over the entries from p0 to e: each
     * enabled LAPIC appends a CPU numbered ncpu and the first I/O APIC's id
     * replaces ioapicid; an enabled LAPIC with the array full is a fault.
     */
    method WalkEntries(mem: seq<byte>, p0: nat, e: nat) returns (hangs: bool, fault: bool)
      requires Valid()
      modifies this
      ensures Valid()
      ensures var w := EntriesFrom(mem, p0, e);
        fault <==> |old(cpus)| + |LapicIds(mem, w.entries)| > ncpuMax
      ensures var w := EntriesFrom(mem, p0, e);
        !fault ==> hangs == w.Hangs? && (w.Ends? ==> State() == Walked(old(State()), mem, w.entries))
    {
      var p: nat := p0;
      var nioapic := 0;
      ghost var visited: seq<nat> := [];
      while p < e
        invariant Valid() && After(visited, EntriesFrom(mem, p, e)) == EntriesFrom(mem, p0, e)
        invariant cpus == old(cpus) + Records(|old(cpus)|, LapicIds(mem, visited))
        invariant nioapic == |IoapicIds(mem, visited)|
        invariant ioapicid == if nioapic > 0 then IoapicIds(mem, visited)[0] else old(ioapicid)
        invariant ismp == old(ismp) && lapic == old(lapic)
        decreases e - p
      {
        if e - p < 2 {
          WalkEnds(mem, visited, p, e);
          break;
        }
        var len := ByteAt(mem, p + 1);
        if e - p < len {
          WalkEnds(mem, visited, p, e);
          break;
        }
        if len == 0 {
          assert visited + [] == visited;
          assert EntriesFrom(mem, p0, e).entries == visited;
          Fits(old(cpus), LapicIds(mem, visited), ncpuMax);
          return true, false;
        }
        var full;
        nioapic, full := Visit(mem, p, nioapic);
        VisitStep(mem, visited, p, EntriesFrom(mem, p + len, e));
        if full {
          Overflows(mem, old(cpus), visited, p, EntriesFrom(mem, p + len, e), EntriesFrom(mem, p0, e), ncpuMax);
          return false, true;
        }
        CpusStep(mem, old(cpus), visited, p);
        IdsSnoc(mem, visited, p);
        visited := visited + [p];
        p := p + len;
      }
      if p >= e {
        WalkEnds(mem, visited, p, e);
      }
      assert EntriesFrom(mem, p0, e).entries == visited;
      Fits(old(cpus), LapicIds(mem, visited), ncpuMax);
      return false, false;
    }

    /** The switch of acpi_config_smp on the entry at p; full when it is an enabled LAPIC and cpus[] has no room. */
    method Visit(mem: seq<byte>, p: nat, nioapic: nat) returns (n: nat, full: bool)
      requires Valid()
      modifies this
      ensures Valid() && ismp == old(ismp) && lapic == old(lapic)
      ensures full <==> EnabledLapic(mem, p) && old(ncpu) == ncpuMax
      ensures full ==> cpus == old(cpus) && ncpu == old(ncpu)
      ensures !full ==> cpus == old(cpus) + (if EnabledLapic(mem, p) then [Cpu(|old(cpus)|, ByteAt(mem, p + 3))] else [])
      ensures n == nioapic + (if LongIoapic(mem, p) then 1 else 0)
      ensures ioapicid == if LongIoapic(mem, p) && nioapic == 0 then ByteAt(mem, p + 2) else old(ioapicid)
    {
      n, full := nioapic, false;
      var len := ByteAt(mem, p + 1);
      if ByteAt(mem, p) == TYPE_LAPIC {
        if len >= LAPIC_SIZE && ByteAt(mem, p + 4) % 2 == 1 {
          if ncpu == ncpuMax {
            return n, true;
          }
          NumberedSnoc(cpus, Cpu(ncpu, ByteAt(mem, p + 3)));
          cpus := cpus + [Cpu(ncpu, ByteAt(mem, p + 3))];
          ncpu := ncpu + 1;
        }
      } else if ByteAt(mem, p) == TYPE_IOAPIC {
        if len >= IOAPIC_SIZE {
          if n == 0 {
            ioapicid := ByteAt(mem, p + 2);
          }
          n := n + 1;
        }
      }
    }

    /**
     * acpiinit. A missing RDSP is dereferenced as a null pointer as written
     * (fixed: -1); the model reports that, and a write past cpus[], as a
     * fault and changes nothing more.
     */
    method Init(mem: seq<byte>, fixed: bool) returns (r: int, fault: bool, hangs: bool)
      requires Valid()
      modifies this
      ensures Valid()
      ensures fault <==> Initialised(old(State()), mem, fixed, ncpuMax) == Fault
      ensures hangs ==> Initialised(old(State()), mem, fixed, ncpuMax) == Hang
      ensures !fault && !hangs ==> Initialised(old(State()), mem, fixed, ncpuMax) == Done(r, State())
    {
      var rdsp := FindRdsp(mem);
      if rdsp.None? {
        return -1, !fixed, false;
      }
      var rsdt := LeAt(mem, rdsp.value + RSDT_ADDR_OFFSET, 4);
      if rsdt > PHYSLIMIT {
        return -1, false, false;
      }
      var count := RsdtCount(mem, rsdt);
      var madt: Option<nat> := None;
      var n := 0;
      while n < count
        invariant n <= count
        invariant LastMadt(mem, rsdt, n, count, madt) == LastMadt(mem, rsdt, 0, count, None)
      {
        var entry := TableEntry(mem, rsdt, n);
        if entry > PHYSLIMIT {
          return -1, false, false;
        }
        if Matches(mem, entry, SIG_MADT) {
          madt := Some(entry);
        }
        n := n + 1;
      }
      r, fault, hangs := ConfigSmp(mem, madt);
    }
  }

  /** Where the walk stops, the visited entries are all of it. */
  lemma WalkEnds(mem: seq<byte>, visited: seq<nat>, p: nat, e: nat)
    requires p >= e || e - p < 2 || e - p < EntryLen(mem, p)
    ensures After(visited, EntriesFrom(mem, p, e)) == Ends(visited)
  {
    assert visited + [] == visited;
  }

  /** One step of the walk: the entry p joins the visited ones. */
  lemma VisitStep(mem: seq<byte>, visited: seq<nat>, p: nat, rest: Walk)
    ensures After(visited, After([p], rest)) == After(visited + [p], rest)
  {
    assert visited + ([p] + rest.entries) == (visited + [p]) + rest.entries;
  }

  /** Entries after es add enabled LAPICs after those of es. */
  lemma {:induction false} LapicIdsGrow(mem: seq<byte>, es: seq<nat>, more: seq<nat>)
    ensures |LapicIds(mem, es)| <= |LapicIds(mem, es + more)|
    decreases |more|
  {
    if |more| > 0 {
      var init := more[..|more| - 1];
      LapicIdsGrow(mem, es, init);
      assert es + more == (es + init) + [more[|more| - 1]];
      IdsSnoc(mem, es + init, more[|more| - 1]);
    } else {
      assert es + more == es;
    }
  }

  /** Records gives one CPU per id. */
  lemma {:induction false} RecordsLength(n: int, ids: seq<byte>)
    ensures |Records(n, ids)| == |ids|
    decreases |ids|
  {
    if |ids| > 0 {
      RecordsLength(n, ids[..|ids| - 1]);
    }
  }

  /** An enabled LAPIC met with the array full puts the walk's count past it. */
  lemma Overflows(mem: seq<byte>, base: seq<Cpu>, visited: seq<nat>, p: nat, rest: Walk, w: Walk, ncpuMax: nat)
    requires EnabledLapic(mem, p) && |base + Records(|base|, LapicIds(mem, visited))| == ncpuMax
    requires After(visited + [p], rest) == w
    ensures |base| + |LapicIds(mem, w.entries)| > ncpuMax
  {
    RecordsLength(|base|, LapicIds(mem, visited));
    IdsSnoc(mem, visited, p);
    LapicIdsGrow(mem, visited + [p], rest.entries);
  }

  /** The CPUs recorded so far fit the array. */
  lemma Fits(base: seq<Cpu>, ids: seq<byte>, ncpuMax: nat)
    requires |base + Records(|base|, ids)| <= ncpuMax
    ensures |base| + |ids| <= ncpuMax
  {
    RecordsLength(|base|, ids);
  }

  /** The ids of one more entry are those before it and its own. */
  lemma IdsSnoc(mem: seq<byte>, es: seq<nat>, q: nat)
    ensures LapicIds(mem, es + [q]) == LapicIds(mem, es) + (if EnabledLapic(mem, q) then [ByteAt(mem, q + 3)] else [])
    ensures IoapicIds(mem, es + [q]) == IoapicIds(mem, es) + (if LongIoapic(mem, q) then [ByteAt(mem, q + 2)] else [])
  {
    assert (es + [q])[..|es|] == es;
  }

  /** A CPU numbered with the next index keeps the numbering. */
  lemma NumberedSnoc(cpus: seq<Cpu>, c: Cpu)
    requires Numbered(cpus) && c.id == |cpus|
    ensures Numbered(cpus + [c])
  {
  }

  /** The CPUs after one more entry: those before it, then its own. */
  lemma CpusStep(mem: seq<byte>, base: seq<Cpu>, es: seq<nat>, q: nat)
    ensures base + Records(|base|, LapicIds(mem, es + [q]))
         == base + Records(|base|, LapicIds(mem, es)) + (if EnabledLapic(mem, q) then [Cpu(|base + Records(|base|, LapicIds(mem, es))|, ByteAt(mem, q + 3))] else [])
  {
    IdsSnoc(mem, es, q);
    var ids := LapicIds(mem, es);
    RecordsNumbered(|base|, ids);
    var rs := Records(|base|, ids);
    if EnabledLapic(mem, q) {
      RecordsSnoc(|base|, ids, ByteAt(mem, q + 3));
      assert base + (rs + [Cpu(|base| + |ids|, ByteAt(mem, q + 3))]) == base + rs + [Cpu(|base| + |ids|, ByteAt(mem, q + 3))];
    } else {
      assert ids + [] == ids;
      assert base + rs + [] == base + rs;
    }
  }

  /** Records of one more id end with that id, numbered after the others. */
  lemma RecordsSnoc(n: int, ids: seq<byte>, x: byte)
    ensures Records(n, ids + [x]) == Records(n, ids) + [Cpu(n + |ids|, x)]
  {
    assert (ids + [x])[..|ids|] == ids;
  }
}
