/**
 * ARP for IPv4 over Ethernet (kernel/arp.c), as RFC 826 describes it:
 * the 28-byte message, the 4096-slot table of address mappings, its
 * aging sweep, the reception rule (learn from every message, insert a
 * new mapping and answer a request only when it is addressed to the
 * receiving interface) and the non-blocking arp_resolve.
 *
 * The table is an array of entries the operations update in place;
 * what the driver is handed (dev->ops->xmit) is appended to a log, and
 * what the driver answers for it is a parameter. The clock (time()) is
 * the parameter now, read once per call. include/arp.h is not part of
 * this model: the three outcomes of arp_resolve are the constructors of
 * Resolution. The entries' pending-packet fields are left out: the only
 * code that stores a packet there is commented out.
 */
module Arp {
  import opened Common
  import Net
  import Ethernet
  import Ip

  const ARP_HRD_ETHERNET: uint16 := 0x0001
  const ARP_OP_REQUEST: uint16 := 1
  const ARP_OP_REPLY: uint16 := 2
  const ARP_TABLE_SIZE: nat := 4096
  const ARP_TABLE_TIMEOUT_SEC: int := 300
  /** How many seconds arp_rx waits between two sweeps of the table. */
  const ARP_PATROL_INTERVAL: int := 10
  /** sizeof(struct arp_ethernet): the header, two hardware and two protocol addresses. */
  const ARP_MESSAGE_SIZE: nat := 28

  // ---------------------------------------------------------------------
  // The message

  /** struct arp_ethernet, with the 16-bit fields as ntoh16 reads them and the protocol addresses as ip_addr_t values. */
  datatype Message = Message(hrd: uint16, pro: uint16, hln: byte, pln: byte, op: uint16,
                             sha: seq<byte>, spa: uint32, tha: seq<byte>, tpa: uint32)

  predicate WellSized(m: Message)
  {
    |m.sha| == Ethernet.ETHERNET_ADDR_LEN && |m.tha| == Ethernet.ETHERNET_ADDR_LEN
  }

  /** The bytes of a message, in network order. */
  function Encode(m: Message): (b: seq<byte>)
    requires WellSized(m)
    ensures |b| == ARP_MESSAGE_SIZE
  {
    Be16(m.hrd) + Be16(m.pro) + [m.hln, m.pln] + Be16(m.op) + m.sha + Be32(m.spa) + m.tha + Be32(m.tpa)
  }

  /** How arp_rx reads the first 28 bytes of a packet. */
  function Decode(b: seq<byte>): (m: Message)
    requires |b| >= ARP_MESSAGE_SIZE
    ensures WellSized(m)
  {
    Message(GetBe16(b, 0), GetBe16(b, 2), b[4], b[5], GetBe16(b, 6), b[8..14], GetBe32(b, 14), b[18..24], GetBe32(b, 24))
  }

  /** Reading back the bytes of a message gives the message. */
  lemma DecodeEncode(m: Message)
    requires WellSized(m)
    ensures Decode(Encode(m)) == m
  {
    var b := Encode(m);
    assert b[0..2] == Be16(m.hrd) && b[2..4] == Be16(m.pro) && b[6..8] == Be16(m.op);
    assert b[8..14] == m.sha && b[14..18] == Be32(m.spa) && b[18..24] == m.tha && b[24..28] == Be32(m.tpa);
    Ip.AddrOfBytes(m.spa);
    Ip.AddrOfBytes(m.tpa);
  }

  /** An ARP message for IPv4 over Ethernet with the given operation and addresses. */
  function Ipv4Message(op: uint16, sha: seq<byte>, spa: uint32, tha: seq<byte>, tpa: uint32): (m: Message)
  {
    Message(ARP_HRD_ETHERNET, Ethernet.ETHERNET_TYPE_IP, Ethernet.ETHERNET_ADDR_LEN as byte, Ip.IP_ADDR_LEN as byte, op,
            sha, spa, tha, tpa)
  }

  /**
   * The checks of arp_rx: plen at least the message size, hardware type
   * Ethernet, protocol type IPv4, hardware address length 6 and
   * protocol address length 4; the message it then works on.
   */
  function RxCheck(packet: seq<byte>, plen: nat): (r: Option<Message>)
    requires plen <= |packet|
    ensures r.Some? ==> plen >= ARP_MESSAGE_SIZE && r.value == Decode(packet)
  {
    if plen < ARP_MESSAGE_SIZE then None
    else
      var m := Decode(packet);
      if m.hrd != ARP_HRD_ETHERNET || m.pro != Ethernet.ETHERNET_TYPE_IP then None
      else if m.hln != Ethernet.ETHERNET_ADDR_LEN as byte || m.pln != Ip.IP_ADDR_LEN as byte then None
      else Some(m)
  }

  /** Every message arp_send_request or arp_send_reply builds passes arp_rx's checks and is read back as sent. */
  lemma SentMessagesAreAccepted(op: uint16, sha: seq<byte>, spa: uint32, tha: seq<byte>, tpa: uint32)
    requires |sha| == Ethernet.ETHERNET_ADDR_LEN && |tha| == Ethernet.ETHERNET_ADDR_LEN
    ensures var m := Ipv4Message(op, sha, spa, tha, tpa);
      RxCheck(Encode(m), ARP_MESSAGE_SIZE) == Some(m)
  {
    DecodeEncode(Ipv4Message(op, sha, spa, tha, tpa));
  }

  // ---------------------------------------------------------------------
  // The table

  /** struct arp_entry without its pending-packet fields: the protocol and hardware addresses, when it was last refreshed, the interface. */
  datatype Entry = Entry(used: bool, pa: uint32, ha: seq<byte>, timestamp: int, netif: Net.Netif?)

  /** The all-zero entry of the static table, and of a cleared slot but for its timestamp. */
  function Empty(): Entry
  {
    Entry(false, 0, Zeros(Ethernet.ETHERNET_ADDR_LEN), 0, null)
  }

  /** The slot arp_table_select returns for pa: the first used entry holding it, |ts| for null. */
  function Find(ts: seq<Entry>, pa: uint32): (k: nat)
    ensures k <= |ts| && (k < |ts| ==> ts[k].used && ts[k].pa == pa)
    ensures forall j :: 0 <= j < k ==> !(ts[j].used && ts[j].pa == pa)
  {
    if ts == [] then 0
    else if ts[0].used && ts[0].pa == pa then 0
    else 1 + Find(ts[1..], pa)
  }

  /** The slot arp_table_freespace returns: the first unused entry, |ts| for null. */
  function FirstFree(ts: seq<Entry>): (k: nat)
    ensures k <= |ts| && (k < |ts| ==> !ts[k].used)
    ensures forall j :: 0 <= j < k ==> ts[j].used
  {
    if ts == [] then 0
    else if !ts[0].used then 0
    else 1 + FirstFree(ts[1..])
  }

  /** arp_entry_clear: not used, address 0, hardware address zero, no interface; the timestamp stays. */
  function Cleared(e: Entry): Entry
  {
    e.(used := false, pa := 0, ha := Zeros(Ethernet.ETHERNET_ADDR_LEN), netif := null)
  }

  /** An entry arp_table_patrol clears at time now: used and refreshed more than 300 seconds before. */
  predicate Stale(e: Entry, now: int)
  {
    e.used && now - e.timestamp > ARP_TABLE_TIMEOUT_SEC
  }

  /** The table after arp_table_patrol at time now. */
  function Patrolled(ts: seq<Entry>, now: int): (ts': seq<Entry>)
    ensures |ts'| == |ts|
  {
    seq(|ts|, k requires 0 <= k < |ts| => if Stale(ts[k], now) then Cleared(ts[k]) else ts[k])
  }

  /** After a sweep no entry is older than the timeout, and the entries that were not are as they were. */
  lemma PatrolLeavesNoStale(ts: seq<Entry>, now: int)
    ensures var ts' := Patrolled(ts, now);
      (forall k :: 0 <= k < |ts| ==> !Stale(ts'[k], now))
      && (forall k :: 0 <= k < |ts| && !Stale(ts[k], now) ==> ts'[k] == ts[k])
      && (forall k :: 0 <= k < |ts| && Stale(ts[k], now) ==> !ts'[k].used && ts'[k].netif == null)
  {
  }

  /** The table after arp_table_update(pa, ha) at time now: the entry for pa gets ha and the time; no entry, no change. */
  function Updated(ts: seq<Entry>, pa: uint32, ha: seq<byte>, now: int): (ts': seq<Entry>)
    ensures |ts'| == |ts|
  {
    var k := Find(ts, pa);
    if k == |ts| then ts else ts[k := ts[k].(ha := ha, timestamp := now)]
  }

  /** The table after arp_table_insert(pa, ha) at time now: the first free slot is used for pa; a full table is unchanged. */
  function Inserted(ts: seq<Entry>, pa: uint32, ha: seq<byte>, now: int): (ts': seq<Entry>)
    ensures |ts'| == |ts|
  {
    var k := FirstFree(ts);
    if k == |ts| then ts else ts[k := ts[k].(used := true, pa := pa, ha := ha, timestamp := now)]
  }

  /** arp_table_update changes only the entry for pa, and after it that entry maps pa to ha. */
  lemma UpdateRefreshes(ts: seq<Entry>, pa: uint32, ha: seq<byte>, now: int)
    ensures var ts' := Updated(ts, pa, ha, now); var k := Find(ts, pa);
      (k == |ts| ==> ts' == ts)
      && (k < |ts| ==> Find(ts', pa) == k && ts'[k].ha == ha && ts'[k].timestamp == now)
      && (forall j :: 0 <= j < |ts| && j != k ==> ts'[j] == ts[j])
  {
    var k := Find(ts, pa);
    if k < |ts| {
      FindAgain(ts, Updated(ts, pa, ha, now), pa, k);
    }
  }

  /** A table that agrees with ts before slot k and holds pa in use at k finds pa at k. */
  lemma {:induction false} FindAgain(ts: seq<Entry>, ts': seq<Entry>, pa: uint32, k: nat)
    requires |ts'| == |ts| && k == Find(ts, pa) && k < |ts|
    requires forall j :: 0 <= j < k ==> ts'[j] == ts[j]
    requires ts'[k].used && ts'[k].pa == pa
    ensures Find(ts', pa) == k
  {
    if k > 0 {
      assert ts'[0] == ts[0];
      FindAgain(ts[1..], ts'[1..], pa, k - 1);
    }
  }

  /** Inserting pa when the table holds no entry for it and has room makes the first free slot its entry. */
  lemma InsertIsFound(ts: seq<Entry>, pa: uint32, ha: seq<byte>, now: int)
    requires Find(ts, pa) == |ts| && FirstFree(ts) < |ts|
    ensures var ts' := Inserted(ts, pa, ha, now);
      Find(ts', pa) == FirstFree(ts) && ts'[FirstFree(ts)].ha == ha
  {
    var k := FirstFree(ts);
    var ts' := Inserted(ts, pa, ha, now);
    FindFirstOccupant(ts', pa, k);
  }

  /** When no slot before k holds pa in use and slot k does, k is where pa is found. */
  lemma {:induction false} FindFirstOccupant(ts: seq<Entry>, pa: uint32, k: nat)
    requires k < |ts| && ts[k].used && ts[k].pa == pa
    requires forall j :: 0 <= j < k ==> !(ts[j].used && ts[j].pa == pa)
    ensures Find(ts, pa) == k
  {
    if k > 0 {
      FindFirstOccupant(ts[1..], pa, k - 1);
    }
  }

  // ---------------------------------------------------------------------
  // Reception and resolution on values

  /**
   * The table after arp_rx of the accepted message m at time now, the
   * last sweep having been at last: a sweep when more than 10 seconds
   * have passed, the update of the sender's entry, and when the message
   * is for the receiving interface (forUs) and there was no entry to
   * update, the insertion of the sender's mapping.
   */
  function RxTable(ts: seq<Entry>, last: int, now: int, m: Message, forUs: bool): (ts': seq<Entry>)
    ensures |ts'| == |ts|
  {
    var swept := if now - last > ARP_PATROL_INTERVAL then Patrolled(ts, now) else ts;
    var updated := Updated(swept, m.spa, m.sha, now);
    if forUs && Find(swept, m.spa) == |swept| then Inserted(updated, m.spa, m.sha, now) else updated
  }

  /**
   * What arp_rx learns: after a message for the receiving interface the
   * table maps the sender's protocol address to its hardware address,
   * unless the sender was unknown and the table full; after any other
   * message the sender's mapping is refreshed if there was one.
   */
  lemma RxLearnsSender(ts: seq<Entry>, last: int, now: int, m: Message, forUs: bool)
    ensures var swept := if now - last > ARP_PATROL_INTERVAL then Patrolled(ts, now) else ts;
      var ts' := RxTable(ts, last, now, m, forUs);
      (Find(swept, m.spa) < |ts| || (forUs && FirstFree(swept) < |ts|)) ==>
        Find(ts', m.spa) < |ts'| && ts'[Find(ts', m.spa)].ha == m.sha
  {
    var swept := if now - last > ARP_PATROL_INTERVAL then Patrolled(ts, now) else ts;
    UpdateRefreshes(swept, m.spa, m.sha, now);
    if Find(swept, m.spa) == |swept| && forUs && FirstFree(swept) < |ts| {
      InsertIsFound(swept, m.spa, m.sha, now);
    }
  }

  /** The outcomes of arp_resolve: the hardware address found, a request sent, or no room for the query. */
  datatype Resolution = Found(ha: seq<byte>) | Query | Error

  /** arp_resolve's outcome for pa. */
  function ResolveOf(ts: seq<Entry>, pa: uint32): Resolution
  {
    var k := Find(ts, pa);
    if k < |ts| then (if ts[k].ha == Zeros(Ethernet.ETHERNET_ADDR_LEN) then Query else Found(ts[k].ha))
    else if FirstFree(ts) < |ts| then Query
    else Error
  }

  /** The table after arp_resolve for pa through netif at time now: a miss takes the first free slot, anything else leaves the table alone. */
  function ResolveTable(ts: seq<Entry>, pa: uint32, now: int, netif: Net.Netif): (ts': seq<Entry>)
    ensures |ts'| == |ts|
  {
    var k := FirstFree(ts);
    if Find(ts, pa) < |ts| || k == |ts| then ts else ts[k := ts[k].(used := true, pa := pa, timestamp := now, netif := netif)]
  }

  /**
   * A query followed by the peer's answer resolves: once arp_resolve
   * has queried pa (taking a slot) and an ARP message from pa with a
   * nonzero hardware address is received, within the timeout, arp_resolve
   * finds that address.
   */
  lemma QueryThenAnswerResolves(ts: seq<Entry>, pa: uint32, t0: int, last: int, now: int, netif: Net.Netif, m: Message, forUs: bool)
    requires ResolveOf(ts, pa) == Query && Find(ts, pa) == |ts|
    requires m.spa == pa && m.sha != Zeros(Ethernet.ETHERNET_ADDR_LEN) && now - t0 <= ARP_TABLE_TIMEOUT_SEC
    ensures ResolveOf(RxTable(ResolveTable(ts, pa, t0, netif), last, now, m, forUs), pa) == Found(m.sha)
  {
    var k := FirstFree(ts);
    var q := ResolveTable(ts, pa, t0, netif);
    FindFirstOccupant(q, pa, k);
    var swept := if now - last > ARP_PATROL_INTERVAL then Patrolled(q, now) else q;
    assert swept[k] == q[k];
    FindAgainAfterSweep(q, swept, pa, now, last);
    UpdateRefreshes(swept, pa, m.sha, now);
  }

  /** A sweep that keeps pa's entry keeps where pa is found. */
  lemma FindAgainAfterSweep(q: seq<Entry>, swept: seq<Entry>, pa: uint32, now: int, last: int)
    requires swept == (if now - last > ARP_PATROL_INTERVAL then Patrolled(q, now) else q)
    requires Find(q, pa) < |q| && swept[Find(q, pa)] == q[Find(q, pa)]
    ensures Find(swept, pa) == Find(q, pa)
  {
    var k := Find(q, pa);
    assert forall j :: 0 <= j < k ==> !(swept[j].used && swept[j].pa == pa);
    FindFirstOccupant(swept, pa, k);
  }

  // ---------------------------------------------------------------------
  // The state of the ARP layer

  /** One call of dev->ops->xmit: the device, the Ethertype, the payload and the destination hardware address. */
  datatype Xmit = Xmit(dev: Net.Netdev, etherType: uint16, payload: seq<byte>, dst: seq<byte>)

  /**
   * The interface has a device whose address buffer holds at least the
   * ETHERNET_ADDR_LEN bytes that arp_send_request and arp_send_reply copy
   * out of it (struct netdev's addr is 16 bytes long).
   */
  predicate Attached(netif: Net.Netif)
    reads netif, netif.dev
  {
    netif.dev != null && |netif.dev.addr| >= Ethernet.ETHERNET_ADDR_LEN
  }

  /** The sender hardware address: the first ETHERNET_ADDR_LEN bytes of the device's address buffer. */
  function SenderAddr(netif: Net.Netif): (ha: seq<byte>)
    reads netif, netif.dev
    requires Attached(netif)
    ensures |ha| == Ethernet.ETHERNET_ADDR_LEN
    ensures forall k :: 0 <= k < Ethernet.ETHERNET_ADDR_LEN ==> ha[k] == netif.dev.addr[k]
  {
    netif.dev.addr[..Ethernet.ETHERNET_ADDR_LEN]
  }

  /** The request arp_send_request broadcasts from netif for tpa. */
  function RequestFrame(netif: Net.Netif, tpa: uint32): (x: Xmit)
    reads netif, netif.dev
    requires Attached(netif)
    ensures x.etherType == Ethernet.ETHERNET_TYPE_ARP && x.dst == Ethernet.Broadcast()
  {
    Xmit(netif.dev, Ethernet.ETHERNET_TYPE_ARP,
         Encode(Ipv4Message(ARP_OP_REQUEST, SenderAddr(netif), netif.unicast, Zeros(Ethernet.ETHERNET_ADDR_LEN), tpa)),
         Ethernet.Broadcast())
  }

  /** The reply arp_send_reply sends from netif to dst, addressed to tha and tpa. */
  function ReplyFrame(netif: Net.Netif, tha: seq<byte>, tpa: uint32, dst: seq<byte>): (x: Xmit)
    reads netif, netif.dev
    requires Attached(netif) && |tha| == Ethernet.ETHERNET_ADDR_LEN
    ensures x.etherType == Ethernet.ETHERNET_TYPE_ARP && x.dst == dst
  {
    Xmit(netif.dev, Ethernet.ETHERNET_TYPE_ARP, Encode(Ipv4Message(ARP_OP_REPLY, SenderAddr(netif), netif.unicast, tha, tpa)), dst)
  }

  /** A request carries the device's address as sender, the interface's unicast, an all-zero target hardware address and the target. */
  lemma RequestFields(netif: Net.Netif, tpa: uint32)
    requires Attached(netif)
    ensures var m := Decode(RequestFrame(netif, tpa).payload);
      m.op == ARP_OP_REQUEST && m.sha == SenderAddr(netif) && m.spa == netif.unicast
      && m.tha == Zeros(Ethernet.ETHERNET_ADDR_LEN) && m.tpa == tpa
  {
    DecodeEncode(Ipv4Message(ARP_OP_REQUEST, SenderAddr(netif), netif.unicast, Zeros(Ethernet.ETHERNET_ADDR_LEN), tpa));
  }

  class ArpLayer {
    const table: array<Entry>
    var timestamp: int
    var sent: seq<Xmit>

    /** Every hardware address has six bytes, and an unused entry's are zero. */
    predicate Valid()
      reads this, table
    {
      table.Length == ARP_TABLE_SIZE
      && forall k :: 0 <= k < table.Length ==>
           |table[k].ha| == Ethernet.ETHERNET_ADDR_LEN && (!table[k].used ==> table[k].ha == Zeros(Ethernet.ETHERNET_ADDR_LEN))
    }

    /** The zeroed static table, and arp_init reading the clock into timestamp. */
    constructor (now: int)
      ensures Valid() && fresh(table) && timestamp == now && sent == []
      ensures forall k :: 0 <= k < ARP_TABLE_SIZE ==> table[k] == Empty()
    {
      table := new Entry[ARP_TABLE_SIZE](_ => Empty());
      timestamp := now;
      sent := [];
    }

    /** arp_table_select: the slot of the first used entry for pa, None for null. */
    method Select(pa: uint32) returns (r: Option<nat>)
      requires Valid()
      ensures r.None? <==> Find(table[..], pa) == ARP_TABLE_SIZE
      ensures r.Some? ==> r.value == Find(table[..], pa)
    {
      var k := 0;
      while k < ARP_TABLE_SIZE
        invariant k <= ARP_TABLE_SIZE && forall j :: 0 <= j < k ==> !(table[j].used && table[j].pa == pa)
      {
        if table[k].used && table[k].pa == pa {
          FindFirstOccupant(table[..], pa, k);
          return Some(k);
        }
        k := k + 1;
      }
      NotFound(table[..], pa);
      r := None;
    }

    /** arp_table_freespace: the first unused slot, None for null. */
    method FreeSpace() returns (r: Option<nat>)
      requires Valid()
      ensures r.None? <==> FirstFree(table[..]) == ARP_TABLE_SIZE
      ensures r.Some? ==> r.value == FirstFree(table[..])
    {
      var k := 0;
      while k < ARP_TABLE_SIZE
        invariant k <= ARP_TABLE_SIZE && forall j :: 0 <= j < k ==> table[j].used
      {
        if !table[k].used {
          FirstFreeIs(table[..], k);
          return Some(k);
        }
        k := k + 1;
      }
      FirstFreeIs(table[..], ARP_TABLE_SIZE);
      r := None;
    }

    /** arp_table_update: -1 with nothing changed when pa has no entry; otherwise its ha and timestamp are set, 0. */
    method Update(pa: uint32, ha: seq<byte>, now: int) returns (r: int)
      requires Valid() && |ha| == Ethernet.ETHERNET_ADDR_LEN
      modifies table
      ensures Valid()
      ensures r == (if Find(old(table[..]), pa) < ARP_TABLE_SIZE then 0 else -1)
      ensures table[..] == Updated(old(table[..]), pa, ha, now)
    {
      var k := Select(pa);
      if k.None? {
        return -1;
      }
      table[k.value] := table[k.value].(ha := ha, timestamp := now);
      r := 0;
    }

    /** arp_table_insert: the first free slot is given pa, ha and the time, 0; -1 with nothing changed when the table is full. */
    method Insert(pa: uint32, ha: seq<byte>, now: int) returns (r: int)
      requires Valid() && |ha| == Ethernet.ETHERNET_ADDR_LEN
      modifies table
      ensures Valid()
      ensures r == (if FirstFree(old(table[..])) < ARP_TABLE_SIZE then 0 else -1)
      ensures table[..] == Inserted(old(table[..]), pa, ha, now)
    {
      var k := FreeSpace();
      if k.None? {
        return -1;
      }
      table[k.value] := table[k.value].(used := true, pa := pa, ha := ha, timestamp := now);
      r := 0;
    }

    /** arp_table_patrol: every entry older than the timeout at timestamp is cleared. */
    method Patrol()
      requires Valid()
      modifies table
      ensures Valid()
      ensures table[..] == Patrolled(old(table[..]), timestamp)
    {
      ghost var ts := table[..];
      var k := 0;
      while k < ARP_TABLE_SIZE
        invariant k <= ARP_TABLE_SIZE && Valid()
        invariant forall j :: 0 <= j < k ==> table[j] == Patrolled(ts, timestamp)[j]
        invariant forall j :: k <= j < ARP_TABLE_SIZE ==> table[j] == ts[j]
      {
        if table[k].used && timestamp - table[k].timestamp > ARP_TABLE_TIMEOUT_SEC {
          table[k] := Cleared(table[k]);
        }
        k := k + 1;
      }
      assert table[..] == Patrolled(ts, timestamp);
    }

    /**
     * arp_send_request: -1 for a null target; otherwise the request for
     * tpa is broadcast from netif, and the result is -1 when the driver
     * answers -1, 0 otherwise.
     */
    method SendRequest(netif: Net.Netif, tpa: Option<uint32>, answer: int) returns (r: int)
      requires Attached(netif)
      modifies this
      ensures tpa.None? ==> r == -1 && sent == old(sent)
      ensures tpa.Some? ==> sent == old(sent) + [RequestFrame(netif, tpa.value)] && r == (if answer == -1 then -1 else 0)
      ensures timestamp == old(timestamp)
    {
      if tpa.None? {
        return -1;
      }
      sent := sent + [RequestFrame(netif, tpa.value)];
      r := if answer == -1 then -1 else 0;
    }

    /**
     * arp_send_reply: -1 for a null target; otherwise the reply to tha and
     * tpa is sent from netif to dst, and the result is -1 when the driver
     * answers a negative value, 0 otherwise.
     */
    method SendReply(netif: Net.Netif, tha: Option<seq<byte>>, tpa: Option<uint32>, dst: seq<byte>, answer: int) returns (r: int)
      requires Attached(netif) && (tha.Some? ==> |tha.value| == Ethernet.ETHERNET_ADDR_LEN)
      modifies this
      ensures tha.None? || tpa.None? ==> r == -1 && sent == old(sent)
      ensures tha.Some? && tpa.Some? ==>
        sent == old(sent) + [ReplyFrame(netif, tha.value, tpa.value, dst)] && r == (if answer < 0 then -1 else 0)
      ensures timestamp == old(timestamp)
    {
      if tha.None? || tpa.None? {
        return -1;
      }
      sent := sent + [ReplyFrame(netif, tha.value, tpa.value, dst)];
      r := if answer < 0 then -1 else 0;
    }

    /**
     * arp_rx on plen bytes of packet from dev at time now: a message that
     * fails the checks changes nothing; otherwise the table becomes
     * RxTable, the sweep time is now if a sweep ran, and a request for
     * the receiving interface is answered to its sender.
     */
    method Rx(packet: seq<byte>, plen: nat, dev: Net.Netdev, now: int, answer: int)
      requires Valid() && plen <= |packet|
      requires var i := Net.FirstOfFamily(dev.ifs, Net.NETIF_FAMILY_IPV4); i != null ==> Attached(i)
      modifies this, table
      ensures Valid()
      ensures RxCheck(packet, plen).None? ==> table[..] == old(table[..]) && timestamp == old(timestamp) && sent == old(sent)
      ensures RxCheck(packet, plen).Some? ==>
        var m := RxCheck(packet, plen).value;
        var i := Net.FirstOfFamily(dev.ifs, Net.NETIF_FAMILY_IPV4);
        var forUs := i != null && i.unicast == m.tpa;
        table[..] == RxTable(old(table[..]), old(timestamp), now, m, forUs)
        && timestamp == (if now - old(timestamp) > ARP_PATROL_INTERVAL then now else old(timestamp))
        && sent == old(sent) + (if forUs && m.op == ARP_OP_REQUEST then [ReplyFrame(i, m.sha, m.spa, m.sha)] else [])
    {
      var c := RxCheck(packet, plen);
      if c.None? {
        return;
      }
      Learn(c.value, dev, now, answer);
    }

    /** The part of arp_rx after the checks, for the accepted message m. */
    method Learn(m: Message, dev: Net.Netdev, now: int, answer: int)
      requires Valid() && WellSized(m)
      requires var i := Net.FirstOfFamily(dev.ifs, Net.NETIF_FAMILY_IPV4); i != null ==> Attached(i)
      modifies this, table
      ensures Valid()
      ensures var i := Net.FirstOfFamily(dev.ifs, Net.NETIF_FAMILY_IPV4);
        var forUs := i != null && i.unicast == m.tpa;
        table[..] == RxTable(old(table[..]), old(timestamp), now, m, forUs)
        && timestamp == (if now - old(timestamp) > ARP_PATROL_INTERVAL then now else old(timestamp))
        && sent == old(sent) + (if forUs && m.op == ARP_OP_REQUEST then [ReplyFrame(i, m.sha, m.spa, m.sha)] else [])
    {
      ghost var ts := table[..];
      ghost var i := Net.FirstOfFamily(dev.ifs, Net.NETIF_FAMILY_IPV4);
      if now - timestamp > ARP_PATROL_INTERVAL {
        timestamp := now;
        Patrol();
      }
      ghost var swept := table[..];
      assert swept == if now - old(timestamp) > ARP_PATROL_INTERVAL then Patrolled(ts, now) else ts;
      var u := Update(m.spa, m.sha, now);
      var marge := u == 0;
      assert marge <==> Find(swept, m.spa) < |swept|;
      var netif := dev.GetNetif(Net.NETIF_FAMILY_IPV4);
      assert netif == i;
      ghost var forUs := i != null && i.unicast == m.tpa;
      if netif != null && netif.unicast == m.tpa {
        if !marge {
          var _ := Insert(m.spa, m.sha, now);
        }
        assert table[..] == RxTable(ts, old(timestamp), now, m, forUs);
        if m.op == ARP_OP_REQUEST {
          var _ := SendReply(netif, Some(m.sha), Some(m.spa), m.sha, answer);
        } else {
          assert sent == old(sent) + [];
        }
      } else {
        assert table[..] == RxTable(ts, old(timestamp), now, m, forUs);
        assert sent == old(sent) + [];
      }
    }

    /**
     * arp_resolve for pa through netif at time now: a cached nonzero
     * hardware address is Found; a cached all-zero one has the request
     * sent again and is a Query; a miss takes the first free slot, sends
     * a request and is a Query; with no free slot it is an Error.
     */
    method Resolve(netif: Net.Netif, pa: uint32, now: int, answer: int) returns (res: Resolution)
      requires Valid() && Attached(netif)
      modifies this, table
      ensures Valid()
      ensures res == ResolveOf(old(table[..]), pa)
      ensures table[..] == ResolveTable(old(table[..]), pa, now, netif)
      ensures sent == old(sent) + (if res.Query? then [RequestFrame(netif, pa)] else [])
      ensures timestamp == old(timestamp)
    {
      var k := Select(pa);
      if k.Some? {
        if table[k.value].ha == Zeros(Ethernet.ETHERNET_ADDR_LEN) {
          var _ := SendRequest(netif, Some(pa), answer);
          return Query;
        }
        return Found(table[k.value].ha);
      }
      var free := FreeSpace();
      if free.None? {
        return Error;
      }
      table[free.value] := table[free.value].(used := true, pa := pa, timestamp := now, netif := netif);
      var _ := SendRequest(netif, Some(pa), answer);
      res := Query;
    }
  }

  /** No slot holding pa in use means pa is not found. */
  lemma NotFound(ts: seq<Entry>, pa: uint32)
    requires forall j :: 0 <= j < |ts| ==> !(ts[j].used && ts[j].pa == pa)
    ensures Find(ts, pa) == |ts|
  {
  }

  /** When every slot before k is used and k is not (or is the end), k is the first free slot. */
  lemma {:induction false} FirstFreeIs(ts: seq<Entry>, k: nat)
    requires k <= |ts| && (k < |ts| ==> !ts[k].used) && forall j :: 0 <= j < k ==> ts[j].used
    ensures FirstFree(ts) == k
  {
    if k > 0 {
      FirstFreeIs(ts[1..], k - 1);
    } else if ts != [] {
      assert !ts[0].used;
    }
  }
}
