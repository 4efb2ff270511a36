/**
 * UDP (kernel/udp.c) as RFC 768 describes it: the 8-byte header and the
 * checksum over a pseudo-header, 16 control blocks with a FIFO queue of
 * received datagrams each, the bind-conflict rule and the choice of an
 * ephemeral source port.
 *
 * The control blocks are an array the operations update in place; a
 * queue (queue_push / queue_pop, whose source is not part of this model)
 * is a sequence pushed at its back and popped at its front. Ports are
 * the numbers as they appear on the wire: the source keeps them in
 * network order and converts with hton16, so comparing the stored values
 * is comparing these numbers. Whether kalloc finds a page is the
 * parameter allocOk; a recvfrom that would sleep on an empty queue
 * returns blocked instead.
 */
module Udp {
  import opened Common
  import Checksum
  import Net
  import Ip
  import opened Socket

  const UDP_CB_TABLE_SIZE: nat := 16
  const UDP_SOURCE_PORT_MIN: nat := 49152
  const UDP_SOURCE_PORT_MAX: nat := 65535
  const UDP_HDR_SIZE: nat := 8
  /** The stack buffer udp_tx builds the datagram in. */
  const UDP_BUFSIZ: nat := 65536

  // ---------------------------------------------------------------------
  // The datagram

  /** struct udp_hdr in network order: source port, destination port, length, checksum. */
  function Header(sport: uint16, dport: uint16, len: uint16, sum: uint16): (h: seq<byte>)
    ensures |h| == UDP_HDR_SIZE
  {
    Be16(sport) + Be16(dport) + Be16(len) + Be16(sum)
  }

  /**
   * The pseudo-header udp_tx and udp_rx start the sum from: both halves
   * of the source and of the destination address, the protocol number
   * and the 16-bit length.
   */
  function Pseudo(src: uint32, dst: uint32, len: uint16): nat
  {
    src / U16 + src % U16 + dst / U16 + dst % U16 + Ip.IP_PROTOCOL_UDP as nat + len
  }

  /**
   * The datagram udp_tx builds from sport to dport and hands to ip_tx: the
   * length field 8 + |payload| (cut to 16 bits), the checksum of the whole
   * datagram with the sum field at 0 and the pseudo-header of src and dst,
   * then the payload.
   */
  function Segment(sport: uint16, dport: uint16, payload: seq<byte>, src: uint32, dst: uint32): (s: seq<byte>)
    ensures |s| == UDP_HDR_SIZE + |payload|
  {
    var len := (UDP_HDR_SIZE + |payload|) % U16;
    Header(sport, dport, len, Checksum.Cksum16(Header(sport, dport, len, 0) + payload, Pseudo(src, dst, len))) + payload
  }

  /** Every datagram udp_tx builds sums, with its pseudo-header, to a checksum of 0. */
  lemma SegmentVerifies(sport: uint16, dport: uint16, payload: seq<byte>, src: uint32, dst: uint32)
    ensures var s := Segment(sport, dport, payload, src, dst);
      Checksum.Cksum16(s, Pseudo(src, dst, |s| % U16)) == 0
  {
    var len := (UDP_HDR_SIZE + |payload|) % U16;
    var z: seq<byte> := Header(sport, dport, len, 0) + payload;
    var c := Checksum.Cksum16(z, Pseudo(src, dst, len));
    assert Segment(sport, dport, payload, src, dst) == z[6 := c / 256][7 := c % 256];
    Checksum.CompletedChecksumVerifies(z, 6, Pseudo(src, dst, len));
  }

  /** A queued datagram (struct udp_queue_hdr and its data): the sender's address and port, and the payload. */
  datatype Datagram = Datagram(addr: uint32, port: uint16, data: seq<byte>)

  /** What udp_rx reads from a datagram it accepts: the destination port and what it queues. */
  datatype Incoming = Incoming(dport: uint16, datagram: Datagram)

  /**
   * udp_rx's checks on the len bytes of buf that ip_rx hands on from src
   * to dst: shorter than the header, or a checksum over the pseudo-header
   * (with len as its length) that does not come to 0, is dropped.
   */
  function RxCheck(buf: seq<byte>, len: uint32, src: uint32, dst: uint32): (r: Option<Incoming>)
    requires len as int <= |buf|
    ensures r.Some? ==> len >= UDP_HDR_SIZE && |r.value.datagram.data| == len - UDP_HDR_SIZE
    ensures r.Some? ==> r.value.datagram.addr == src
  {
    if len < UDP_HDR_SIZE then None
    else if Checksum.Cksum16(buf[..len], Pseudo(src, dst, len % U16)) != 0 then None
    else Some(Incoming(GetBe16(buf, 2), Datagram(src, GetBe16(buf, 0), buf[UDP_HDR_SIZE..len])))
  }

  /**
   * A datagram udp_tx built from src to dst passes udp_rx's checks at dst,
   * which reads back its destination port, its source port and its payload.
   */
  lemma TxThenRx(sport: uint16, dport: uint16, payload: seq<byte>, src: uint32, dst: uint32)
    requires UDP_HDR_SIZE + |payload| < U32
    ensures var s := Segment(sport, dport, payload, src, dst);
      RxCheck(s, |s|, src, dst) == Some(Incoming(dport, Datagram(src, sport, payload)))
  {
    var s := Segment(sport, dport, payload, src, dst);
    SegmentVerifies(sport, dport, payload, src, dst);
    assert s[..|s|] == s;
    assert s[0..2] == Be16(sport) && s[2..4] == Be16(dport);
    assert s[UDP_HDR_SIZE..|s|] == payload;
  }

  // ---------------------------------------------------------------------
  // The control blocks on values

  /** struct udp_cb: whether it is open, the interface it is bound to (null: any), its port (0: none) and its queue. */
  datatype Cb = Cb(used: bool, iface: Net.Netif?, port: uint16, queue: seq<Datagram>)

  /** The zeroed block of the static table, and what udp_api_close leaves. */
  function Free(): Cb
  {
    Cb(false, null, 0, [])
  }

  /** A block udp_rx delivers to for a datagram to dport arriving on iface. */
  predicate Matches(cb: Cb, iface: Net.Netif, dport: uint16)
  {
    cb.used && (cb.iface == null || cb.iface == iface) && cb.port == dport
  }

  /** The block udp_rx queues on: the first that matches, |cbs| for none. */
  function FirstMatch(cbs: seq<Cb>, iface: Net.Netif, dport: uint16): (k: nat)
    ensures k <= |cbs| && (k < |cbs| ==> Matches(cbs[k], iface, dport))
    ensures forall j :: 0 <= j < k ==> !Matches(cbs[j], iface, dport)
  {
    if cbs == [] then 0
    else if Matches(cbs[0], iface, dport) then 0
    else 1 + FirstMatch(cbs[1..], iface, dport)
  }

  /** The blocks after udp_rx delivers in on iface: pushed onto the first match's queue when kalloc succeeds. */
  function Delivered(cbs: seq<Cb>, iface: Net.Netif, got: Incoming, allocOk: bool): (cbs': seq<Cb>)
    ensures |cbs'| == |cbs|
  {
    var k := FirstMatch(cbs, iface, got.dport);
    if k == |cbs| || !allocOk then cbs else cbs[k := cbs[k].(queue := cbs[k].queue + [got.datagram])]
  }

  /** The blocks after udp_rx of len bytes of buf from src to dst arriving on iface. */
  function RxTable(cbs: seq<Cb>, buf: seq<byte>, len: uint32, src: uint32, dst: uint32, iface: Net.Netif,
                   allocOk: bool): (cbs': seq<Cb>)
    requires len as int <= |buf|
    ensures |cbs'| == |cbs|
  {
    match RxCheck(buf, len, src, dst)
      case None => cbs
      case Some(got) => Delivered(cbs, iface, got, allocOk)
  }

  /** The kalloc page udp_rx copies a queued datagram into, and the queue header (address, port, length) in front of its data. */
  const PGSIZE: nat := 4096
  const QUEUE_HDR_SIZE: nat := 8

  /**
   * Whether udp_rx on these blocks overruns the page it queues into: the
   * datagram passes the checks, a block matches, kalloc finds a page, and
   * the queue header plus the data do not fit in that page.
   */
  predicate RxOverruns(cbs: seq<Cb>, buf: seq<byte>, len: uint32, src: uint32, dst: uint32, iface: Net.Netif,
                       allocOk: bool)
    requires len as int <= |buf|
  {
    match RxCheck(buf, len, src, dst)
      case None => false
      case Some(got) => FirstMatch(cbs, iface, got.dport) < |cbs| && allocOk && QUEUE_HDR_SIZE + |got.datagram.data| > PGSIZE
  }

  /** The page overflows exactly for an accepted, delivered datagram longer than the page itself. */
  lemma OverrunIffLonger(cbs: seq<Cb>, buf: seq<byte>, len: uint32, src: uint32, dst: uint32, iface: Net.Netif,
                         allocOk: bool)
    requires len as int <= |buf|
    ensures RxOverruns(cbs, buf, len, src, dst, iface, allocOk) <==>
      RxCheck(buf, len, src, dst).Some? && allocOk
      && FirstMatch(cbs, iface, RxCheck(buf, len, src, dst).value.dport) < |cbs| && len as nat > PGSIZE
  {
  }

  /**
   * A delivery goes to the back of the first matching block's queue and
   * leaves every other block as it was; with no match, or no page, nothing
   * changes.
   */
  lemma DeliveryQueuesOnce(cbs: seq<Cb>, iface: Net.Netif, got: Incoming, allocOk: bool)
    ensures var k := FirstMatch(cbs, iface, got.dport); var cbs' := Delivered(cbs, iface, got, allocOk);
      (k == |cbs| || !allocOk ==> cbs' == cbs)
      && (k < |cbs| && allocOk ==>
            cbs'[k].queue == cbs[k].queue + [got.datagram] && cbs'[k].queue[..|cbs[k].queue|] == cbs[k].queue
            && FirstMatch(cbs', iface, got.dport) == k
            && forall j :: 0 <= j < |cbs| && j != k ==> cbs'[j] == cbs[j])
  {
    var k := FirstMatch(cbs, iface, got.dport);
    if k < |cbs| && allocOk {
      var cbs' := Delivered(cbs, iface, got, allocOk);
      FirstMatchIs(cbs', iface, got.dport, k);
    }
  }

  /** When no block before k matches and block k does, k is the first match. */
  lemma {:induction false} FirstMatchIs(cbs: seq<Cb>, iface: Net.Netif, dport: uint16, k: nat)
    requires k < |cbs| && Matches(cbs[k], iface, dport)
    requires forall j :: 0 <= j < k ==> !Matches(cbs[j], iface, dport)
    ensures FirstMatch(cbs, iface, dport) == k
  {
    if k > 0 {
      FirstMatchIs(cbs[1..], iface, dport, k - 1);
    }
  }

  /**
   * End to end: a datagram udp_tx sent from sport at src to dport at dst,
   * arriving on an interface where block soc is the first match, is
   * queued on soc with its sender and payload, ready for recvfrom.
   */
  lemma SentDatagramIsQueued(cbs: seq<Cb>, sport: uint16, dport: uint16, payload: seq<byte>, src: uint32, dst: uint32,
                             arrival: Net.Netif, soc: nat)
    requires UDP_HDR_SIZE + |payload| < U32 && soc == FirstMatch(cbs, arrival, dport) && soc < |cbs|
    ensures var s := Segment(sport, dport, payload, src, dst);
      RxTable(cbs, s, |s|, src, dst, arrival, true)[soc].queue == cbs[soc].queue + [Datagram(src, sport, payload)]
  {
    TxThenRx(sport, dport, payload, src, dst);
  }

  /** The block udp_api_open hands out: the first unused, |cbs| for none. */
  function FirstUnused(cbs: seq<Cb>): (k: nat)
    ensures k <= |cbs| && (k < |cbs| ==> !cbs[k].used)
    ensures forall j :: 0 <= j < k ==> cbs[j].used
  {
    if cbs == [] then 0
    else if !cbs[0].used then 0
    else 1 + FirstUnused(cbs[1..])
  }

  /** The blocks after udp_api_open: the first unused one is marked used; a full table is unchanged. */
  function Opened(cbs: seq<Cb>): (cbs': seq<Cb>)
    ensures |cbs'| == |cbs|
  {
    var k := FirstUnused(cbs);
    if k == |cbs| then cbs else cbs[k := cbs[k].(used := true)]
  }

  /** udp_api_close leaves an unused zeroed block, so when the blocks before it are in use, open hands it out again, clean. */
  lemma ReopenAfterClose(cbs: seq<Cb>, soc: nat)
    requires soc < |cbs| && forall j :: 0 <= j < soc ==> cbs[j].used
    ensures FirstUnused(cbs[soc := Free()]) == soc
    ensures Opened(cbs[soc := Free()])[soc] == Cb(true, null, 0, [])
  {
    FirstUnusedIs(cbs[soc := Free()], soc);
  }

  /** When every block before k is used and k is not (or is the end), k is the first unused block. */
  lemma {:induction false} FirstUnusedIs(cbs: seq<Cb>, k: nat)
    requires k <= |cbs| && (k < |cbs| ==> !cbs[k].used) && forall j :: 0 <= j < k ==> cbs[j].used
    ensures FirstUnused(cbs) == k
  {
    if k > 0 {
      FirstUnusedIs(cbs[1..], k - 1);
    } else if cbs != [] {
      assert !cbs[0].used;
    }
  }

  /**
   * The bind-conflict rule: another block in use holds port with an
   * overlapping scope (either side bound to any interface, or both to the
   * same one).
   */
  predicate Conflicts(cbs: seq<Cb>, soc: nat, iface: Net.Netif?, port: uint16)
  {
    exists k :: 0 <= k < |cbs| && k != soc && cbs[k].used && cbs[k].port == port
      && (iface == null || cbs[k].iface == null || cbs[k].iface == iface)
  }

  /** The blocks after a successful bind of soc: only its interface and port change. */
  function Bound(cbs: seq<Cb>, soc: nat, iface: Net.Netif?, port: uint16): (cbs': seq<Cb>)
    requires soc < |cbs|
    ensures |cbs'| == |cbs|
  {
    cbs[soc := cbs[soc].(iface := iface, port := port)]
  }

  /**
   * What the conflict rule buys: after a bind that passed it, a datagram
   * to the bound port arriving on an interface within the bound scope is
   * delivered to that block and to no other.
   */
  lemma BoundIsOnlyMatch(cbs: seq<Cb>, soc: nat, iface: Net.Netif?, port: uint16, arrival: Net.Netif)
    requires soc < |cbs| && cbs[soc].used && !Conflicts(cbs, soc, iface, port)
    requires iface == null || iface == arrival
    ensures var cbs' := Bound(cbs, soc, iface, port);
      FirstMatch(cbs', arrival, port) == soc
      && forall j :: 0 <= j < |cbs'| && j != soc ==> !Matches(cbs'[j], arrival, port)
  {
    var cbs' := Bound(cbs, soc, iface, port);
    forall j | 0 <= j < |cbs'| && j != soc
      ensures !Matches(cbs'[j], arrival, port)
    {
      assert cbs'[j] == cbs[j];
    }
    FirstMatchIs(cbs', arrival, port, soc);
  }

  /** No block bound to any interface or to iface holds port p (udp_api_sendto looks at every block, used or not). */
  predicate PortFree(cbs: seq<Cb>, iface: Net.Netif, p: uint16)
  {
    forall k :: 0 <= k < |cbs| ==> !(cbs[k].port == p && (cbs[k].iface == null || cbs[k].iface == iface))
  }

  /** The port udp_api_sendto's search from p on finds: the first free one up to 65535, None when there is none. */
  function Ephemeral(cbs: seq<Cb>, iface: Net.Netif, p: nat): (r: Option<uint16>)
    requires p <= U16
    decreases U16 - p
  {
    if p == U16 then None
    else if PortFree(cbs, iface, p) then Some(p)
    else Ephemeral(cbs, iface, p + 1)
  }

  /** The search gives the smallest free port from p on, and None only when every one of them is taken. */
  lemma {:induction false} EphemeralIsSmallest(cbs: seq<Cb>, iface: Net.Netif, p: nat)
    requires p <= U16
    ensures var r := Ephemeral(cbs, iface, p);
      (r.None? ==> forall q :: p <= q < U16 ==> !PortFree(cbs, iface, q))
      && (r.Some? ==>
            p <= r.value && PortFree(cbs, iface, r.value) && forall q :: p <= q < r.value ==> !PortFree(cbs, iface, q))
    decreases U16 - p
  {
    if p < U16 && !PortFree(cbs, iface, p) {
      EphemeralIsSmallest(cbs, iface, p + 1);
    }
  }

  /**
   * A port the search found is the sender's own: a reply to it arriving
   * on the interface the datagram went out on is delivered to soc.
   */
  lemma EphemeralReachesSender(cbs: seq<Cb>, soc: nat, iface: Net.Netif, p: uint16)
    requires soc < |cbs| && cbs[soc].used && (cbs[soc].iface == null || cbs[soc].iface == iface)
    requires PortFree(cbs, iface, p)
    ensures FirstMatch(cbs[soc := cbs[soc].(port := p)], iface, p) == soc
  {
    var cbs' := cbs[soc := cbs[soc].(port := p)];
    forall j | 0 <= j < soc
      ensures !Matches(cbs'[j], iface, p)
    {
      assert cbs'[j] == cbs[j];
    }
    FirstMatchIs(cbs', iface, p, soc);
  }

  /** The interface udp_api_sendto sends through: the block's, or the one ip_netif_by_peer finds for peer (null: none). */
  function SourceIface(cb: Cb, rs: seq<Ip.Route>, peer: uint32): Net.Netif?
  {
    if cb.iface != null then cb.iface else Ip.ByPeer(rs, peer)
  }

  // ---------------------------------------------------------------------
  // udp_tx

  /**
   * udp_tx: the datagram from sport to port at peer, built with iface's
   * address as its source, goes out through ip_tx with protocol UDP on
   * iface, whose contract (Ip.IpLayer.Tx) gives the result, what reaches
   * the link layer and when ip_tx traps. The data is copied unchecked into
   * packet[65536] behind the header: more than 65536 - 8 bytes overrun
   * it, a fault before anything is sent.
   */
  method Tx(ip: Ip.IpLayer, iface: Net.Netif, sport: uint16, buf: seq<byte>, len: uint32, peer: uint32, port: uint16,
            refused: set<nat>) returns (r: int, trap: Ip.Trap)
    requires len as int <= |buf|
    requires ip.Valid()
    modifies ip
    ensures ip.protocols == old(ip.protocols)
    ensures UDP_HDR_SIZE + len as int > UDP_BUFSIZ ==>
      trap == Ip.Fault && ip.sent == old(ip.sent) && ip.nextId == old(ip.nextId)
    ensures UDP_HDR_SIZE + len as int <= UDP_BUFSIZ && Ip.PlanOf(ip.routes[..], iface, iface.unicast, peer).NoRoute? ==>
      r == -1 && trap == Ip.NoTrap && ip.sent == old(ip.sent) && ip.nextId == old(ip.nextId)
    ensures
      var p := Ip.PlanOf(ip.routes[..], iface, iface.unicast, peer);
      var s := Segment(sport, port, buf[..len], iface.unicast, peer);
      UDP_HDR_SIZE + len as int <= UDP_BUFSIZ && p.Plan? ==>
        ip.nextId == (old(ip.nextId) + 1) % U16 && trap == Ip.TxOutcome(p.out, |s|, refused)
        && (trap != Ip.NoTrap ==> ip.sent == old(ip.sent))
        && var j := Ip.Send(p.out, Ip.IP_PROTOCOL_UDP, s, |s|, Ip.Room(p.out),
                               if p.src.Some? then p.src.value else p.out.unicast, peer, old(ip.nextId), p.nexthop);
              (Ip.TxTrap(p.out, j.len) == Ip.Hang && refused != {} ==>
                r == -1 && exists n: nat :: Ip.FirstRefused(refused, n) && ip.sent == old(ip.sent) + Ip.EmptyRounds(j, n + 1))
              && (Ip.TxTrap(p.out, j.len) == Ip.NoTrap ==>
                ip.sent == old(ip.sent) + Ip.Packets(j, Ip.SentChunks(j.len, j.room, refused, 0, 0))
                && r == (if Ip.FailsFrom(j.len, j.room, refused, 0, 0) then -1 else Net.ToInt32(|s|)))
  {
    if UDP_HDR_SIZE + len as int > UDP_BUFSIZ {
      return -1, Ip.Fault;
    }
    var s := Segment(sport, port, buf[..len], iface.unicast, peer);
    r, trap := ip.Tx(iface, Ip.IP_PROTOCOL_UDP, s, |s|, peer, refused);
  }

  // ---------------------------------------------------------------------
  // The control-block table

  class UdpLayer {
    const table: array<Cb>

    /** The table has its 16 blocks, and a block not in use is the zeroed one. */
    predicate Valid()
      reads this, table
    {
      table.Length == UDP_CB_TABLE_SIZE && forall k :: 0 <= k < table.Length && !table[k].used ==> table[k] == Free()
    }

    /** The zeroed static table. */
    constructor ()
      ensures Valid() && fresh(table)
      ensures forall k :: 0 <= k < UDP_CB_TABLE_SIZE ==> table[k] == Free()
    {
      table := new Cb[UDP_CB_TABLE_SIZE](_ => Free());
    }

    /** The scan of udp_rx: the first block that matches a datagram to dport on iface, 16 for none. */
    method Match(iface: Net.Netif, dport: uint16) returns (k: nat)
      requires Valid()
      ensures k == FirstMatch(table[..], iface, dport)
    {
      k := 0;
      while k < UDP_CB_TABLE_SIZE
        invariant k <= UDP_CB_TABLE_SIZE && forall j :: 0 <= j < k ==> !Matches(table[j], iface, dport)
      {
        if table[k].used && (table[k].iface == null || table[k].iface == iface) && table[k].port == dport {
          FirstMatchIs(table[..], iface, dport, k);
          return k;
        }
        k := k + 1;
      }
      assert FirstMatch(table[..], iface, dport) == UDP_CB_TABLE_SIZE;
    }

    /**
     * udp_rx on len bytes of buf from src to dst that arrived on iface; a
     * datagram whose copy would overrun its page is reported as fault,
     * and the model stops there.
     */
    method Rx(buf: seq<byte>, len: uint32, src: uint32, dst: uint32, iface: Net.Netif, allocOk: bool)
      returns (fault: bool)
      requires Valid() && len as int <= |buf|
      modifies table
      ensures Valid()
      ensures fault == RxOverruns(old(table[..]), buf, len, src, dst, iface, allocOk)
      ensures fault ==> table[..] == old(table[..])
      ensures !fault ==> table[..] == RxTable(old(table[..]), buf, len, src, dst, iface, allocOk)
    {
      fault := false;
      if len < UDP_HDR_SIZE as uint32 {
        return;
      }
      if Checksum.Cksum16(buf[..len], Pseudo(src, dst, len % U16)) != 0 {
        return;
      }
      var got := Incoming(GetBe16(buf, 2), Datagram(src, GetBe16(buf, 0), buf[UDP_HDR_SIZE..len]));
      assert RxCheck(buf, len, src, dst) == Some(got);
      var k := Match(iface, got.dport);
      if k == UDP_CB_TABLE_SIZE || !allocOk {
        return;
      }
      if QUEUE_HDR_SIZE + |got.datagram.data| > PGSIZE {
        return true;
      }
      table[k] := table[k].(queue := table[k].queue + [got.datagram]);
    }

    /** udp_api_open: the first unused block is marked used and its index returned; -1 when all 16 are in use. */
    method Open() returns (r: int)
      requires Valid()
      modifies table
      ensures Valid()
      ensures r == (if FirstUnused(old(table[..])) < UDP_CB_TABLE_SIZE then FirstUnused(old(table[..])) else -1)
      ensures table[..] == Opened(old(table[..]))
    {
      var k := 0;
      while k < UDP_CB_TABLE_SIZE
        invariant k <= UDP_CB_TABLE_SIZE && forall j :: 0 <= j < k ==> table[j].used
      {
        if !table[k].used {
          FirstUnusedIs(table[..], k);
          table[k] := table[k].(used := true);
          return k;
        }
        k := k + 1;
      }
      FirstUnusedIs(table[..], UDP_CB_TABLE_SIZE);
      r := -1;
    }

    /**
     * udp_api_close: -1 for a handle out of range or a block not in use;
     * otherwise the block is cleared, its queue emptied entry by entry, 0.
     */
    method Close(soc: int) returns (r: int)
      requires Valid()
      modifies table
      ensures Valid()
      ensures r == (if 0 <= soc < UDP_CB_TABLE_SIZE && old(table[soc].used) then 0 else -1)
      ensures table[..] == if r == 0 then old(table[..])[soc := Free()] else old(table[..])
    {
      if soc < 0 || soc >= UDP_CB_TABLE_SIZE {
        return -1;
      }
      if !table[soc].used {
        return -1;
      }
      table[soc] := table[soc].(used := false, iface := null, port := 0);
      while table[soc].queue != []
        invariant table[soc].(queue := []) == Free()
        invariant forall j :: 0 <= j < UDP_CB_TABLE_SIZE && j != soc ==> table[j] == old(table[j])
        decreases |table[soc].queue|
      {
        table[soc] := table[soc].(queue := table[soc].queue[1..]);
      }
      r := 0;
    }

    /**
     * udp_api_bind_iface (and the end of udp_api_bind): -1 for a handle out
     * of range, a block not in use or a conflict; otherwise only the block's
     * interface and port change, 0.
     */
    method BindIface(soc: int, iface: Net.Netif?, port: uint16) returns (r: int)
      requires Valid()
      modifies table
      ensures Valid()
      ensures r == 0 <==>
        0 <= soc < UDP_CB_TABLE_SIZE && old(table[soc].used) && !Conflicts(old(table[..]), soc, iface, port)
      ensures r != 0 ==> r == -1 && table[..] == old(table[..])
      ensures r == 0 ==> table[..] == Bound(old(table[..]), soc, iface, port)
    {
      if soc < 0 || soc >= UDP_CB_TABLE_SIZE {
        return -1;
      }
      if !table[soc].used {
        return -1;
      }
      var k := 0;
      while k < UDP_CB_TABLE_SIZE
        invariant k <= UDP_CB_TABLE_SIZE
        invariant forall j :: 0 <= j < k ==> !(j != soc && table[j].used && table[j].port == port
                                                && (iface == null || table[j].iface == null || table[j].iface == iface))
      {
        if table[k].used && k != soc && (iface == null || table[k].iface == null || table[k].iface == iface)
           && table[k].port == port {
          assert Conflicts(table[..], soc, iface, port);
          return -1;
        }
        k := k + 1;
      }
      table[soc] := table[soc].(iface := iface, port := port);
      r := 0;
    }

    /**
     * udp_api_bind: a handle out of range, a family other than AF_INET, a
     * block not in use, or a nonzero address no interface has gives -1;
     * otherwise the address's interface (the first with it, devices and
     * their interfaces in list order; null: any, for address 0), which
     * is returned in iface, is bound as udp_api_bind_iface does.
     */
    method Bind(ip: Ip.IpLayer, reg: Net.Registry, soc: int, addr: SockAddr) returns (r: int, ghost iface: Net.Netif?)
      requires Valid()
      modifies table
      ensures Valid()
      ensures !(0 <= soc < UDP_CB_TABLE_SIZE) || addr.family != AF_INET || !old(table[soc].used) ==>
        r == -1 && table[..] == old(table[..])
      ensures addr.addr != 0 && (forall d, e :: 0 <= d < |reg.devices| && 0 <= e < |reg.devices[d].ifs| ==>
                                   !Ip.HasAddr(reg.devices[d].ifs[e], addr.addr)) ==>
        r == -1 && table[..] == old(table[..])
      ensures addr.addr == 0 ==> iface == null
      ensures addr.addr != 0 && iface != null ==>
        Ip.HasAddr(iface, addr.addr)
        && exists d, e :: 0 <= d < |reg.devices| && 0 <= e < |reg.devices[d].ifs| && iface == reg.devices[d].ifs[e]
             && (forall d', e' :: 0 <= d' < d && 0 <= e' < |reg.devices[d'].ifs| ==> !Ip.HasAddr(reg.devices[d'].ifs[e'], addr.addr))
             && (forall e' :: 0 <= e' < e ==> !Ip.HasAddr(reg.devices[d].ifs[e'], addr.addr))
      ensures r == 0 <==>
        0 <= soc < UDP_CB_TABLE_SIZE && addr.family == AF_INET && old(table[soc].used)
        && (addr.addr == 0 || iface != null) && !Conflicts(old(table[..]), soc, iface, addr.port)
      ensures r != 0 ==> r == -1 && table[..] == old(table[..])
      ensures r == 0 ==> table[..] == Bound(old(table[..]), soc, iface, addr.port)
    {
      iface := null;
      if soc < 0 || soc >= UDP_CB_TABLE_SIZE {
        return -1, iface;
      }
      if addr.family != AF_INET {
        return -1, iface;
      }
      if !table[soc].used {
        return -1, iface;
      }
      var i: Net.Netif? := null;
      if addr.addr != 0 {
        i := ip.NetifByAddr(reg, addr.addr);
        iface := i;
        if i == null {
          return -1, iface;
        }
      }
      r := BindIface(soc, i, addr.port);
    }

    /**
     * udp_api_recvfrom into the first size bytes of buf, with the sender
     * wanted (wantAddr) in a sockaddr of addrlen bytes: -1 for a handle out
     * of range, a sockaddr too short or a block not in use; blocked (the
     * source sleeps) when the queue is empty; otherwise the oldest datagram
     * is removed, min(size, its length) bytes of it are copied to buf and
     * returned, with its sender in peer. addrlen' is what the source leaves
     * in *addrlen.
     */
    method RecvFrom(soc: int, buf: array<byte>, size: uint32, wantAddr: bool, addrlen: int)
      returns (r: int, blocked: bool, peer: Option<SockAddr>, addrlen': int)
      requires Valid() && size as int <= buf.Length
      modifies table, buf
      ensures Valid()
      ensures !(0 <= soc < UDP_CB_TABLE_SIZE) || (wantAddr && TooShort(addrlen)) ==>
        r == -1 && !blocked && peer.None? && addrlen' == addrlen
        && table[..] == old(table[..]) && buf[..] == old(buf[..])
      ensures 0 <= soc < UDP_CB_TABLE_SIZE && !(wantAddr && TooShort(addrlen)) ==>
        addrlen' == (if wantAddr then SOCKADDR_IN_SIZE else addrlen)
      ensures 0 <= soc < UDP_CB_TABLE_SIZE && !(wantAddr && TooShort(addrlen)) && !old(table[soc].used) ==>
        r == -1 && !blocked && peer.None? && table[..] == old(table[..]) && buf[..] == old(buf[..])
      ensures 0 <= soc < UDP_CB_TABLE_SIZE && !(wantAddr && TooShort(addrlen)) && old(table[soc].used)
              && old(table[soc].queue) == [] ==>
        blocked && peer.None? && table[..] == old(table[..]) && buf[..] == old(buf[..])
      ensures 0 <= soc < UDP_CB_TABLE_SIZE && !(wantAddr && TooShort(addrlen)) && old(table[soc].used)
              && old(table[soc].queue) != [] ==>
        var d := old(table[soc].queue[0]);
        !blocked && r == Min(size as int, |d.data|)
        && table[..] == old(table[..])[soc := old(table[soc]).(queue := old(table[soc].queue[1..]))]
        && buf[..r] == d.data[..r] && buf[r..] == old(buf[r..])
        && peer == (if wantAddr then Some(SockAddr(AF_INET, d.port, d.addr)) else None)
    {
      blocked, peer, addrlen' := false, None, addrlen;
      if soc < 0 || soc >= UDP_CB_TABLE_SIZE {
        return -1, blocked, peer, addrlen';
      }
      if wantAddr {
        if TooShort(addrlen) {
          return -1, blocked, peer, addrlen';
        }
        addrlen' := SOCKADDR_IN_SIZE;
      }
      if !table[soc].used {
        return -1, blocked, peer, addrlen';
      }
      if table[soc].queue == [] {
        return 0, true, peer, addrlen';
      }
      var d := table[soc].queue[0];
      table[soc] := table[soc].(queue := table[soc].queue[1..]);
      if wantAddr {
        peer := Some(SockAddr(AF_INET, d.port, d.addr));
      }
      r := Min(size as int, |d.data|);
      ghost var t := table[..];
      var k := 0;
      while k < r
        invariant k <= r && buf[..k] == d.data[..k] && buf[r..] == old(buf[r..]) && table[..] == t
      {
        buf[k] := d.data[k];
        k := k + 1;
      }
    }

    /** The scan of the port search for p: the first block bound to any interface or to iface that holds it, 16 for none. */
    method Holder(iface: Net.Netif, p: uint16) returns (k: nat)
      requires Valid()
      ensures k <= UDP_CB_TABLE_SIZE && (k == UDP_CB_TABLE_SIZE <==> PortFree(table[..], iface, p))
    {
      k := 0;
      while k < UDP_CB_TABLE_SIZE
        invariant k <= UDP_CB_TABLE_SIZE
        invariant forall j :: 0 <= j < k ==> !(table[j].port == p && (table[j].iface == null || table[j].iface == iface))
      {
        if table[k].port == p && (table[k].iface == null || table[k].iface == iface) {
          return k;
        }
        k := k + 1;
      }
    }

    /** The ephemeral-port loop of udp_api_sendto: the first p in 49152..65535 no block bound to any interface or to iface holds. */
    method PickPort(iface: Net.Netif) returns (r: Option<uint16>)
      requires Valid()
      ensures r == Ephemeral(table[..], iface, UDP_SOURCE_PORT_MIN)
    {
      var p: nat := UDP_SOURCE_PORT_MIN;
      while p <= UDP_SOURCE_PORT_MAX
        invariant UDP_SOURCE_PORT_MIN <= p <= U16
        invariant Ephemeral(table[..], iface, p) == Ephemeral(table[..], iface, UDP_SOURCE_PORT_MIN)
        decreases U16 - p
      {
        var k := Holder(iface, p);
        if k == UDP_CB_TABLE_SIZE {
          return Some(p);
        }
        p := p + 1;
      }
      r := None;
    }

    /**
     * The part of udp_api_sendto under the lock: the checks, the interface,
     * and on a block without a port the ephemeral port, which stays
     * assigned. out is the interface and the source port, None for -1.
     */
    method Prepare(ip: Ip.IpLayer, soc: int, addr: Option<SockAddr>, addrlen: int) returns (out: Option<(Net.Netif, uint16)>)
      requires Valid() && ip.Valid()
      modifies table
      ensures Valid()
      ensures !(0 <= soc < UDP_CB_TABLE_SIZE) || addr.None? || addr.value.family != AF_INET || TooShort(addrlen)
              || !old(table[soc].used) ==>
        out.None? && table[..] == old(table[..])
      ensures 0 <= soc < UDP_CB_TABLE_SIZE && addr.Some? && addr.value.family == AF_INET && !TooShort(addrlen)
              && old(table[soc].used) ==>
        var iface := SourceIface(old(table[soc]), ip.routes[..], addr.value.addr);
        var port := if old(table[soc].port) != 0 then Some(old(table[soc].port))
                    else if iface == null then None else Ephemeral(old(table[..]), iface, UDP_SOURCE_PORT_MIN);
        (iface == null || port.None? ==> out.None? && table[..] == old(table[..]))
        && (iface != null && port.Some? ==>
              out.Some? && out.value.0 == iface && out.value.1 == port.value && table[..] == old(table[..])[soc := old(table[soc]).(port := port.value)])
      ensures out.Some? && old(table[soc].iface) == null ==>
        exists k :: 0 <= k < Ip.IP_ROUTE_TABLE_SIZE && ip.routes[k].used && ip.routes[k].netif == out.value.0
    {
      if soc < 0 || soc >= UDP_CB_TABLE_SIZE {
        return None;
      }
      if addr.None? || addr.value.family != AF_INET || TooShort(addrlen) {
        return None;
      }
      if !table[soc].used {
        return None;
      }
      var iface := table[soc].iface;
      if iface == null {
        Ip.LookupIsBest(ip.routes[..], null, addr.value.addr);
        iface := ip.NetifByPeer(addr.value.addr);
        if iface == null {
          return None;
        }
      }
      assert iface == SourceIface(table[soc], ip.routes[..], addr.value.addr);
      if table[soc].port == 0 {
        var p := PickPort(iface);
        if p.None? {
          return None;
        }
        EphemeralIsSmallest(table[..], iface, UDP_SOURCE_PORT_MIN);
        table[soc] := table[soc].(port := p.value);
      }
      out := Some((iface, table[soc].port));
    }

    /**
     * udp_api_sendto of the first len bytes of buf to addr: -1 when a check
     * fails or no interface or port is found (Prepare); otherwise what
     * udp_tx does with the datagram from the block's port, through the
     * interface found.
     */
    method SendTo(ip: Ip.IpLayer, soc: int, buf: seq<byte>, len: uint32, addr: Option<SockAddr>, addrlen: int,
                  refused: set<nat>) returns (r: int, trap: Ip.Trap)
      requires Valid() && ip.Valid() && len as int <= |buf|
      modifies table, ip
      ensures Valid() && ip.protocols == old(ip.protocols)
      ensures !(0 <= soc < UDP_CB_TABLE_SIZE) || addr.None? || addr.value.family != AF_INET || TooShort(addrlen)
              || !old(table[soc].used) ==>
        r == -1 && trap == Ip.NoTrap && table[..] == old(table[..]) && ip.sent == old(ip.sent) && ip.nextId == old(ip.nextId)
      ensures 0 <= soc < UDP_CB_TABLE_SIZE && addr.Some? && addr.value.family == AF_INET && !TooShort(addrlen)
              && old(table[soc].used) ==>
        var iface := SourceIface(old(table[soc]), ip.routes[..], addr.value.addr);
        var port := if old(table[soc].port) != 0 then Some(old(table[soc].port))
                    else if iface == null then None else Ephemeral(old(table[..]), iface, UDP_SOURCE_PORT_MIN);
        (iface == null || port.None? ==>
           r == -1 && trap == Ip.NoTrap && table[..] == old(table[..]) && ip.sent == old(ip.sent) && ip.nextId == old(ip.nextId))
        && (iface != null && port.Some? ==>
              table[..] == old(table[..])[soc := old(table[soc]).(port := port.value)]
              && (UDP_HDR_SIZE + len as int > UDP_BUFSIZ ==>
                    trap == Ip.Fault && ip.sent == old(ip.sent) && ip.nextId == old(ip.nextId))
              && var p := Ip.PlanOf(ip.routes[..], iface, iface.unicast, addr.value.addr);
                 var s := Segment(port.value, addr.value.port, buf[..len], iface.unicast, addr.value.addr);
                 (UDP_HDR_SIZE + len as int <= UDP_BUFSIZ && p.NoRoute? ==>
                    r == -1 && trap == Ip.NoTrap && ip.sent == old(ip.sent) && ip.nextId == old(ip.nextId))
                 && (UDP_HDR_SIZE + len as int <= UDP_BUFSIZ && p.Plan? ==>
                       ip.nextId == (old(ip.nextId) + 1) % U16 && trap == Ip.TxOutcome(p.out, |s|, refused)
                       && (trap != Ip.NoTrap ==> ip.sent == old(ip.sent))
                       && var j := Ip.Send(p.out, Ip.IP_PROTOCOL_UDP, s, |s|, Ip.Room(p.out),
                                              if p.src.Some? then p.src.value else p.out.unicast, addr.value.addr,
                                              old(ip.nextId), p.nexthop);
                             (Ip.TxTrap(p.out, j.len) == Ip.Hang && refused != {} ==>
                               r == -1 && exists n: nat :: Ip.FirstRefused(refused, n) && ip.sent == old(ip.sent) + Ip.EmptyRounds(j, n + 1))
                             && (Ip.TxTrap(p.out, j.len) == Ip.NoTrap ==>
                               ip.sent == old(ip.sent) + Ip.Packets(j, Ip.SentChunks(j.len, j.room, refused, 0, 0))
                               && r == (if Ip.FailsFrom(j.len, j.room, refused, 0, 0) then -1 else Net.ToInt32(|s|)))))
    {
      var out := Prepare(ip, soc, addr, addrlen);
      if out.None? {
        return -1, Ip.NoTrap;
      }
      var iface, sport := out.value.0, out.value.1;
      r, trap := Tx(ip, iface, sport, buf, len, addr.value.addr, addr.value.port, refused);
    }
  }
}
