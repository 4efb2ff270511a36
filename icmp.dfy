/**
 * ICMP echo (kernel/icmp.c) as section "Echo or Echo Reply Message" of
 * RFC 792 describes it: an 8-byte header (type, code, checksum, and four
 * bytes that carry the identifier and sequence number of an echo) then
 * the data. icmp_rx answers an Echo with an Echo Reply carrying the same
 * code, identifier, sequence number and data, and ignores every other
 * type; icmp_tx builds the message, seals its checksum and hands it to
 * ip_tx. include/icmp.h is not part of this model: the type numbers are
 * RFC 792's (Echo 8, Echo Reply 0).
 */
module Icmp {
  import opened Common
  import Checksum
  import Net
  import Ip

  const ICMP_HDR_SIZE: nat := 8
  const ICMP_TYPE_ECHOREPLY: byte := 0
  const ICMP_TYPE_ECHO: byte := 8
  /** The stack buffer icmp_tx builds the message in (IP_PAYLOAD_SIZE_MAX bytes). */
  const ICMP_BUFSIZ: nat := 65515

  /** The header: type, code, the checksum in network order, then the four value bytes (id and seq of an echo). */
  function Header(msgType: byte, code: byte, sum: uint16, values: seq<byte>): (h: seq<byte>)
    requires |values| == 4
    ensures |h| == ICMP_HDR_SIZE
  {
    [msgType, code] + Be16(sum) + values
  }

  /** The message icmp_tx builds: the header with the checksum of the whole message taken with the field at 0, then the data. */
  function Message(msgType: byte, code: byte, values: seq<byte>, data: seq<byte>): (m: seq<byte>)
    requires |values| == 4
    ensures |m| == ICMP_HDR_SIZE + |data|
  {
    Header(msgType, code, Checksum.Cksum16(Header(msgType, code, 0, values) + data, 0), values) + data
  }

  /** What a receiver reads back from a message icmp_tx built. */
  lemma MessageFields(msgType: byte, code: byte, values: seq<byte>, data: seq<byte>)
    requires |values| == 4
    ensures var m := Message(msgType, code, values, data);
      m[0] == msgType && m[1] == code && m[4..8] == values && m[8..] == data
  {
    var m := Message(msgType, code, values, data);
    var h := Header(msgType, code, Checksum.Cksum16(Header(msgType, code, 0, values) + data, 0), values);
    assert m == h + data;
    assert m[4..8] == h[4..8];
  }

  /** Every message icmp_tx builds sums to a checksum of 0 (section 2 of RFC 1071). */
  lemma MessageVerifies(msgType: byte, code: byte, values: seq<byte>, data: seq<byte>)
    requires |values| == 4
    ensures Checksum.Cksum16(Message(msgType, code, values, data), 0) == 0
  {
    var z: seq<byte> := Header(msgType, code, 0, values) + data;
    var c := Checksum.Cksum16(z, 0);
    assert Message(msgType, code, values, data) == z[2 := c / 256][3 := c % 256];
    Checksum.CompletedChecksumVerifies(z, 2, 0);
  }

  /** The call icmp_rx makes of icmp_tx: interface, type, code, value bytes, data and destination. */
  datatype Reply = Reply(netif: Net.Netif, msgType: byte, code: byte, values: seq<byte>, data: seq<byte>, dst: uint32)

  /**
   * icmp_rx on plen bytes of packet from src arriving on netif: messages
   * shorter than the header are ignored, an Echo is answered, any other
   * type is ignored. ip_rx hands on at most the bytes it received.
   */
  function RxReply(packet: seq<byte>, plen: uint32, src: uint32, netif: Net.Netif): (r: Option<Reply>)
    requires plen as int <= |packet|
    ensures r.Some? ==> |r.value.values| == 4 && |r.value.data| == plen - ICMP_HDR_SIZE
  {
    if plen < ICMP_HDR_SIZE then None
    else if packet[0] != ICMP_TYPE_ECHO then None
    else Some(Reply(netif, ICMP_TYPE_ECHOREPLY, packet[1], packet[4..8], packet[ICMP_HDR_SIZE..plen], src))
  }

  /**
   * An Echo built by icmp_tx is answered with an Echo Reply to its
   * sender carrying the same code, identifier, sequence number and data,
   * and the reply icmp_tx builds for it passes the checksum test again.
   */
  lemma EchoIsEchoed(code: byte, values: seq<byte>, data: seq<byte>, src: uint32, netif: Net.Netif)
    requires |values| == 4 && ICMP_HDR_SIZE + |data| < U32
    ensures var m := Message(ICMP_TYPE_ECHO, code, values, data);
      RxReply(m, |m|, src, netif) == Some(Reply(netif, ICMP_TYPE_ECHOREPLY, code, values, data, src))
    ensures Checksum.Cksum16(Message(ICMP_TYPE_ECHOREPLY, code, values, data), 0) == 0
  {
    var m := Message(ICMP_TYPE_ECHO, code, values, data);
    MessageFields(ICMP_TYPE_ECHO, code, values, data);
    assert m[ICMP_HDR_SIZE..|m|] == data;
    MessageVerifies(ICMP_TYPE_ECHOREPLY, code, values, data);
  }

  /**
   * icmp_tx: the message of type, code, values and the first len bytes of
   * data goes out through ip_tx with protocol ICMP to dst, whose contract
   * (Ip.IpLayer.Tx) gives the result, what reaches the link layer and
   * when ip_tx traps. The data is copied unchecked into buf[ICMP_BUFSIZ]
   * behind the header: more than ICMP_BUFSIZ - 8 bytes overrun it, a
   * fault before anything is sent.
   */
  method Tx(ip: Ip.IpLayer, netif: Net.Netif?, msgType: byte, code: byte, values: seq<byte>, data: seq<byte>, len: uint32,
            dst: uint32, refused: set<nat>) returns (r: int, trap: Ip.Trap)
    requires |values| == 4 && len as int <= |data|
    requires ip.Valid()
    modifies ip
    ensures ip.protocols == old(ip.protocols)
    ensures ICMP_HDR_SIZE + len as int > ICMP_BUFSIZ ==>
      trap == Ip.Fault && ip.sent == old(ip.sent) && ip.nextId == old(ip.nextId)
    ensures
      var p := Ip.PlanOf(ip.routes[..], netif, if netif != null then netif.unicast else 0, dst);
      ICMP_HDR_SIZE + len as int <= ICMP_BUFSIZ && p.NoRoute? ==>
        r == -1 && trap == Ip.NoTrap && ip.sent == old(ip.sent) && ip.nextId == old(ip.nextId)
    ensures
      var p := Ip.PlanOf(ip.routes[..], netif, if netif != null then netif.unicast else 0, dst);
      var m := Message(msgType, code, values, data[..len]);
      ICMP_HDR_SIZE + len as int <= ICMP_BUFSIZ && p.Plan? ==>
        ip.nextId == (old(ip.nextId) + 1) % U16 && trap == Ip.TxOutcome(p.out, |m|, refused)
        && (trap != Ip.NoTrap ==> ip.sent == old(ip.sent))
        && var j := Ip.Send(p.out, Ip.IP_PROTOCOL_ICMP, m, |m|, Ip.Room(p.out),
                               if p.src.Some? then p.src.value else p.out.unicast, dst, old(ip.nextId), p.nexthop);
              (Ip.TxTrap(p.out, j.len) == Ip.Hang && refused != {} ==>
                r == -1 && exists n: nat :: Ip.FirstRefused(refused, n) && ip.sent == old(ip.sent) + Ip.EmptyRounds(j, n + 1))
              && (Ip.TxTrap(p.out, j.len) == Ip.NoTrap ==>
                ip.sent == old(ip.sent) + Ip.Packets(j, Ip.SentChunks(j.len, j.room, refused, 0, 0))
                && r == (if Ip.FailsFrom(j.len, j.room, refused, 0, 0) then -1 else Net.ToInt32(|m|)))
  {
    if ICMP_HDR_SIZE + len as int > ICMP_BUFSIZ {
      return -1, Ip.Fault;
    }
    var m := Message(msgType, code, values, data[..len]);
    r, trap := ip.Tx(netif, Ip.IP_PROTOCOL_ICMP, m, |m|, dst, refused);
  }

  /**
   * icmp_rx as the handler ip_rx calls: an Echo is answered through
   * icmp_tx on the interface it came in on; for anything else nothing is
   * sent. The reply carries plen - 8 bytes of data, so a plen past
   * ICMP_BUFSIZ (reachable through the wrap of RxShortTotalLengthWraps)
   * faults in icmp_tx.
   */
  method Rx(ip: Ip.IpLayer, packet: seq<byte>, plen: uint32, src: uint32, netif: Net.Netif, refused: set<nat>)
    returns (trap: Ip.Trap)
    requires plen as int <= |packet|
    requires ip.Valid()
    modifies ip
    ensures ip.protocols == old(ip.protocols)
    ensures RxReply(packet, plen, src, netif).None? ==>
      trap == Ip.NoTrap && ip.sent == old(ip.sent) && ip.nextId == old(ip.nextId)
    ensures RxReply(packet, plen, src, netif).Some? && plen as int > ICMP_BUFSIZ ==>
      trap == Ip.Fault && ip.sent == old(ip.sent) && ip.nextId == old(ip.nextId)
    ensures
      var e := RxReply(packet, plen, src, netif);
      var p := Ip.PlanOf(ip.routes[..], netif, netif.unicast, src);
      e.Some? && plen as int <= ICMP_BUFSIZ && p.NoRoute? ==>
        trap == Ip.NoTrap && ip.sent == old(ip.sent) && ip.nextId == old(ip.nextId)
    ensures
      var e := RxReply(packet, plen, src, netif);
      var p := Ip.PlanOf(ip.routes[..], netif, netif.unicast, src);
      e.Some? && plen as int <= ICMP_BUFSIZ && p.Plan? ==>
        var m := Message(ICMP_TYPE_ECHOREPLY, packet[1], packet[4..8], packet[ICMP_HDR_SIZE..plen]);
        ip.nextId == (old(ip.nextId) + 1) % U16 && trap == Ip.TxOutcome(p.out, |m|, refused)
        && (trap != Ip.NoTrap ==> ip.sent == old(ip.sent))
        && var j := Ip.Send(p.out, Ip.IP_PROTOCOL_ICMP, m, |m|, Ip.Room(p.out),
                               if p.src.Some? then p.src.value else p.out.unicast, src, old(ip.nextId), p.nexthop);
              (Ip.TxTrap(p.out, j.len) == Ip.Hang && refused != {} ==>
                exists n: nat :: Ip.FirstRefused(refused, n) && ip.sent == old(ip.sent) + Ip.EmptyRounds(j, n + 1))
              && (Ip.TxTrap(p.out, j.len) == Ip.NoTrap ==>
                ip.sent == old(ip.sent) + Ip.Packets(j, Ip.SentChunks(j.len, j.room, refused, 0, 0)))
  {
    trap := Ip.NoTrap;
    if plen < ICMP_HDR_SIZE as uint32 {
      return;
    }
    if packet[0] == ICMP_TYPE_ECHO {
      var data := packet[ICMP_HDR_SIZE..plen];
      assert data[..plen - ICMP_HDR_SIZE] == data;
      var r;
      r, trap := Tx(ip, netif, ICMP_TYPE_ECHOREPLY, packet[1], packet[4..8], data, plen - ICMP_HDR_SIZE as uint32, src, refused);
    }
  }
}
