/**
 * TCP (kernel/tcp.c): 16 control blocks, the segment format of section 3.1
 * of RFC 793 with the checksum over a pseudo-header, the state machine of
 * tcp_incoming_event, the demultiplexing and child creation of tcp_rx, and
 * the socket calls open, bind, listen, connect, accept, recv, send and
 * close.
 *
 * A control block is a value; the table is an array the operations
 * update in place. tcp_incoming_event is the function Event from a block
 * and a segment to the block afterwards, the segments it sends, and
 * whether it pushes the block onto its listener's backlog or clears it.
 * Every segment tcp_tx sends is appended to the log sent (tcp_tx ignores
 * what ip_tx returns) and, when kalloc finds its two pages (the parameter
 * allocOk), to the block's retransmission queue. Sequence numbers, the
 * window and the ports are the source's unsigned widths, with their
 * wrap-around written out; ports are the numbers as they appear on the
 * wire. The clock (time()) is a parameter. A call that would sleep
 * returns blocked instead; close and connect, which sleep after sending,
 * are modelled up to the sleep.
 *
 * Two places in tcp_incoming_event do not do what RFC 793 asks; the
 * parameter fixed selects the source as written (false) or the corrected
 * behaviour (true): a FIN in FIN-WAIT-1 leads to CLOSING, and a payload
 * larger than the free window is not copied into it.
 */
module Tcp {
  import opened Common
  import Checksum
  import Net
  import Ip
  import opened Socket

  const TCP_CB_TABLE_SIZE: nat := 16
  const TCP_SOURCE_PORT_MIN: nat := 49152
  const TCP_SOURCE_PORT_MAX: nat := 65535
  const TCP_HDR_SIZE: nat := 20
  /** sizeof(cb->window): the receive buffer of a block. */
  const WINDOW_SIZE: nat := 4096
  /** The stack buffer tcp_tx builds a segment in. */
  const SEGMENT_BUFSIZ: nat := 1500
  /** The data-offset byte tcp_tx writes: a 20-byte header, (20 >> 2) << 4. */
  const DATA_OFFSET: byte := 0x50

  const TCP_FLG_FIN: byte := 0x01
  const TCP_FLG_SYN: byte := 0x02
  const TCP_FLG_RST: byte := 0x04
  const TCP_FLG_PSH: byte := 0x08
  const TCP_FLG_ACK: byte := 0x10

  /** TCP_FLG_ISSET for each flag the state machine tests. */
  predicate IsFin(flg: byte) { flg % 2 == 1 }
  predicate IsSyn(flg: byte) { (flg / 2) % 2 == 1 }
  predicate IsRst(flg: byte) { (flg / 4) % 2 == 1 }
  predicate IsAck(flg: byte) { (flg / 16) % 2 == 1 }

  /** TCP_FLG_IS(flg, SYN): of the six flags, exactly SYN is set. */
  predicate OnlySyn(flg: byte) { flg % 64 == TCP_FLG_SYN }

  /** The TCP_CB_STATE_ values, CLOSED (0) to LAST_ACK (10). */
  datatype State = Closed | Listen | SynSent | SynRcvd | Established | FinWait1 | FinWait2 | Closing | TimeWait
                 | CloseWait | LastAck

  /** TCP_CB_STATE_RX_ISREADY: the states recv waits for data in. */
  predicate RxReady(st: State) { st == Established || st == FinWait1 || st == FinWait2 }

  /** TCP_CB_STATE_TX_ISREADY: the states send accepts data in. */
  predicate TxReady(st: State) { st == Established || st == CloseWait }

  // ---------------------------------------------------------------------
  // Segments

  /** struct tcp_hdr in network order, the urgent pointer 0. */
  function Header(sport: uint16, dport: uint16, seqNum: uint32, ackNum: uint32, flags: byte, wnd: uint16, sum: uint16)
    : (h: seq<byte>)
    ensures |h| == TCP_HDR_SIZE
  {
    Be16(sport) + Be16(dport) + Be32(seqNum) + Be32(ackNum) + [DATA_OFFSET, flags] + Be16(wnd) + Be16(sum) + Be16(0)
  }

  /** The pseudo-header tcp_tx and tcp_rx start the sum from: both halves of each address, the protocol and the 16-bit length. */
  function Pseudo(src: uint32, dst: uint32, len: uint16): nat
  {
    src / U16 + src % U16 + dst / U16 + dst % U16 + Ip.IP_PROTOCOL_TCP as nat + len
  }

  /**
   * A segment tcp_tx sends: the interface it goes out on, the source
   * address the checksum covers, the peer, the ports, the sequence and
   * acknowledgment numbers, the flags, the window advertised and the data.
   */
  datatype Out = Out(iface: Net.Netif?, src: uint32, dst: uint32, sport: uint16, dport: uint16, seqNum: uint32,
                     ackNum: uint32, flags: byte, wnd: uint16, payload: seq<byte>)

  /** The bytes tcp_tx hands to ip_tx: the header with the checksum of the whole segment and its pseudo-header, then the data. */
  function Bytes(o: Out): (s: seq<byte>)
    ensures |s| == TCP_HDR_SIZE + |o.payload|
  {
    var len := (TCP_HDR_SIZE + |o.payload|) % U16;
    var z := Header(o.sport, o.dport, o.seqNum, o.ackNum, o.flags, o.wnd, 0) + o.payload;
    Header(o.sport, o.dport, o.seqNum, o.ackNum, o.flags, o.wnd, Checksum.Cksum16(z, Pseudo(o.src, o.dst, len))) + o.payload
  }

  /** Every segment tcp_tx builds sums, with its pseudo-header, to a checksum of 0. */
  lemma BytesVerify(o: Out)
    ensures var s := Bytes(o); Checksum.Cksum16(s, Pseudo(o.src, o.dst, |s| % U16)) == 0
  {
    var len := (TCP_HDR_SIZE + |o.payload|) % U16;
    var z: seq<byte> := Header(o.sport, o.dport, o.seqNum, o.ackNum, o.flags, o.wnd, 0) + o.payload;
    var c := Checksum.Cksum16(z, Pseudo(o.src, o.dst, len));
    assert Bytes(o) == z[16 := c / 256][17 := c % 256];
    Checksum.CompletedChecksumVerifies(z, 16, Pseudo(o.src, o.dst, len));
  }

  /**
   * What tcp_incoming_event reads from a segment: the ports, the sequence
   * and acknowledgment numbers, the data-offset byte, the flags, the
   * window, plen and the data.
   */
  datatype Seg = Seg(sport: uint16, dport: uint16, seqNum: uint32, ackNum: uint32, off: byte, flags: byte, wnd: uint16,
                     plen: uint32, payload: seq<byte>)

  /**
   * The fields of the len bytes of b. The header length is (off >> 4) << 2
   * and plen = len - hlen in 32 bits, so an offset past the end of the
   * segment wraps plen around; the data is then taken as empty.
   */
  function Parse(b: seq<byte>, len: uint32): (s: Seg)
    requires TCP_HDR_SIZE <= len as int <= |b|
    ensures s.sport == GetBe16(b, 0) && s.dport == GetBe16(b, 2) && s.flags == b[13]
  {
    var hlen := (b[12] / 16) * 4;
    var plen := (len as int - hlen) % U32;
    Seg(GetBe16(b, 0), GetBe16(b, 2), GetBe32(b, 4), GetBe32(b, 8), b[12], b[13], GetBe16(b, 14), plen,
        if hlen <= len as int then b[hlen..len] else [])
  }

  /** tcp_rx's checks on len bytes of b from src to dst: shorter than a header, or a checksum that does not come to 0, is dropped. */
  function RxCheck(b: seq<byte>, len: uint32, src: uint32, dst: uint32): (r: Option<Seg>)
    requires len as int <= |b|
    ensures r.Some? ==> TCP_HDR_SIZE <= len && r.value == Parse(b, len)
  {
    if len < TCP_HDR_SIZE then None
    else if Checksum.Cksum16(b[..len], Pseudo(src, dst, len % U16)) != 0 then None
    else Some(Parse(b, len))
  }

  /** Where each field of a header lies. */
  lemma HeaderFields(sport: uint16, dport: uint16, seqNum: uint32, ackNum: uint32, flags: byte, wnd: uint16, sum: uint16,
                     s: seq<byte>)
    requires |s| >= TCP_HDR_SIZE && s[..TCP_HDR_SIZE] == Header(sport, dport, seqNum, ackNum, flags, wnd, sum)
    ensures GetBe16(s, 0) == sport && GetBe16(s, 2) == dport && GetBe32(s, 4) == seqNum && GetBe32(s, 8) == ackNum
    ensures s[12] == DATA_OFFSET && s[13] == flags && GetBe16(s, 14) == wnd
  {
    var h := Header(sport, dport, seqNum, ackNum, flags, wnd, sum);
    assert s[0..2] == h[0..2] == Be16(sport) && s[2..4] == h[2..4] == Be16(dport);
    assert s[4..8] == h[4..8] == Be32(seqNum) && s[8..12] == h[8..12] == Be32(ackNum);
    assert s[14..16] == h[14..16] == Be16(wnd);
    assert s[12] == h[12] && s[13] == h[13];
  }

  /** A segment tcp_tx sent from src to dst passes tcp_rx's checks there, which read back every field and the data. */
  lemma TxThenRx(o: Out)
    requires TCP_HDR_SIZE + |o.payload| < U32
    ensures var s := Bytes(o);
      RxCheck(s, |s|, o.src, o.dst)
        == Some(Seg(o.sport, o.dport, o.seqNum, o.ackNum, DATA_OFFSET, o.flags, o.wnd, |o.payload|, o.payload))
  {
    var s := Bytes(o);
    BytesVerify(o);
    assert s[..|s|] == s;
    BytesParse(o);
  }

  /** The fields Parse reads from a segment tcp_tx built. */
  lemma BytesParse(o: Out)
    requires TCP_HDR_SIZE + |o.payload| < U32
    ensures var s := Bytes(o);
      Parse(s, |s|) == Seg(o.sport, o.dport, o.seqNum, o.ackNum, DATA_OFFSET, o.flags, o.wnd, |o.payload|, o.payload)
  {
    var s := Bytes(o);
    var len := (TCP_HDR_SIZE + |o.payload|) % U16;
    var z := Header(o.sport, o.dport, o.seqNum, o.ackNum, o.flags, o.wnd, 0) + o.payload;
    var sum := Checksum.Cksum16(z, Pseudo(o.src, o.dst, len));
    assert s[..TCP_HDR_SIZE] == Header(o.sport, o.dport, o.seqNum, o.ackNum, o.flags, o.wnd, sum);
    HeaderFields(o.sport, o.dport, o.seqNum, o.ackNum, o.flags, o.wnd, sum, s);
    assert (s[12] / 16) * 4 == TCP_HDR_SIZE;
    assert s[TCP_HDR_SIZE..|s|] == o.payload;
    ParseStandard(s, |s|);
  }

  /** The fields of a segment whose header is the standard 20 bytes long. */
  lemma ParseStandard(b: seq<byte>, len: uint32)
    requires TCP_HDR_SIZE <= len as int <= |b| && (b[12] / 16) * 4 == TCP_HDR_SIZE
    ensures Parse(b, len)
      == Seg(GetBe16(b, 0), GetBe16(b, 2), GetBe32(b, 4), GetBe32(b, 8), b[12], b[13], GetBe16(b, 14), len - TCP_HDR_SIZE,
             b[TCP_HDR_SIZE..len])
  {
  }

  // ---------------------------------------------------------------------
  // Control blocks

  /**
   * struct tcp_cb: in use, state, interface (null: any), port, peer,
   * snd.nxt, snd.una, iss, rcv.nxt, rcv.wnd, irs, the retransmission
   * queue (the segments sent, oldest first), the receive window,
   * the listener it was created for and the backlog of completed
   * connections (blocks by index).
   */
  datatype Cb = Cb(used: bool, state: State, iface: Net.Netif?, port: uint16, peerAddr: uint32, peerPort: uint16,
                   sndNxt: uint32, sndUna: uint32, iss: uint32, rcvNxt: uint32, rcvWnd: uint16, irs: uint32,
                   txq: seq<Out>, window: seq<byte>, parent: Option<nat>, backlog: seq<nat>)

  /** The zeroed block of the static table, and what tcp_cb_clear leaves. */
  function Zero(): Cb
  {
    Cb(false, Closed, null, 0, 0, 0, 0, 0, 0, 0, 0, 0, [], Zeros(WINDOW_SIZE), None, [])
  }

  /** The shape every block keeps: a full-size window, and the listener and the backlog name blocks of the table. */
  predicate WellFormed(c: Cb)
  {
    |c.window| == WINDOW_SIZE && (c.parent.Some? ==> c.parent.value < TCP_CB_TABLE_SIZE)
    && forall i :: 0 <= i < |c.backlog| ==> c.backlog[i] < TCP_CB_TABLE_SIZE
  }

  /** The receive window holds what it advertises: rcv.wnd free bytes of the 4096. */
  predicate WindowSound(c: Cb)
  {
    |c.window| == WINDOW_SIZE && c.rcvWnd <= WINDOW_SIZE
  }

  /** The bytes received and not yet read: the front 4096 - rcv.wnd bytes of the window. */
  function Buffered(c: Cb): (b: seq<byte>)
    requires WindowSound(c)
    ensures |b| == WINDOW_SIZE - c.rcvWnd
  {
    c.window[..WINDOW_SIZE - c.rcvWnd]
  }

  /** A segment for tcp_tx(c, seq, ack, flags, payload), whose header takes the ports, the peer and rcv.wnd from c. */
  function Emit(c: Cb, self: uint32, seqNum: uint32, ackNum: uint32, flags: byte, payload: seq<byte>): (o: Out)
    ensures o.iface == c.iface && o.src == self && o.dst == c.peerAddr && o.sport == c.port && o.dport == c.peerPort
    ensures o.seqNum == seqNum && o.ackNum == ackNum && o.flags == flags && o.wnd == c.rcvWnd && o.payload == payload
  {
    Out(c.iface, self, c.peerAddr, c.port, c.peerPort, seqNum, ackNum, flags, c.rcvWnd, payload)
  }

  /**
   * tcp_txq_add: the segment (whose bytes, Bytes(o), tcp_txq_add copies)
   * goes to the back of the retransmission queue when both kallocs
   * succeed.
   */
  function Queued(c: Cb, o: Out, allocOk: bool): (c': Cb)
    ensures c'.txq == (if allocOk then c.txq + [o] else c.txq)
    ensures c'.(txq := c.txq) == c
  {
    if allocOk then c.(txq := c.txq + [o]) else c
  }

  // ---------------------------------------------------------------------
  // tcp_incoming_event

  /**
   * What an event does: the block afterwards, the segments sent in order,
   * whether the block goes onto its listener's backlog, and whether it is
   * cleared (tcp_cb_clear, after which nothing else of cb counts).
   */
  datatype Reaction = Reaction(cb: Cb, out: seq<Out>, push: bool, clear: bool)

  /** The event ends with c, sending nothing. */
  function Quiet(c: Cb): (r: Reaction)
    ensures r.cb == c && r.out == [] && !r.push && !r.clear
  {
    Reaction(c, [], false, false)
  }

  /** tcp_tx of a segment without data, then the event ends. */
  function Reply(c: Cb, self: uint32, seqNum: uint32, ackNum: uint32, flags: byte, allocOk: bool): (r: Reaction)
    ensures r.out == [Emit(c, self, seqNum, ackNum, flags, [])] && !r.push && !r.clear
    ensures r.cb == Queued(c, Emit(c, self, seqNum, ackNum, flags, []), allocOk)
  {
    var o := Emit(c, self, seqNum, ackNum, flags, []);
    Reaction(Queued(c, o, allocOk), [o], false, false)
  }

  /** r1's segments, then what the rest of the event does from r1's block. */
  function Then(r1: Reaction, r2: Reaction): (r: Reaction)
    ensures r.cb == r2.cb && r.out == r1.out + r2.out && r.push == (r1.push || r2.push) && r.clear == r2.clear
  {
    Reaction(r2.cb, r1.out + r2.out, r1.push || r2.push, r2.clear)
  }

  /** The acknowledgment of the reset a closed block sends for a segment without ACK: its sequence number plus its length (SYN and FIN count one). */
  function ResetAck(s: Seg): uint32
  {
    var a1 := if IsSyn(s.flags) then (s.seqNum + 1) % U32 else s.seqNum;
    var a2 := if s.plen != 0 then (a1 + s.plen) % U32 else a1;
    if IsFin(s.flags) then (a2 + 1) % U32 else a2
  }

  /** CLOSED: a reset is ignored; anything else is answered with a reset. */
  function ClosedEvent(c: Cb, s: Seg, self: uint32, allocOk: bool): Reaction
  {
    if IsRst(s.flags) then Quiet(c)
    else if IsAck(s.flags) then Reply(c, self, s.ackNum, 0, TCP_FLG_RST, allocOk)
    else Reply(c, self, 0, ResetAck(s), TCP_FLG_RST, allocOk)
  }

  /**
   * LISTEN: a reset is ignored, an ACK answered with a reset; a SYN
   * records the peer's sequence number, takes the clock as iss, answers
   * SYN|ACK and moves to SYN-RECEIVED; anything else is ignored.
   */
  function ListenEvent(c: Cb, s: Seg, self: uint32, now: uint32, allocOk: bool): Reaction
  {
    if IsRst(s.flags) then Quiet(c)
    else if IsAck(s.flags) then Reply(c, self, s.ackNum, 0, TCP_FLG_RST, allocOk)
    else if IsSyn(s.flags) then
      var c1 := c.(rcvNxt := (s.seqNum + 1) % U32, irs := s.seqNum, iss := now);
      var r := Reply(c1, self, now, c1.rcvNxt, TCP_FLG_SYN + TCP_FLG_ACK, allocOk);
      r.(cb := r.cb.(sndNxt := (now + 1) % U32, sndUna := now, state := SynRcvd))
    else Quiet(c)
  }

  /**
   * SYN-SENT: an ACK outside iss < ack <= snd.nxt is answered with a
   * reset (unless it is one); a reset is ignored; a SYN records the peer's
   * sequence number and, with an acceptable ACK, establishes the
   * connection and acknowledges, or without one acknowledges from iss.
   */
  function SynSentEvent(c: Cb, s: Seg, self: uint32, allocOk: bool): Reaction
  {
    if IsAck(s.flags) && (s.ackNum <= c.iss || s.ackNum > c.sndNxt) then
      if IsRst(s.flags) then Quiet(c) else Reply(c, self, s.ackNum, 0, TCP_FLG_RST, allocOk)
    else if IsRst(s.flags) then Quiet(c)
    else if IsSyn(s.flags) then
      var c1 := c.(rcvNxt := (s.seqNum + 1) % U32, irs := s.seqNum);
      if IsAck(s.flags) then
        var c2 := c1.(sndUna := s.ackNum);
        if c2.sndUna > c2.iss then
          var c3 := c2.(state := Established);
          Reply(c3, self, c3.sndNxt, c3.rcvNxt, TCP_FLG_ACK, allocOk)
        else Quiet(c2)
      else Reply(c1, self, c1.iss, c1.rcvNxt, TCP_FLG_ACK, allocOk)
    else Quiet(c)
  }

  /** The state a FIN leads to, as written and as RFC 793 asks (FIN-WAIT-1 to CLOSING). */
  function FinState(st: State, fixed: bool): State
  {
    match st
    case SynRcvd => CloseWait
    case Established => CloseWait
    case FinWait1 => if fixed then Closing else FinWait2
    case FinWait2 => TimeWait
    case _ => st
  }

  /** The FIN test: a FIN takes one more sequence number, is acknowledged, and moves the state on. */
  function FinEvent(c: Cb, s: Seg, self: uint32, allocOk: bool, fixed: bool): Reaction
  {
    if IsFin(s.flags) then
      var c1 := c.(rcvNxt := (c.rcvNxt + 1) % U32);
      var r := Reply(c1, self, c1.sndNxt, c1.rcvNxt, TCP_FLG_ACK, allocOk);
      r.(cb := r.cb.(state := FinState(c1.state, fixed)))
    else Quiet(c)
  }

  /** window with the bytes of p written from offset o on; what falls outside the 4096 bytes is lost. */
  function Stored(window: seq<byte>, o: int, p: seq<byte>): (w: seq<byte>)
    ensures |w| == |window|
  {
    seq(|window|, i requires 0 <= i < |window| => if o <= i < o + |p| then p[i - o] else window[i])
  }

  /**
   * The data test: in ESTABLISHED and FIN-WAIT-1/2, data is copied behind
   * what the window already holds, rcv.nxt moves past it, rcv.wnd shrinks
   * by plen (in 16 bits) and the data is acknowledged. As written nothing
   * checks that plen fits; corrected, data that does not fit is not
   * taken, only acknowledged, and the event ends.
   */
  function DataEvent(c: Cb, s: Seg, self: uint32, allocOk: bool, fixed: bool): Reaction
  {
    if s.plen != 0 && RxReady(c.state) then
      if fixed && s.plen > c.rcvWnd then Reply(c, self, c.sndNxt, c.rcvNxt, TCP_FLG_ACK, allocOk)
      else
        var c1 := c.(window := Stored(c.window, WINDOW_SIZE - c.rcvWnd, s.payload), rcvNxt := (s.seqNum + s.plen) % U32,
                     rcvWnd := (c.rcvWnd - s.plen) % U16);
        var r1 := Reply(c1, self, c1.sndNxt, c1.rcvNxt, TCP_FLG_ACK, allocOk);
        Then(r1, FinEvent(r1.cb, s, self, allocOk, fixed))
    else FinEvent(c, s, self, allocOk, fixed)
  }

  /**
   * The ACK test of the synchronised states: an ACK of new data moves
   * snd.una, one beyond snd.nxt is answered with an ACK and ends the
   * event; FIN-WAIT-1 whose FIN is acknowledged moves to FIN-WAIT-2, and
   * CLOSING whose FIN is acknowledged moves to TIME-WAIT and ends.
   */
  function AckEvent(c: Cb, s: Seg, self: uint32, allocOk: bool, fixed: bool): Reaction
  {
    if s.ackNum > c.sndNxt then Reply(c, self, c.sndNxt, c.rcvNxt, TCP_FLG_ACK, allocOk)
    else
      var c1 := if c.sndUna < s.ackNum then c.(sndUna := s.ackNum) else c;
      if c1.state == FinWait1 then DataEvent(if s.ackNum == c1.sndNxt then c1.(state := FinWait2) else c1, s, self, allocOk, fixed)
      else if c1.state == Closing then Quiet(if s.ackNum == c1.sndNxt then c1.(state := TimeWait) else c1)
      else DataEvent(c1, s, self, allocOk, fixed)
  }

  /**
   * The synchronised states: a segment out of order, with RST or SYN, or
   * without ACK is dropped. SYN-RECEIVED with an acceptable ACK is
   * established and goes onto the listener's backlog, then carries on as
   * ESTABLISHED; with another ACK it answers a reset and carries on with
   * the data and FIN tests. LAST-ACK clears the block.
   */
  function SyncEvent(c: Cb, s: Seg, self: uint32, allocOk: bool, fixed: bool): Reaction
  {
    if s.seqNum != c.rcvNxt || IsRst(s.flags) || IsSyn(s.flags) || !IsAck(s.flags) then Quiet(c)
    else match c.state
      case SynRcvd =>
        if c.sndUna <= s.ackNum <= c.sndNxt then AckEvent(c.(state := Established), s, self, allocOk, fixed).(push := true)
        else
          var r1 := Reply(c, self, s.ackNum, 0, TCP_FLG_RST, allocOk);
          Then(r1, DataEvent(r1.cb, s, self, allocOk, fixed))
      case Established | FinWait1 | FinWait2 | CloseWait | Closing => AckEvent(c, s, self, allocOk, fixed)
      case LastAck => Reaction(c, [], false, true)
      case _ => DataEvent(c, s, self, allocOk, fixed)
  }

  /**
   * tcp_incoming_event on block c for segment s: self is the source
   * address tcp_tx reads from c's interface, now the clock at the event.
   */
  function Event(c: Cb, s: Seg, self: uint32, now: uint32, allocOk: bool, fixed: bool): Reaction
  {
    match c.state
    case Closed => ClosedEvent(c, s, self, allocOk)
    case Listen => ListenEvent(c, s, self, now, allocOk)
    case SynSent => SynSentEvent(c, s, self, allocOk)
    case _ => SyncEvent(c, s, self, allocOk, fixed)
  }

  // ---------------------------------------------------------------------
  // Properties of the state machine

  /** A reset is never answered and changes nothing, in every state. */
  lemma ResetIsIgnored(c: Cb, s: Seg, self: uint32, now: uint32, allocOk: bool, fixed: bool)
    requires IsRst(s.flags)
    ensures Event(c, s, self, now, allocOk, fixed) == Quiet(c)
  {
  }

  /** Adding in 32 bits step by step is adding once. */
  lemma WrapAdd(a: int, b: int)
    requires a >= 0 && b >= 0
    ensures (a % U32 + b) % U32 == (a + b) % U32
  {
    var q := a / U32;
    assert a == q * U32 + a % U32;
    assert a + b == (a % U32 + b) + q * U32;
  }

  /** The reset's acknowledgment covers the whole segment: its sequence number plus SYN, the data and FIN. */
  lemma ResetAckCovers(s: Seg)
    ensures ResetAck(s) == (s.seqNum + (if IsSyn(s.flags) then 1 else 0) + s.plen + (if IsFin(s.flags) then 1 else 0)) % U32
  {
    var x := if IsSyn(s.flags) then 1 else 0;
    var a1 := if IsSyn(s.flags) then (s.seqNum + 1) % U32 else s.seqNum;
    assert a1 == (s.seqNum + x) % U32;
    WrapAdd(s.seqNum + x, s.plen);
    var a2 := if s.plen != 0 then (a1 + s.plen) % U32 else a1;
    assert a2 == (s.seqNum + x + s.plen) % U32;
    WrapAdd(s.seqNum + x + s.plen, 1);
  }

  /**
   * A closed block answers every segment but a reset with a reset: one
   * whose sequence number is the segment's acknowledgment if it has ACK,
   * and otherwise 0 with an acknowledgment of the whole segment. Its
   * state and numbers stay as they were.
   */
  lemma ClosedAnswersReset(c: Cb, s: Seg, self: uint32, now: uint32, allocOk: bool, fixed: bool)
    requires c.state == Closed && !IsRst(s.flags)
    ensures var r := Event(c, s, self, now, allocOk, fixed);
      |r.out| == 1 && r.out[0].flags == TCP_FLG_RST && r.cb.(txq := c.txq) == c && !r.push && !r.clear
      && (IsAck(s.flags) ==> r.out[0].seqNum == s.ackNum && r.out[0].ackNum == 0)
      && (!IsAck(s.flags) ==>
            r.out[0].seqNum == 0
            && r.out[0].ackNum == (s.seqNum + (if IsSyn(s.flags) then 1 else 0) + s.plen + (if IsFin(s.flags) then 1 else 0)) % U32)
  {
    ResetAckCovers(s);
  }

  /**
   * Passive open, first step: a listening block given a SYN (without
   * RST or ACK) records the peer's initial sequence number, takes the
   * clock as its own, answers SYN|ACK acknowledging the SYN, and moves to
   * SYN-RECEIVED with snd.una = iss and snd.nxt = iss + 1. A listening
   * block given an ACK answers a reset and stays listening.
   */
  lemma ListenAnswers(c: Cb, s: Seg, self: uint32, now: uint32, allocOk: bool, fixed: bool)
    requires c.state == Listen && !IsRst(s.flags)
    ensures var r := Event(c, s, self, now, allocOk, fixed);
      !r.push && !r.clear
      && (IsAck(s.flags) ==> r.out == [Emit(c, self, s.ackNum, 0, TCP_FLG_RST, [])] && r.cb.state == Listen)
      && (!IsAck(s.flags) && IsSyn(s.flags) ==>
            r.cb.state == SynRcvd && r.cb.irs == s.seqNum && r.cb.rcvNxt == (s.seqNum + 1) % U32
            && r.cb.iss == now && r.cb.sndUna == now && r.cb.sndNxt == (now + 1) % U32
            && |r.out| == 1 && r.out[0].flags == TCP_FLG_SYN + TCP_FLG_ACK
            && r.out[0].seqNum == now && r.out[0].ackNum == (s.seqNum + 1) % U32)
      && (!IsAck(s.flags) && !IsSyn(s.flags) ==> r == Quiet(c))
  {
  }

  /** A block past SYN-SENT drops a segment out of order, one with RST or SYN, and one without ACK, unchanged and unanswered. */
  lemma UnacceptableIsDropped(c: Cb, s: Seg, self: uint32, now: uint32, allocOk: bool, fixed: bool)
    requires c.state != Closed && c.state != Listen && c.state != SynSent
    requires s.seqNum != c.rcvNxt || IsRst(s.flags) || IsSyn(s.flags) || !IsAck(s.flags)
    ensures Event(c, s, self, now, allocOk, fixed) == Quiet(c)
  {
  }

  /** The segment a synchronised block accepts: in order, with ACK, without RST and SYN. */
  predicate Acceptable(c: Cb, s: Seg)
  {
    s.seqNum == c.rcvNxt && IsAck(s.flags) && !IsRst(s.flags) && !IsSyn(s.flags)
  }

  /**
   * The three-way handshake from a listening block: after a bare SYN and
   * then the ACK of the answer (next in sequence, acknowledging iss + 1,
   * without data or FIN) the block is ESTABLISHED, on the backlog, with
   * every sequence number acknowledged on both sides.
   */
  lemma PassiveOpen(c: Cb, s1: Seg, s2: Seg, self: uint32, now: uint32, allocOk: bool, fixed: bool)
    requires c.state == Listen && OnlySyn(s1.flags) && now + 1 < U32
    requires s2.flags == TCP_FLG_ACK && s2.seqNum == (s1.seqNum + 1) % U32 && s2.ackNum == now + 1 && s2.plen == 0
    ensures var r1 := Event(c, s1, self, now, allocOk, fixed);
      var r2 := Event(r1.cb, s2, self, now, allocOk, fixed);
      r1.cb.state == SynRcvd && r2.cb.state == Established && r2.push && r2.out == []
      && r2.cb.rcvNxt == (s1.seqNum + 1) % U32 && r2.cb.sndUna == now + 1 && r2.cb.sndNxt == now + 1
  {
    assert !IsAck(s1.flags) && IsSyn(s1.flags) && !IsRst(s1.flags);
    ListenAnswers(c, s1, self, now, allocOk, fixed);
    var c1 := Event(c, s1, self, now, allocOk, fixed).cb;
    assert c1.state == SynRcvd && c1.rcvNxt == s2.seqNum && c1.sndUna == now && c1.sndNxt == now + 1;
    assert IsAck(s2.flags) && !IsRst(s2.flags) && !IsSyn(s2.flags) && !IsFin(s2.flags);
  }

  /**
   * Active open: a block in SYN-SENT that sent its SYN from iss, given a
   * SYN|ACK acknowledging iss + 1, records the peer's sequence number,
   * is ESTABLISHED and acknowledges the SYN.
   */
  lemma ActiveOpen(c: Cb, s: Seg, self: uint32, now: uint32, allocOk: bool, fixed: bool)
    requires c.state == SynSent && c.iss + 1 < U32 && c.sndNxt == c.iss + 1
    requires IsSyn(s.flags) && IsAck(s.flags) && !IsRst(s.flags) && s.ackNum == c.iss + 1
    ensures var r := Event(c, s, self, now, allocOk, fixed);
      r.cb.state == Established && r.cb.irs == s.seqNum && r.cb.rcvNxt == (s.seqNum + 1) % U32 && r.cb.sndUna == c.iss + 1
      && |r.out| == 1 && r.out[0].flags == TCP_FLG_ACK && r.out[0].seqNum == c.iss + 1
      && r.out[0].ackNum == (s.seqNum + 1) % U32
  {
  }

  /** Writing p behind the first o bytes of the window leaves those bytes and appends p after them. */
  lemma StoredAppends(window: seq<byte>, o: nat, p: seq<byte>)
    requires o + |p| <= |window|
    ensures Stored(window, o, p)[..o + |p|] == window[..o] + p
  {
    var w := Stored(window, o, p);
    assert forall i :: 0 <= i < o + |p| ==> w[..o + |p|][i] == (window[..o] + p)[i];
  }

  /**
   * In-order data that fits: an ESTABLISHED block given an acceptable
   * segment with plen bytes of data (plen at most rcv.wnd, no FIN) and
   * an ACK it has sent up to appends the data to what it holds unread,
   * advances rcv.nxt past it, shrinks rcv.wnd by plen and acknowledges it.
   */
  lemma InOrderDataIsAppended(c: Cb, s: Seg, self: uint32, now: uint32, allocOk: bool, fixed: bool)
    requires c.state == Established && WindowSound(c) && Acceptable(c, s) && s.ackNum <= c.sndNxt && !IsFin(s.flags)
    requires 0 < s.plen && s.plen as int == |s.payload| && s.plen <= c.rcvWnd
    ensures var r := Event(c, s, self, now, allocOk, fixed);
      WindowSound(r.cb) && Buffered(r.cb) == Buffered(c) + s.payload && r.cb.rcvWnd == c.rcvWnd - s.plen
      && r.cb.rcvNxt == (s.seqNum + s.plen) % U32 && r.cb.state == Established
      && |r.out| == 1 && r.out[0].flags == TCP_FLG_ACK && r.out[0].ackNum == r.cb.rcvNxt && !r.push && !r.clear
  {
    var c1 := if c.sndUna < s.ackNum then c.(sndUna := s.ackNum) else c;
    StoredAppends(c1.window, WINDOW_SIZE - c1.rcvWnd, s.payload);
  }

  /**
   * The receive window as written: an ESTABLISHED block whose window is
   * full (rcv.wnd 0) accepts one more byte, which lands outside the
   * 4096-byte buffer, and rcv.wnd wraps to 65535, advertising more room
   * than the buffer has.
   */
  lemma WindowOverrunAsWritten(c: Cb, s: Seg, self: uint32, now: uint32, allocOk: bool)
    requires c.state == Established && |c.window| == WINDOW_SIZE && c.rcvWnd == 0
    requires Acceptable(c, s) && s.ackNum <= c.sndNxt && !IsFin(s.flags) && s.plen == 1 && |s.payload| == 1
    ensures var r := Event(c, s, self, now, allocOk, false);
      !WindowSound(r.cb) && r.cb.rcvWnd == U16 - 1 && r.cb.window == c.window
  {
    var c1 := if c.sndUna < s.ackNum then c.(sndUna := s.ackNum) else c;
    assert Stored(c1.window, WINDOW_SIZE, s.payload) == c1.window;
  }

  /** The parts of a block an event that does not store data leaves to its receive window alone. */
  predicate SameWindow(c: Cb, c': Cb)
  {
    c'.window == c.window && c'.rcvWnd == c.rcvWnd
  }

  /** Corrected: what the window holds unread only grows at its end. */
  predicate Extends(c: Cb, c': Cb)
  {
    WindowSound(c) && WindowSound(c') && Buffered(c) <= Buffered(c')
  }

  /** The FIN test: at most the FIN's acknowledgment, the window alone, the state moved as FinState says. */
  lemma FinShape(c: Cb, s: Seg, self: uint32, allocOk: bool, fixed: bool)
    ensures var r := FinEvent(c, s, self, allocOk, fixed);
      SameWindow(c, r.cb) && !r.push && !r.clear && r.cb.state == (if IsFin(s.flags) then FinState(c.state, fixed) else c.state)
  {
  }

  /** The data test neither pushes nor clears, and moves the state at most as a FIN does. */
  lemma DataShape(c: Cb, s: Seg, self: uint32, allocOk: bool, fixed: bool)
    ensures var r := DataEvent(c, s, self, allocOk, fixed);
      !r.push && !r.clear && (r.cb.state == c.state || r.cb.state == FinState(c.state, fixed))
  {
    FinShape(c, s, self, allocOk, fixed);
    if s.plen != 0 && RxReady(c.state) && !(fixed && s.plen > c.rcvWnd) {
      var c1 := c.(window := Stored(c.window, WINDOW_SIZE - c.rcvWnd, s.payload), rcvNxt := (s.seqNum + s.plen) % U32,
                   rcvWnd := (c.rcvWnd - s.plen) % U16);
      var r1 := Reply(c1, self, c1.sndNxt, c1.rcvNxt, TCP_FLG_ACK, allocOk);
      FinShape(r1.cb, s, self, allocOk, fixed);
    }
  }

  /** Copying into the free part of a sound window and taking n <= rcv.wnd of it keeps what was unread at the front. */
  lemma StoreExtends(c: Cb, p: seq<byte>, n: nat)
    requires WindowSound(c) && n <= c.rcvWnd
    ensures var c1 := c.(window := Stored(c.window, WINDOW_SIZE - c.rcvWnd, p), rcvWnd := c.rcvWnd - n);
      Extends(c, c1)
  {
    var w := Stored(c.window, WINDOW_SIZE - c.rcvWnd, p);
    var k := WINDOW_SIZE - c.rcvWnd;
    assert forall i :: 0 <= i < k ==> w[i] == c.window[i];
    assert w[..k] == c.window[..k];
  }

  /** Data that fits: it is stored behind the unread bytes, and the FIN test after it leaves the window alone. */
  lemma DataTakenExtends(c: Cb, s: Seg, self: uint32, allocOk: bool)
    requires WindowSound(c) && s.plen != 0 && RxReady(c.state) && s.plen <= c.rcvWnd
    ensures Extends(c, DataEvent(c, s, self, allocOk, true).cb)
  {
    var c' := DataEvent(c, s, self, allocOk, true).cb;
    var c1 := c.(window := Stored(c.window, WINDOW_SIZE - c.rcvWnd, s.payload), rcvWnd := c.rcvWnd - s.plen);
    StoreExtends(c, s.payload, s.plen);
    DataTakenWindow(c, s, self, allocOk);
    assert c'.window == c1.window && c'.rcvWnd == c1.rcvWnd;
    assert Buffered(c') == Buffered(c1);
  }

  /** Data that fits is stored behind the unread bytes, and rcv.wnd shrinks by its length. */
  lemma DataTakenWindow(c: Cb, s: Seg, self: uint32, allocOk: bool)
    requires WindowSound(c) && s.plen != 0 && RxReady(c.state) && s.plen <= c.rcvWnd
    ensures var c' := DataEvent(c, s, self, allocOk, true).cb;
      c'.window == Stored(c.window, WINDOW_SIZE - c.rcvWnd, s.payload) && c'.rcvWnd == c.rcvWnd - s.plen
  {
    var c1 := c.(window := Stored(c.window, WINDOW_SIZE - c.rcvWnd, s.payload), rcvNxt := (s.seqNum + s.plen) % U32,
                 rcvWnd := (c.rcvWnd - s.plen) % U16);
    var r1 := Reply(c1, self, c1.sndNxt, c1.rcvNxt, TCP_FLG_ACK, allocOk);
    FinShape(r1.cb, s, self, allocOk, true);
  }

  /** Corrected data test: the window stays sound and its unread bytes are only appended to. */
  lemma DataExtends(c: Cb, s: Seg, self: uint32, allocOk: bool)
    requires WindowSound(c)
    ensures Extends(c, DataEvent(c, s, self, allocOk, true).cb)
  {
    if s.plen == 0 || !RxReady(c.state) {
      FinShape(c, s, self, allocOk, true);
      SameThenExtends(c, FinEvent(c, s, self, allocOk, true).cb, FinEvent(c, s, self, allocOk, true).cb);
    } else if s.plen <= c.rcvWnd {
      DataTakenExtends(c, s, self, allocOk);
    } else {
      var r := Reply(c, self, c.sndNxt, c.rcvNxt, TCP_FLG_ACK, allocOk);
      SameThenExtends(c, r.cb, r.cb);
    }
  }

  /** The ACK test neither pushes nor clears; from a state other than CLOSING it moves to FIN-WAIT-2 at most, or on as a FIN does. */
  lemma AckShape(c: Cb, s: Seg, self: uint32, allocOk: bool, fixed: bool)
    requires c.state != Closing
    ensures var r := AckEvent(c, s, self, allocOk, fixed);
      !r.push && !r.clear
      && (r.cb.state == c.state || r.cb.state == FinState(c.state, fixed)
          || (c.state == FinWait1 && (r.cb.state == FinWait2 || r.cb.state == FinState(FinWait2, fixed))))
  {
    var c1 := if c.sndUna < s.ackNum then c.(sndUna := s.ackNum) else c;
    DataShape(c1, s, self, allocOk, fixed);
    DataShape(c1.(state := FinWait2), s, self, allocOk, fixed);
  }

  /** A block with the same window as c extends c exactly as far as c's successors do. */
  lemma SameThenExtends(c: Cb, c1: Cb, c2: Cb)
    requires WindowSound(c) && SameWindow(c, c1) && (c2 == c1 || Extends(c1, c2))
    ensures Extends(c, c2)
  {
    assert Buffered(c) == Buffered(c1);
  }

  /** Corrected ACK test: the window stays sound and only grows. */
  lemma AckExtends(c: Cb, s: Seg, self: uint32, allocOk: bool)
    requires WindowSound(c)
    ensures Extends(c, AckEvent(c, s, self, allocOk, true).cb)
  {
    var r := AckEvent(c, s, self, allocOk, true);
    if s.ackNum > c.sndNxt {
      SameThenExtends(c, r.cb, r.cb);
    } else {
      var c1 := if c.sndUna < s.ackNum then c.(sndUna := s.ackNum) else c;
      if c1.state == FinWait1 {
        var c2 := if s.ackNum == c1.sndNxt then c1.(state := FinWait2) else c1;
        DataExtends(c2, s, self, allocOk);
        SameThenExtends(c, c2, r.cb);
      } else if c1.state == Closing {
        SameThenExtends(c, r.cb, r.cb);
      } else {
        DataExtends(c1, s, self, allocOk);
        SameThenExtends(c, c1, r.cb);
      }
    }
  }

  /**
   * SYN-RECEIVED: an acceptable segment whose ACK lies in
   * snd.una..snd.nxt establishes the connection and puts the block on its
   * listener's backlog; any other ACK is answered first with a reset and
   * the block stays half open (or, with a FIN, waits to close).
   */
  lemma SynRcvdAck(c: Cb, s: Seg, self: uint32, now: uint32, allocOk: bool, fixed: bool)
    requires c.state == SynRcvd && Acceptable(c, s)
    ensures var r := Event(c, s, self, now, allocOk, fixed);
      (c.sndUna <= s.ackNum <= c.sndNxt ==> r.push && (r.cb.state == Established || r.cb.state == CloseWait) && !r.clear)
      && (!(c.sndUna <= s.ackNum <= c.sndNxt) ==>
            !r.push && !r.clear && r.out[0] == Emit(c, self, s.ackNum, 0, TCP_FLG_RST, [])
            && (r.cb.state == SynRcvd || r.cb.state == CloseWait))
  {
    if c.sndUna <= s.ackNum <= c.sndNxt {
      AckShape(c.(state := Established), s, self, allocOk, fixed);
    } else {
      var r1 := Reply(c, self, s.ackNum, 0, TCP_FLG_RST, allocOk);
      DataShape(r1.cb, s, self, allocOk, fixed);
    }
  }

  /** SYN-RECEIVED keeps the window sound and only appends to its unread bytes. */
  lemma SynRcvdExtends(c: Cb, s: Seg, self: uint32, allocOk: bool)
    requires WindowSound(c) && c.state == SynRcvd && Acceptable(c, s)
    ensures Extends(c, SyncEvent(c, s, self, allocOk, true).cb)
  {
    var r := SyncEvent(c, s, self, allocOk, true);
    if c.sndUna <= s.ackNum <= c.sndNxt {
      AckExtends(c.(state := Established), s, self, allocOk);
      SameThenExtends(c, c.(state := Established), r.cb);
    } else {
      var r1 := Reply(c, self, s.ackNum, 0, TCP_FLG_RST, allocOk);
      DataExtends(r1.cb, s, self, allocOk);
      SameThenExtends(c, r1.cb, r.cb);
    }
  }

  /** The synchronised states keep the window sound and only append to its unread bytes. */
  lemma SyncExtends(c: Cb, s: Seg, self: uint32, allocOk: bool)
    requires WindowSound(c)
    ensures Extends(c, SyncEvent(c, s, self, allocOk, true).cb)
  {
    var r := SyncEvent(c, s, self, allocOk, true);
    if !Acceptable(c, s) || c.state == LastAck || c.state == Closed || c.state == Listen || c.state == SynSent {
      SameThenExtends(c, r.cb, r.cb);
    } else if c.state == SynRcvd {
      SynRcvdExtends(c, s, self, allocOk);
    } else if c.state == TimeWait {
      DataExtends(c, s, self, allocOk);
    } else {
      AckExtends(c, s, self, allocOk);
    }
  }

  /**
   * Corrected: no event breaks a sound window or loses or reorders its
   * unread bytes: whatever arrives is only ever appended to them.
   */
  lemma EventExtends(c: Cb, s: Seg, self: uint32, now: uint32, allocOk: bool)
    requires WindowSound(c)
    ensures Extends(c, Event(c, s, self, now, allocOk, true).cb)
  {
    var r := Event(c, s, self, now, allocOk, true);
    if c.state == Closed || c.state == Listen || c.state == SynSent {
      assert SameWindow(c, r.cb);
      SameThenExtends(c, r.cb, r.cb);
    } else {
      SyncExtends(c, s, self, allocOk);
    }
  }

  /** As written, SYN-RECEIVED never moves to CLOSING. */
  lemma SynRcvdNotClosingAsWritten(c: Cb, s: Seg, self: uint32, allocOk: bool)
    requires c.state == SynRcvd && Acceptable(c, s)
    ensures SyncEvent(c, s, self, allocOk, false).cb.state != Closing
  {
    if c.sndUna <= s.ackNum <= c.sndNxt {
      AckShape(c.(state := Established), s, self, allocOk, false);
    } else {
      var r1 := Reply(c, self, s.ackNum, 0, TCP_FLG_RST, allocOk);
      DataShape(r1.cb, s, self, allocOk, false);
    }
  }

  /** As written, no segment ever leads a block into CLOSING: the CLOSING branch of the ACK test is dead code. */
  lemma ClosingUnreachableAsWritten(c: Cb, s: Seg, self: uint32, now: uint32, allocOk: bool)
    requires c.state != Closing
    ensures Event(c, s, self, now, allocOk, false).cb.state != Closing
  {
    if c.state != Closed && c.state != Listen && c.state != SynSent && Acceptable(c, s) {
      if c.state == SynRcvd {
        SynRcvdNotClosingAsWritten(c, s, self, allocOk);
      } else if c.state == TimeWait {
        DataShape(c, s, self, allocOk, false);
      } else if c.state != LastAck {
        AckShape(c, s, self, allocOk, false);
      }
    }
  }

  /**
   * As written, a FIN that reaches a block in FIN-WAIT-1 before the ACK
   * of its own FIN is acknowledged and moves it to FIN-WAIT-2, where it
   * waits for a FIN the peer has already sent; corrected, it moves to
   * CLOSING.
   */
  lemma FinInFinWait1(c: Cb, s: Seg, self: uint32, now: uint32, allocOk: bool, fixed: bool)
    requires c.state == FinWait1 && Acceptable(c, s) && s.ackNum < c.sndNxt && IsFin(s.flags) && s.plen == 0
    ensures var r := Event(c, s, self, now, allocOk, fixed);
      r.cb.state == (if fixed then Closing else FinWait2) && r.cb.rcvNxt == (c.rcvNxt + 1) % U32
      && |r.out| == 1 && r.out[0].flags == TCP_FLG_ACK && r.out[0].ackNum == r.cb.rcvNxt
  {
  }

  /**
   * Corrected simultaneous close (section 3.5 of RFC 793): a block in
   * FIN-WAIT-1 given the peer's FIN moves to CLOSING, and the ACK of its
   * own FIN then moves it to TIME-WAIT.
   */
  lemma SimultaneousClose(c: Cb, s1: Seg, s2: Seg, self: uint32, now: uint32, allocOk: bool)
    requires c.state == FinWait1 && Acceptable(c, s1) && s1.ackNum < c.sndNxt && IsFin(s1.flags) && s1.plen == 0
    requires s2.seqNum == (c.rcvNxt + 1) % U32 && IsAck(s2.flags) && !IsRst(s2.flags) && !IsSyn(s2.flags)
    requires s2.ackNum == c.sndNxt
    ensures var r1 := Event(c, s1, self, now, allocOk, true);
      r1.cb.state == Closing && Event(r1.cb, s2, self, now, allocOk, true).cb.state == TimeWait
  {
    var r1 := Event(c, s1, self, now, allocOk, true);
    FinInFinWait1(c, s1, self, now, allocOk, true);
    assert r1.cb.sndNxt == c.sndNxt;
    ClosingAcked(r1.cb, s2, self, now, allocOk);
  }

  /** CLOSING given the ACK of everything sent moves to TIME-WAIT. */
  lemma ClosingAcked(c: Cb, s: Seg, self: uint32, now: uint32, allocOk: bool)
    requires c.state == Closing && Acceptable(c, s) && s.ackNum == c.sndNxt
    ensures Event(c, s, self, now, allocOk, true).cb.state == TimeWait
  {
  }

  /** What tcp_api_recv leaves of a block after taking its first n unread bytes: the rest moved to the front of the window. */
  function Drained(c: Cb, n: nat): (c': Cb)
    requires WindowSound(c) && n <= WINDOW_SIZE - c.rcvWnd
  {
    var total := WINDOW_SIZE - c.rcvWnd;
    c.(window := seq(WINDOW_SIZE, i requires 0 <= i < WINDOW_SIZE => if i < total - n then c.window[i + n] else c.window[i]),
       rcvWnd := c.rcvWnd + n)
  }

  /** recv takes bytes from the front of what is unread and leaves the rest in order, the window sound. */
  lemma DrainedKeepsRest(c: Cb, n: nat)
    requires WindowSound(c) && n <= WINDOW_SIZE - c.rcvWnd
    ensures WindowSound(Drained(c, n)) && Buffered(Drained(c, n)) == Buffered(c)[n..]
  {
    var d := Drained(c, n);
    assert forall i :: 0 <= i < |Buffered(d)| ==> Buffered(d)[i] == Buffered(c)[n..][i];
  }

  /** What an event leaves of a block's identity: in use, interface, port, peer, listener, backlog and the window's size. */
  predicate Keeps(c: Cb, c': Cb)
  {
    c'.used == c.used && c'.iface == c.iface && c'.port == c.port && c'.peerAddr == c.peerAddr && c'.peerPort == c.peerPort
    && c'.parent == c.parent && c'.backlog == c.backlog && |c'.window| == |c.window|
  }

  lemma DataKeeps(c: Cb, s: Seg, self: uint32, allocOk: bool, fixed: bool)
    ensures Keeps(c, DataEvent(c, s, self, allocOk, fixed).cb)
  {
    if s.plen != 0 && RxReady(c.state) && !(fixed && s.plen > c.rcvWnd) {
      var c1 := c.(window := Stored(c.window, WINDOW_SIZE - c.rcvWnd, s.payload), rcvNxt := (s.seqNum + s.plen) % U32,
                   rcvWnd := (c.rcvWnd - s.plen) % U16);
      var r1 := Reply(c1, self, c1.sndNxt, c1.rcvNxt, TCP_FLG_ACK, allocOk);
      FinShape(r1.cb, s, self, allocOk, fixed);
    } else {
      FinShape(c, s, self, allocOk, fixed);
    }
  }

  lemma AckKeeps(c: Cb, s: Seg, self: uint32, allocOk: bool, fixed: bool)
    ensures Keeps(c, AckEvent(c, s, self, allocOk, fixed).cb)
  {
    var r := AckEvent(c, s, self, allocOk, fixed);
    if s.ackNum <= c.sndNxt {
      var c1 := if c.sndUna < s.ackNum then c.(sndUna := s.ackNum) else c;
      if c1.state == FinWait1 {
        var c2 := if s.ackNum == c1.sndNxt then c1.(state := FinWait2) else c1;
        DataKeeps(c2, s, self, allocOk, fixed);
        assert Keeps(c, c2);
      } else if c1.state != Closing {
        DataKeeps(c1, s, self, allocOk, fixed);
        assert Keeps(c, c1);
      }
    }
  }

  lemma ClosedKeeps(c: Cb, s: Seg, self: uint32, allocOk: bool)
    ensures Keeps(c, ClosedEvent(c, s, self, allocOk).cb)
  {
  }

  lemma ListenKeeps(c: Cb, s: Seg, self: uint32, now: uint32, allocOk: bool)
    ensures Keeps(c, ListenEvent(c, s, self, now, allocOk).cb)
  {
  }

  lemma SynSentKeeps(c: Cb, s: Seg, self: uint32, allocOk: bool)
    ensures Keeps(c, SynSentEvent(c, s, self, allocOk).cb)
  {
  }

  lemma SyncKeeps(c: Cb, s: Seg, self: uint32, allocOk: bool, fixed: bool)
    ensures Keeps(c, SyncEvent(c, s, self, allocOk, fixed).cb)
  {
    if Acceptable(c, s) {
      match c.state
      case SynRcvd =>
        if c.sndUna <= s.ackNum <= c.sndNxt {
          AckKeeps(c.(state := Established), s, self, allocOk, fixed);
          assert Keeps(c, c.(state := Established));
        } else {
          var r1 := Reply(c, self, s.ackNum, 0, TCP_FLG_RST, allocOk);
          DataKeeps(r1.cb, s, self, allocOk, fixed);
          assert Keeps(c, r1.cb);
        }
      case LastAck =>
      case Established => AckKeeps(c, s, self, allocOk, fixed);
      case FinWait1 => AckKeeps(c, s, self, allocOk, fixed);
      case FinWait2 => AckKeeps(c, s, self, allocOk, fixed);
      case CloseWait => AckKeeps(c, s, self, allocOk, fixed);
      case Closing => AckKeeps(c, s, self, allocOk, fixed);
      case _ => DataKeeps(c, s, self, allocOk, fixed);
    }
  }

  /**
   * An event never changes which connection a block is: whether it is in
   * use, its interface, port, peer, listener and backlog stay, and only
   * its sequence numbers, window, state and queue move.
   */
  lemma EventKeeps(c: Cb, s: Seg, self: uint32, now: uint32, allocOk: bool, fixed: bool)
    ensures Keeps(c, Event(c, s, self, now, allocOk, fixed).cb)
  {
    ClosedKeeps(c, s, self, allocOk);
    ListenKeeps(c, s, self, now, allocOk);
    SynSentKeeps(c, s, self, allocOk);
    SyncKeeps(c, s, self, allocOk, fixed);
  }

  /** The FIN step of tcp_api_close: SYN-RECEIVED and ESTABLISHED send FIN|ACK and move to FIN-WAIT-1, CLOSE-WAIT to LAST-ACK. */
  function CloseStep(c: Cb, self: uint32, allocOk: bool): (r: Reaction)
    ensures !r.push && !r.clear && Keeps(c, r.cb)
  {
    if c.state == SynRcvd || c.state == Established || c.state == CloseWait then
      var r1 := Reply(c, self, c.sndNxt, c.rcvNxt, TCP_FLG_FIN + TCP_FLG_ACK, allocOk);
      r1.(cb := r1.cb.(state := if c.state == CloseWait then LastAck else FinWait1, sndNxt := (c.sndNxt + 1) % U32))
    else Quiet(c)
  }

  /**
   * The block tcp_api_connect sends its SYN for, once it has a port: the
   * peer, a full window and the clock (in 32 bits) as iss. As written it
   * keeps the interface it had, which neither tcp_api_open nor
   * tcp_api_bind sets. Corrected (fixed), a block without one takes the
   * interface ip_netif_by_peer finds for the peer, as udp_api_sendto
   * does, and there is nothing to send (None) when it finds none.
   */
  function Connecting(c: Cb, port: uint16, addr: SockAddr, clock: nat, rs: seq<Ip.Route>, fixed: bool): (r: Option<Cb>)
    ensures r.Some? ==> r.value.(iface := c.iface) == c.(port := port, peerAddr := addr.addr, peerPort := addr.port,
                                                        rcvWnd := WINDOW_SIZE, iss := clock % U32)
  {
    var c1 := c.(port := port, peerAddr := addr.addr, peerPort := addr.port, rcvWnd := WINDOW_SIZE, iss := clock % U32);
    if !fixed || c.iface != null then Some(c1)
    else if Ip.ByPeer(rs, addr.addr) == null then None
    else Some(c1.(iface := Ip.ByPeer(rs, addr.addr)))
  }

  /**
   * As written, an active open from a block with no interface (as
   * tcp_api_open and tcp_api_bind leave every block) sends its SYN with no
   * interface: kernel/tcp.c:176 then reads the source address through a
   * null pointer, whatever the route to the peer.
   */
  lemma UnboundSynAsWritten(c: Cb, port: uint16, addr: SockAddr, clock: nat, rs: seq<Ip.Route>, self: uint32)
    requires c.iface == null
    ensures var r := Connecting(c, port, addr, clock, rs, false);
      r.Some? && r.value.iface == null && Emit(r.value, self, r.value.iss, 0, TCP_FLG_SYN, []).iface == null
  {
  }

  /**
   * Corrected: a block with no interface connects through the interface of
   * the best route to the peer whenever that route has one, and not at all
   * when no route matches it.
   */
  lemma RoutedSyn(c: Cb, port: uint16, addr: SockAddr, clock: nat, rs: seq<Ip.Route>)
    requires c.iface == null
    ensures var r := Connecting(c, port, addr, clock, rs, true);
      ((forall j :: 0 <= j < |rs| ==> !Ip.Matching(rs[j], null, addr.addr)) ==> r.None?)
      && (r.Some? ==> r.value.iface != null && exists k: nat :: Ip.Best(rs, null, addr.addr, k) && r.value.iface == rs[k].netif)
      && (forall k: nat :: Ip.Best(rs, null, addr.addr, k) && rs[k].netif != null ==> r.Some? && r.value.iface == rs[k].netif)
  {
  }

  // ---------------------------------------------------------------------
  // The table on values

  /** The block tcp_api_open hands out and tcp_rx creates a connection in: the first unused, |cbs| for none. */
  function FirstUnused(cbs: seq<Cb>): (k: nat)
    ensures k <= |cbs| && (k < |cbs| ==> !cbs[k].used)
    ensures forall j :: 0 <= j < k ==> cbs[j].used
  {
    if cbs == [] then 0
    else if !cbs[0].used then 0
    else 1 + FirstUnused(cbs[1..])
  }

  /** When every block before k is used and k is not (or is the end), k is the first unused block. */
  lemma {:induction false} FirstUnusedIs(cbs: seq<Cb>, k: nat)
    requires k <= |cbs| && (k < |cbs| ==> !cbs[k].used) && forall j :: 0 <= j < k ==> cbs[j].used
    ensures FirstUnused(cbs) == k
  {
    if k > 0 {
      FirstUnusedIs(cbs[1..], k - 1);
    } else if cbs != [] {
      assert !cbs[0].used;
    }
  }

  /** A block in use that takes segments to dport arriving on iface (bound to no interface or to iface). */
  predicate Bound(c: Cb, iface: Net.Netif, dport: uint16)
  {
    c.used && (c.iface == null || c.iface == iface) && c.port == dport
  }

  /**
   * The block of the connection a segment s from src on iface belongs to:
   * bound to its port, with its sender as peer. As written a listening
   * block, whose peer is the zeroed 0.0.0.0 port 0, is one too for a
   * segment from that address; corrected (fixed), a listening block is
   * never a connection.
   */
  predicate Reaches(c: Cb, iface: Net.Netif, s: Seg, src: uint32, fixed: bool)
  {
    Bound(c, iface, s.dport) && c.peerAddr == src && c.peerPort == s.sport && !(fixed && c.state == Listen)
  }

  /** The first block s reaches, |cbs| for none. */
  function FirstReached(cbs: seq<Cb>, iface: Net.Netif, s: Seg, src: uint32, fixed: bool): (k: nat)
    ensures k <= |cbs| && (k < |cbs| ==> Reaches(cbs[k], iface, s, src, fixed))
    ensures forall j :: 0 <= j < k ==> !Reaches(cbs[j], iface, s, src, fixed)
  {
    if cbs == [] then 0
    else if Reaches(cbs[0], iface, s, src, fixed) then 0
    else 1 + FirstReached(cbs[1..], iface, s, src, fixed)
  }

  lemma {:induction false} FirstReachedIs(cbs: seq<Cb>, iface: Net.Netif, s: Seg, src: uint32, fixed: bool, k: nat)
    requires k <= |cbs| && (k < |cbs| ==> Reaches(cbs[k], iface, s, src, fixed))
    requires forall j :: 0 <= j < k ==> !Reaches(cbs[j], iface, s, src, fixed)
    ensures FirstReached(cbs, iface, s, src, fixed) == k
  {
    if k > 0 {
      FirstReachedIs(cbs[1..], iface, s, src, fixed, k - 1);
    } else if cbs != [] {
      assert Reaches(cbs[0], iface, s, src, fixed);
    }
  }

  /** A listening block for dport on iface. */
  predicate Listens(c: Cb, iface: Net.Netif, dport: uint16)
  {
    Bound(c, iface, dport) && c.state == Listen
  }

  /** The first listening block for dport on iface, |cbs| for none. */
  function FirstListener(cbs: seq<Cb>, iface: Net.Netif, dport: uint16): (k: nat)
    ensures k <= |cbs| && (k < |cbs| ==> Listens(cbs[k], iface, dport))
    ensures forall j :: 0 <= j < k ==> !Listens(cbs[j], iface, dport)
  {
    if cbs == [] then 0
    else if Listens(cbs[0], iface, dport) then 0
    else 1 + FirstListener(cbs[1..], iface, dport)
  }

  lemma {:induction false} FirstListenerIs(cbs: seq<Cb>, iface: Net.Netif, dport: uint16, k: nat)
    requires k <= |cbs| && (k < |cbs| ==> Listens(cbs[k], iface, dport))
    requires forall j :: 0 <= j < k ==> !Listens(cbs[j], iface, dport)
    ensures FirstListener(cbs, iface, dport) == k
  {
    if k > 0 {
      FirstListenerIs(cbs[1..], iface, dport, k - 1);
    } else if cbs != [] {
      assert Listens(cbs[0], iface, dport);
    }
  }

  /** Where tcp_rx hands a segment: the block it reaches, a new block for a listener, or nowhere. */
  datatype Target = Drop | Found(k: nat) | Spawn(k: nat, listener: nat)

  /**
   * tcp_rx's scan: the first block the segment reaches; with none, a bare
   * SYN to a listening port creates a connection in the first unused
   * block; anything else is dropped.
   */
  function Demux(cbs: seq<Cb>, iface: Net.Netif, s: Seg, src: uint32, fixed: bool): (t: Target)
    ensures t.Found? ==> t.k < |cbs| && t.k == FirstReached(cbs, iface, s, src, fixed)
    ensures t.Spawn? ==> t.k < |cbs| && t.listener < |cbs| && !cbs[t.k].used && Listens(cbs[t.listener], iface, s.dport)
  {
    var k := FirstReached(cbs, iface, s, src, fixed);
    if k < |cbs| then Found(k)
    else
      var f := FirstUnused(cbs);
      var l := FirstListener(cbs, iface, s.dport);
      if l == |cbs| || f == |cbs| || !OnlySyn(s.flags) then Drop else Spawn(f, l)
  }

  /** The new block of tcp_rx in unused block f for listener l: in use, listening, on iface and l's port, the sender as peer, an empty window. */
  function ChildOf(f: Cb, l: Cb, lk: nat, iface: Net.Netif, s: Seg, src: uint32): Cb
  {
    f.(used := true, state := l.state, iface := iface, port := l.port, peerAddr := src, peerPort := s.sport,
       rcvWnd := WINDOW_SIZE, parent := Some(lk))
  }

  /** The table tcp_incoming_event starts from: with the new block in place for a Spawn. */
  function Arrived(cbs: seq<Cb>, t: Target, iface: Net.Netif, s: Seg, src: uint32): (cbs': seq<Cb>)
    requires !t.Drop? && t.k < |cbs| && (t.Spawn? ==> t.listener < |cbs|)
    ensures |cbs'| == |cbs|
  {
    match t
    case Found(k) => cbs
    case Spawn(k, l) => cbs[k := ChildOf(cbs[k], cbs[l], l, iface, s, src)]
  }

  /** queue_push onto the backlog of block k's listener, when the event asks for it. */
  function Pushed(cbs: seq<Cb>, k: nat, push: bool): (cbs': seq<Cb>)
    requires k < |cbs|
    ensures |cbs'| == |cbs|
  {
    var p := cbs[k].parent;
    if push && p.Some? && p.value < |cbs| then cbs[p.value := cbs[p.value].(backlog := cbs[p.value].backlog + [k])] else cbs
  }

  /**
   * A bare SYN to a listening port from a sender with no connection yet
   * creates one in the first unused block: it answers SYN|ACK and moves
   * to SYN-RECEIVED with the sender as peer, the listener's port, the
   * arrival interface and the listener as parent. Without a listener or
   * an unused block, or for anything but a bare SYN, nothing is created.
   */
  lemma SynCreatesChild(cbs: seq<Cb>, iface: Net.Netif, s: Seg, src: uint32, now: uint32, allocOk: bool, fixed: bool)
    requires FirstReached(cbs, iface, s, src, fixed) == |cbs|
    ensures var t := Demux(cbs, iface, s, src, fixed);
      (t.Spawn? <==> OnlySyn(s.flags) && FirstUnused(cbs) < |cbs| && FirstListener(cbs, iface, s.dport) < |cbs|)
    ensures var t := Demux(cbs, iface, s, src, fixed);
      t.Spawn? ==>
        var c := Arrived(cbs, t, iface, s, src)[t.k];
        var r := Event(c, s, iface.unicast, now, allocOk, fixed);
        t.k == FirstUnused(cbs) && t.listener == FirstListener(cbs, iface, s.dport)
        && r.cb.state == SynRcvd && r.cb.used && r.cb.iface == iface && r.cb.port == s.dport
        && r.cb.peerAddr == src && r.cb.peerPort == s.sport && r.cb.parent == Some(t.listener)
        && r.cb.irs == s.seqNum && r.cb.iss == now && r.out == [Emit(c, iface.unicast, now, (s.seqNum + 1) % U32, TCP_FLG_SYN + TCP_FLG_ACK, [])]
  {
    var t := Demux(cbs, iface, s, src, fixed);
    if t.Spawn? {
      var c := Arrived(cbs, t, iface, s, src)[t.k];
      assert c.state == Listen;
      assert !IsAck(s.flags) && IsSyn(s.flags) && !IsRst(s.flags);
      ListenAnswers(c, s, iface.unicast, now, allocOk, fixed);
    }
  }

  /** Every SYN-RECEIVED block has a listener whose backlog it joins. */
  predicate Parented(cbs: seq<Cb>)
  {
    forall k :: 0 <= k < |cbs| && cbs[k].state == SynRcvd ==> cbs[k].parent.Some?
  }

  /** Only a SYN-RECEIVED block asks to be pushed, and only a listening or SYN-RECEIVED block is SYN-RECEIVED after an event. */
  lemma SynRcvdShape(c: Cb, s: Seg, self: uint32, now: uint32, allocOk: bool, fixed: bool)
    ensures var r := Event(c, s, self, now, allocOk, fixed);
      (r.push ==> c.state == SynRcvd) && (r.cb.state == SynRcvd ==> c.state == Listen || c.state == SynRcvd)
  {
    match c.state
    case Closed =>
    case Listen =>
    case SynSent =>
    case _ => SyncShape(c, s, self, allocOk, fixed);
  }

  /** In a synchronised state only SYN-RECEIVED asks to be pushed, and no other state moves to SYN-RECEIVED. */
  lemma SyncShape(c: Cb, s: Seg, self: uint32, allocOk: bool, fixed: bool)
    requires c.state != Closed && c.state != Listen && c.state != SynSent
    ensures var r := SyncEvent(c, s, self, allocOk, fixed);
      (r.push ==> c.state == SynRcvd) && (r.cb.state == SynRcvd ==> c.state == SynRcvd)
  {
    if Acceptable(c, s) {
      match c.state
      case SynRcvd =>
        if c.sndUna <= s.ackNum <= c.sndNxt {
          AckShape(c.(state := Established), s, self, allocOk, fixed);
        } else {
          var r1 := Reply(c, self, s.ackNum, 0, TCP_FLG_RST, allocOk);
          DataShape(r1.cb, s, self, allocOk, fixed);
        }
      case Closing =>
      case LastAck =>
      case _ =>
        if c.state != TimeWait {
          AckShape(c, s, self, allocOk, fixed);
        } else {
          DataShape(c, s, self, allocOk, fixed);
        }
    }
  }

  /**
   * As written, a listening block takes a connection itself: its peer is
   * the zeroed 0.0.0.0 port 0, so a bare SYN from that address and port
   * reaches the listener and no new block is made. The listener moves to
   * SYN-RECEIVED with no listener of its own, and the ACK completing the
   * handshake reaches it again and asks for the push onto its listener's
   * backlog, which kernel/tcp.c:355 makes through a null pointer.
   */
  lemma ZeroPeerHandshakeAsWritten(cbs: seq<Cb>, l: nat, iface: Net.Netif, s1: Seg, s2: Seg, self: uint32, now: uint32, allocOk: bool)
    requires l < |cbs| && Listens(cbs[l], iface, s1.dport) && cbs[l].peerAddr == 0 && cbs[l].peerPort == 0 && cbs[l].parent.None?
    requires forall j :: 0 <= j < l ==> !Reaches(cbs[j], iface, s1, 0, false)
    requires s1.sport == 0 && OnlySyn(s1.flags) && now + 1 < U32
    requires s2.sport == 0 && s2.dport == s1.dport && s2.flags == TCP_FLG_ACK && s2.seqNum == (s1.seqNum + 1) % U32
    requires s2.ackNum == now + 1 && s2.plen == 0
    ensures Demux(cbs, iface, s1, 0, false) == Found(l)
    ensures var r1 := Event(cbs[l], s1, self, now, allocOk, false);
      var r2 := Event(r1.cb, s2, self, now, allocOk, false);
      r1.cb.state == SynRcvd && Demux(cbs[l := r1.cb], iface, s2, 0, false) == Found(l)
      && r2.push && !r2.clear && r2.cb.parent.None?
  {
    FirstReachedIs(cbs, iface, s1, 0, false, l);
    PassiveOpen(cbs[l], s1, s2, self, now, allocOk, false);
    var r1 := Event(cbs[l], s1, self, now, allocOk, false);
    EventKeeps(cbs[l], s1, self, now, allocOk, false);
    EventKeeps(r1.cb, s2, self, now, allocOk, false);
    AckShape(r1.cb.(state := Established), s2, self, allocOk, false);
    var cbs1 := cbs[l := r1.cb];
    assert forall j :: 0 <= j < l ==> cbs1[j] == cbs[j] && !Reaches(cbs1[j], iface, s2, 0, false);
    FirstReachedIs(cbs1, iface, s2, 0, false, l);
  }

  /**
   * Corrected: with a listening block never a connection, a table in which
   * every SYN-RECEIVED block has a listener keeps that through a segment,
   * and the push an event asks for always has a listener to go to.
   */
  lemma FixedPushHasParent(cbs: seq<Cb>, iface: Net.Netif, s: Seg, src: uint32, self: uint32, now: uint32, allocOk: bool)
    requires Parented(cbs) && !Demux(cbs, iface, s, src, true).Drop?
    ensures var t := Demux(cbs, iface, s, src, true);
      var ts := Arrived(cbs, t, iface, s, src);
      var r := Event(ts[t.k], s, self, now, allocOk, true);
      (r.push ==> r.cb.parent.Some?) && Parented(ts[t.k := r.cb]) && Parented(Pushed(ts[t.k := r.cb], t.k, r.push))
  {
    var t := Demux(cbs, iface, s, src, true);
    var ts := Arrived(cbs, t, iface, s, src);
    var c := ts[t.k];
    SynRcvdShape(c, s, self, now, allocOk, true);
    EventKeeps(c, s, self, now, allocOk, true);
    if t.Found? {
      assert Reaches(cbs[t.k], iface, s, src, true);
    }
  }

  /** The number of backlog entries in the table, which tcp_cb_clear's recursion consumes. */
  function Total(cbs: seq<Cb>): nat
  {
    if cbs == [] then 0 else |cbs[0].backlog| + Total(cbs[1..])
  }

  lemma {:induction false} TotalUpdate(cbs: seq<Cb>, k: nat, x: Cb)
    requires k < |cbs|
    ensures Total(cbs[k := x]) == Total(cbs) - |cbs[k].backlog| + |x.backlog|
  {
    if k > 0 {
      assert cbs[k := x][1..] == cbs[1..][k - 1 := x];
      TotalUpdate(cbs[1..], k - 1, x);
    } else {
      assert cbs[0 := x][1..] == cbs[1..];
    }
  }

  /** Zeroing blocks only removes backlog entries. */
  lemma {:induction false} TotalShrinks(o: seq<Cb>, cbs: seq<Cb>)
    requires |o| == |cbs| && forall j :: 0 <= j < |cbs| ==> cbs[j] == o[j] || cbs[j] == Zero()
    ensures Total(cbs) <= Total(o)
  {
    if cbs != [] {
      assert forall j :: 0 <= j < |cbs| - 1 ==> cbs[1..][j] == cbs[j + 1] && o[1..][j] == o[j + 1];
      TotalShrinks(o[1..], cbs[1..]);
    }
  }

  /**
   * What tcp_cb_clear of block k leaves of table o: k zeroed, every other
   * block as it was or zeroed, and every block on the backlog of a zeroed
   * block zeroed too (a listener takes the connections it has not handed
   * out with it).
   */
  predicate ClearedFrom(o: seq<Cb>, cbs: seq<Cb>, k: nat)
  {
    |cbs| == |o| && k < |cbs| && cbs[k] == Zero()
    && (forall j :: 0 <= j < |cbs| ==> cbs[j] == o[j] || cbs[j] == Zero())
    && (forall j, m :: 0 <= j < |cbs| && cbs[j] == Zero() && 0 <= m < |o[j].backlog| && o[j].backlog[m] < |cbs| ==>
          cbs[o[j].backlog[m]] == Zero())
  }

  /**
   * Where tcp_cb_clear of block k stands after its retransmission queue
   * is freed and i entries of its backlog have been popped and cleared:
   * block k is zeroed (a nested clear reached it) or holds the rest of
   * its backlog, the other blocks are as they were or zeroed, the i
   * popped entries are zeroed, and a zeroed block took its backlog with it.
   */
  predicate Clearing(o: seq<Cb>, t: seq<Cb>, k: nat, i: nat)
  {
    |t| == |o| && k < |o| && i <= |o[k].backlog|
    && (t[k] == Zero() || t[k] == o[k].(txq := [], backlog := o[k].backlog[i..]))
    && (forall j :: 0 <= j < |t| && j != k ==> t[j] == o[j] || t[j] == Zero())
    && (forall m :: 0 <= m < i && o[k].backlog[m] < |t| ==> t[o[k].backlog[m]] == Zero())
    && (forall j, m :: 0 <= j < |t| && t[j] == Zero() && 0 <= m < |o[j].backlog| && o[j].backlog[m] < |t| ==>
          t[o[j].backlog[m]] == Zero())
  }

  lemma ClearStart(o: seq<Cb>, k: nat)
    requires k < |o|
    ensures Clearing(o, o[k := o[k].(txq := [])], k, 0)
  {
    var t := o[k := o[k].(txq := [])];
    assert o[k].backlog[0..] == o[k].backlog;
    assert forall j :: 0 <= j < |t| && t[j] == Zero() ==> o[j].backlog == [];
  }

  /** Popping the front entry b of block k's backlog and clearing b (ClearedFrom(t1, t2, b)) moves Clearing on by one. */
  lemma ClearStep(o: seq<Cb>, t0: seq<Cb>, t2: seq<Cb>, k: nat, i: nat)
    requires Clearing(o, t0, k, i) && t0[k].backlog != []
    requires var t1 := t0[k := t0[k].(backlog := t0[k].backlog[1..])];
      t0[k].backlog[0] < |t0| && ClearedFrom(t1, t2, t0[k].backlog[0])
    ensures i < |o[k].backlog| && Clearing(o, t2, k, i + 1)
  {
    var t1 := t0[k := t0[k].(backlog := t0[k].backlog[1..])];
    var b := t0[k].backlog[0];
    assert t0[k] != Zero();
    assert t0[k].backlog == o[k].backlog[i..];
    assert b == o[k].backlog[i];
    assert t1[k] == o[k].(txq := [], backlog := o[k].backlog[i + 1..]);
    forall m | 0 <= m < i + 1 && o[k].backlog[m] < |t2|
      ensures t2[o[k].backlog[m]] == Zero()
    {
      if m < i {
        assert t0[o[k].backlog[m]] == Zero();
      }
    }
    forall j, m | 0 <= j < |t2| && t2[j] == Zero() && 0 <= m < |o[j].backlog| && o[j].backlog[m] < |t2|
      ensures t2[o[j].backlog[m]] == Zero()
    {
      var x := o[j].backlog[m];
      if j == k {
        if m > i {
          assert t1[k].backlog[m - i - 1] == x;
        } else if m < i {
          assert t0[x] == Zero();
          assert x != k;
        }
      } else if t1[j] == Zero() {
        assert t0[j] == Zero();
        assert t0[x] == Zero();
        assert x != k;
      } else {
        assert t1[j] == o[j];
        assert t1[j].backlog[m] == x;
      }
    }
  }

  /** With block k's backlog empty, zeroing k completes tcp_cb_clear. */
  lemma ClearFinish(o: seq<Cb>, t: seq<Cb>, k: nat, i: nat)
    requires Clearing(o, t, k, i) && t[k].backlog == []
    ensures ClearedFrom(o, t[k := Zero()], k)
  {
    var t' := t[k := Zero()];
    forall j, m | 0 <= j < |t'| && t'[j] == Zero() && 0 <= m < |o[j].backlog| && o[j].backlog[m] < |t'|
      ensures t'[o[j].backlog[m]] == Zero()
    {
      var x := o[j].backlog[m];
      if j == k {
        if t[k] != Zero() {
          assert |o[k].backlog[i..]| == 0;
          assert t[x] == Zero();
        } else {
          assert t[x] == Zero();
        }
      } else {
        assert t[x] == Zero();
      }
    }
  }

  // ---------------------------------------------------------------------
  // Ports

  /** No block holds port p (tcp_api_bind looks at every block, used or not). */
  predicate Unclaimed(cbs: seq<Cb>, p: uint16)
  {
    forall j :: 0 <= j < |cbs| ==> cbs[j].port != p
  }

  /** No block in use holds port p (the test of tcp_api_connect's port search). */
  predicate PortFree(cbs: seq<Cb>, p: uint16)
  {
    forall j :: 0 <= j < |cbs| ==> !(cbs[j].used && cbs[j].port == p)
  }

  /** The port tcp_api_connect's search from p on finds: the first free one up to 65535, None when there is none. */
  function Ephemeral(cbs: seq<Cb>, p: nat): (r: Option<uint16>)
    requires p <= U16
    decreases U16 - p
  {
    if p == U16 then None
    else if PortFree(cbs, p) then Some(p)
    else Ephemeral(cbs, p + 1)
  }

  /** The search gives the smallest free port from p on, and None only when every one of them is in use. */
  lemma {:induction false} EphemeralIsSmallest(cbs: seq<Cb>, p: nat)
    requires p <= U16
    ensures var r := Ephemeral(cbs, p);
      (r.None? ==> forall q :: p <= q < U16 ==> !PortFree(cbs, q))
      && (r.Some? ==> p <= r.value && PortFree(cbs, r.value) && forall q :: p <= q < r.value ==> !PortFree(cbs, q))
    decreases U16 - p
  {
    if p < U16 && !PortFree(cbs, p) {
      EphemeralIsSmallest(cbs, p + 1);
    }
  }

  /** Where tcp_api_connect starts its search: 49152 plus the clock in hundreds, modulo 1024. */
  function SearchStart(clock: nat): (p: nat)
    ensures TCP_SOURCE_PORT_MIN <= p < TCP_SOURCE_PORT_MIN + 1024 <= U16
  {
    TCP_SOURCE_PORT_MIN + (clock / 100) % 1024
  }

  /**
   * A port bind found unclaimed is the block's alone: once it listens (and
   * it is bound to no interface, as tcp_api_bind leaves it), it is the
   * listener tcp_rx finds for a SYN to that port on any interface.
   */
  lemma BoundListenerIsFound(cbs: seq<Cb>, soc: nat, p: uint16, iface: Net.Netif)
    requires soc < |cbs| && cbs[soc].used && cbs[soc].iface == null && Unclaimed(cbs, p)
    ensures FirstListener(cbs[soc := cbs[soc].(port := p, state := Listen)], iface, p) == soc
  {
    var cbs' := cbs[soc := cbs[soc].(port := p, state := Listen)];
    assert forall j :: 0 <= j < soc ==> cbs'[j] == cbs[j];
    FirstListenerIs(cbs', iface, p, soc);
  }

  // ---------------------------------------------------------------------
  // The table

  /**
   * cb_table and the transmissions: sent holds, in order, every segment
   * tcp_tx handed to ip_tx. stray stands for the address tcp_tx reads
   * through the null interface of a block bound to none.
   */
  class TcpLayer {
    const table: array<Cb>
    const stray: uint32
    var sent: seq<Out>

    /** The table has its 16 blocks, each well formed. */
    predicate Valid()
      reads this, table
    {
      table.Length == TCP_CB_TABLE_SIZE && forall k :: 0 <= k < table.Length ==> WellFormed(table[k])
    }

    /** The source address tcp_tx puts on c's segments: its interface's, or what the null interface holds. */
    function SelfOf(c: Cb): uint32
      reads if c.iface != null then {c.iface} else {}
    {
      if c.iface != null then c.iface.unicast else stray
    }

    /** The zeroed static table, nothing sent yet. */
    constructor (stray: uint32)
      ensures Valid() && fresh(table) && this.stray == stray && sent == []
      ensures forall k :: 0 <= k < TCP_CB_TABLE_SIZE ==> table[k] == Zero()
    {
      this.stray := stray;
      table := new Cb[TCP_CB_TABLE_SIZE](_ => Zero());
      sent := [];
    }

    /**
     * tcp_cb_clear of block k: its retransmission queue is freed, each
     * block on its backlog is popped and cleared in turn, then k is zeroed.
     */
    method Clear(k: nat)
      requires Valid() && k < TCP_CB_TABLE_SIZE
      modifies table
      ensures Valid()
      ensures ClearedFrom(old(table[..]), table[..], k) && Total(table[..]) <= Total(old(table[..]))
      decreases Total(table[..]), 1
    {
      ghost var o := table[..];
      while table[k].txq != []
        invariant Valid() && table[..] == o[k := o[k].(txq := table[k].txq)]
        decreases |table[k].txq|
      {
        table[k] := table[k].(txq := table[k].txq[1..]);
      }
      assert table[..] == o[k := o[k].(txq := [])];
      ClearStart(o, k);
      TotalUpdate(o, k, o[k].(txq := []));
      ghost var i := 0;
      while table[k].backlog != []
        invariant Valid() && Clearing(o, table[..], k, i) && Total(table[..]) + i <= Total(o)
        decreases Total(table[..])
      {
        ghost var t0 := table[..];
        PopClear(k);
        ClearStep(o, t0, table[..], k, i);
        i := i + 1;
      }
      ghost var t := table[..];
      table[k] := Zero();
      ClearFinish(o, t, k, i);
      TotalShrinks(o, table[..]);
    }

    /** One round of tcp_cb_clear's backlog loop: queue_pop of block k's backlog, then tcp_cb_clear of the block it named. */
    method PopClear(k: nat)
      requires Valid() && k < TCP_CB_TABLE_SIZE && table[k].backlog != []
      modifies table
      ensures Valid()
      ensures var t1 := old(table[..])[k := old(table[k]).(backlog := old(table[k].backlog[1..]))];
        old(table[k].backlog[0]) < TCP_CB_TABLE_SIZE && ClearedFrom(t1, table[..], old(table[k].backlog[0]))
        && Total(table[..]) < Total(old(table[..]))
      decreases Total(table[..]), 0
    {
      ghost var t0 := table[..];
      var b := table[k].backlog[0];
      assert WellFormed(t0[k].(backlog := t0[k].backlog[1..]));
      table[k] := table[k].(backlog := table[k].backlog[1..]);
      assert table[..] == t0[k := t0[k].(backlog := t0[k].backlog[1..])];
      TotalUpdate(t0, k, table[k]);
      Clear(b);
    }

    /**
     * The scan of tcp_rx: the block the segment reaches, else with a bare
     * SYN the first unused block for the first listener that was met.
     */
    method Scan(iface: Net.Netif, s: Seg, src: uint32, fixed: bool) returns (t: Target)
      requires Valid()
      ensures t == Demux(table[..], iface, s, src, fixed)
    {
      var f: nat, l: nat := TCP_CB_TABLE_SIZE, TCP_CB_TABLE_SIZE;
      var k := 0;
      while k < TCP_CB_TABLE_SIZE
        invariant k <= TCP_CB_TABLE_SIZE && f <= TCP_CB_TABLE_SIZE && l <= TCP_CB_TABLE_SIZE
        invariant forall j :: 0 <= j < k ==> !Reaches(table[j], iface, s, src, fixed)
        invariant f == TCP_CB_TABLE_SIZE ==> forall j :: 0 <= j < k ==> table[j].used
        invariant f < TCP_CB_TABLE_SIZE ==> f < k && !table[f].used && forall j :: 0 <= j < f ==> table[j].used
        invariant l == TCP_CB_TABLE_SIZE ==> forall j :: 0 <= j < k ==> !Listens(table[j], iface, s.dport)
        invariant l < TCP_CB_TABLE_SIZE ==>
          l < k && Listens(table[l], iface, s.dport) && forall j :: 0 <= j < l ==> !Listens(table[j], iface, s.dport)
      {
        var c := table[k];
        if !c.used {
          if f == TCP_CB_TABLE_SIZE {
            f := k;
          }
        } else if (c.iface == null || c.iface == iface) && c.port == s.dport {
          if c.peerAddr == src && c.peerPort == s.sport && !(fixed && c.state == State.Listen) {
            FirstReachedIs(table[..], iface, s, src, fixed, k);
            return Found(k);
          }
          if c.state == State.Listen && l == TCP_CB_TABLE_SIZE {
            l := k;
          }
        }
        k := k + 1;
      }
      FirstReachedIs(table[..], iface, s, src, fixed, TCP_CB_TABLE_SIZE);
      FirstUnusedIs(table[..], f);
      FirstListenerIs(table[..], iface, s.dport, l);
      if l == TCP_CB_TABLE_SIZE || f == TCP_CB_TABLE_SIZE || !OnlySyn(s.flags) {
        return Drop;
      }
      t := Spawn(f, l);
    }

    /**
     * tcp_rx on len bytes of b from src to dst that arrived on iface: a
     * segment not to the interface's address, short or with a bad checksum
     * is dropped, and so is one that reaches no block and creates none;
     * otherwise tcp_incoming_event runs on its block (fixed: with the
     * corrected FIN and window tests, and with a listening block never a
     * connection), whose segments go out, and the block is then updated,
     * pushed onto its listener's backlog or cleared. fault: the push has no
     * listener to go to (see Incoming).
     */
    method Rx(b: seq<byte>, len: uint32, src: uint32, dst: uint32, iface: Net.Netif, now: uint32, allocOk: bool, fixed: bool)
      returns (fault: bool)
      requires Valid() && len as int <= |b|
      modifies this, table
      ensures Valid()
      ensures dst != iface.unicast || RxCheck(b, len, src, dst).None? ==>
        !fault && table[..] == old(table[..]) && sent == old(sent)
      ensures dst == iface.unicast && RxCheck(b, len, src, dst).Some? ==>
        var s := RxCheck(b, len, src, dst).value;
        var t := Demux(old(table[..]), iface, s, src, fixed);
        (t.Drop? ==> !fault && table[..] == old(table[..]) && sent == old(sent))
        && (!t.Drop? ==>
              var ts := Arrived(old(table[..]), t, iface, s, src);
              var r := Event(ts[t.k], s, SelfOf(ts[t.k]), now, allocOk, fixed);
              sent == old(sent) + r.out
              && (fault <==> !r.clear && r.push && r.cb.parent.None?)
              && (!r.clear ==> table[..] == Pushed(ts[t.k := r.cb], t.k, r.push))
              && (r.clear ==> ClearedFrom(ts[t.k := r.cb], table[..], t.k)))
    {
      fault := false;
      if dst != iface.unicast {
        return;
      }
      var got := RxCheck(b, len, src, dst);
      if got.None? {
        return;
      }
      var s := got.value;
      var t := Scan(iface, s, src, fixed);
      if t.Drop? {
        return;
      }
      ghost var o := table[..];
      if t.Spawn? {
        table[t.k] := ChildOf(table[t.k], table[t.listener], t.listener, iface, s, src);
      }
      assert table[..] == Arrived(o, t, iface, s, src);
      fault := Incoming(t.k, s, now, allocOk, fixed);
    }

    /**
     * tcp_incoming_event on block k as the table sees it: the event's
     * segments go out, then the block takes its new value and is pushed
     * onto its listener's backlog, or is cleared. fault: the event asks
     * for the push of a block with no listener, which kernel/tcp.c:355
     * makes through a null pointer; the backlogs are then left alone.
     */
    method Incoming(k: nat, s: Seg, now: uint32, allocOk: bool, fixed: bool) returns (fault: bool)
      requires Valid() && k < TCP_CB_TABLE_SIZE
      modifies this, table
      ensures Valid()
      ensures var r := Event(old(table[k]), s, SelfOf(old(table[k])), now, allocOk, fixed);
        sent == old(sent) + r.out
        && (fault <==> !r.clear && r.push && r.cb.parent.None?)
        && (!r.clear ==> table[..] == Pushed(old(table[..])[k := r.cb], k, r.push))
        && (r.clear ==> ClearedFrom(old(table[..])[k := r.cb], table[..], k))
    {
      var c := table[k];
      var self := if c.iface != null then c.iface.unicast else stray;
      var r := Event(c, s, self, now, allocOk, fixed);
      EventKeeps(c, s, self, now, allocOk, fixed);
      sent := sent + r.out;
      table[k] := r.cb;
      fault := !r.clear && r.push && r.cb.parent.None?;
      if r.clear {
        Clear(k);
      } else if r.push && r.cb.parent.Some? {
        var p := r.cb.parent.value;
        table[p] := table[p].(backlog := table[p].backlog + [k]);
      }
    }

    /** tcp_api_open: the first unused block is marked used and its index returned; -1 when all 16 are in use. */
    method Open() returns (r: int)
      requires Valid()
      modifies table
      ensures Valid()
      ensures var f := FirstUnused(old(table[..]));
        r == (if f < TCP_CB_TABLE_SIZE then f else -1)
        && table[..] == if f < TCP_CB_TABLE_SIZE then old(table[..])[f := old(table[f]).(used := true)] else old(table[..])
    {
      var k := 0;
      while k < TCP_CB_TABLE_SIZE
        invariant k <= TCP_CB_TABLE_SIZE && forall j :: 0 <= j < k ==> table[j].used
      {
        if !table[k].used {
          FirstUnusedIs(table[..], k);
          table[k] := table[k].(used := true);
          return k;
        }
        k := k + 1;
      }
      FirstUnusedIs(table[..], TCP_CB_TABLE_SIZE);
      r := -1;
    }

    /**
     * tcp_api_close: -1 for a handle out of range or a block not in use;
     * otherwise the FIN of the close step goes out and the block is
     * cleared, 0.
     */
    method Close(soc: int, allocOk: bool) returns (r: int)
      requires Valid()
      modifies this, table
      ensures Valid()
      ensures !(0 <= soc < TCP_CB_TABLE_SIZE) || !old(table[soc].used) ==>
        r == -1 && table[..] == old(table[..]) && sent == old(sent)
      ensures 0 <= soc < TCP_CB_TABLE_SIZE && old(table[soc].used) ==>
        var x := CloseStep(old(table[soc]), SelfOf(old(table[soc])), allocOk);
        r == 0 && sent == old(sent) + x.out && ClearedFrom(old(table[..])[soc := x.cb], table[..], soc)
    {
      if soc < 0 || soc >= TCP_CB_TABLE_SIZE {
        return -1;
      }
      var c := table[soc];
      if !c.used {
        return -1;
      }
      var self := if c.iface != null then c.iface.unicast else stray;
      var x := CloseStep(c, self, allocOk);
      sent := sent + x.out;
      table[soc] := x.cb;
      Clear(soc);
      r := 0;
    }
  
    /** The inner scan of tcp_api_connect's port search: whether a block in use already holds p. */
    method InUse(p: uint16) returns (b: bool)
      requires Valid()
      ensures b == !PortFree(table[..], p)
    {
      var k := 0;
      while k < TCP_CB_TABLE_SIZE
        invariant k <= TCP_CB_TABLE_SIZE && forall j :: 0 <= j < k ==> !(table[j].used && table[j].port == p)
      {
        if table[k].used && table[k].port == p {
          return true;
        }
        k := k + 1;
      }
      b := false;
    }

    /** tcp_api_connect's port search: the first p from start up to 65535 that no block in use holds. */
    method PickPort(start: nat) returns (r: Option<uint16>)
      requires Valid() && start <= U16
      ensures r == Ephemeral(table[..], start)
    {
      var p: nat := start;
      while p <= TCP_SOURCE_PORT_MAX
        invariant start <= p <= U16
        invariant Ephemeral(table[..], p) == Ephemeral(table[..], start)
        decreases U16 - p
      {
        var taken := InUse(p);
        if !taken {
          return Some(p);
        }
        p := p + 1;
      }
      r := None;
    }

    /**
     * tcp_api_connect: -1 for a handle out of range, an address not
     * AF_INET, or a block not in use or not CLOSED; a block without a port
     * takes the first free one from SearchStart(clock), and -1 when there
     * is none. Then the peer is recorded, the window opened, the clock
     * (in 32 bits) taken as iss, a SYN sent, and the block moves to
     * SYN-SENT with snd.nxt = iss + 1. The call then sleeps while the
     * block is SYN-SENT (blocked); AwaitConnected is the check it repeats
     * on each wakeup, and it returns 0 once the state has moved on.
     * As written the SYN of a block without an interface leaves with none,
     * from the address tcp_tx reads through the null pointer (stray);
     * corrected (fixed), such a block takes the interface of the route to
     * the peer in rs, and -1 when there is none (see Connecting).
     */
    method Connect(soc: int, addr: SockAddr, clock: nat, allocOk: bool, rs: seq<Ip.Route>, fixed: bool)
      returns (r: int, blocked: bool)
      requires Valid()
      modifies this, table
      ensures Valid()
      ensures !(0 <= soc < TCP_CB_TABLE_SIZE) || addr.family != AF_INET || !old(table[soc].used)
              || old(table[soc].state) != Closed ==>
        r == -1 && !blocked && table[..] == old(table[..]) && sent == old(sent)
      ensures 0 <= soc < TCP_CB_TABLE_SIZE && addr.family == AF_INET && old(table[soc].used) && old(table[soc].state) == Closed ==>
        var c := old(table[soc]);
        var port := if c.port != 0 then Some(c.port) else Ephemeral(old(table[..]), SearchStart(clock));
        var c1 := if port.Some? then Connecting(c, port.value, addr, clock, rs, fixed) else None;
        (c1.None? ==> r == -1 && !blocked && table[..] == old(table[..]) && sent == old(sent))
        && (c1.Some? ==>
              var o := Emit(c1.value, SelfOf(c1.value), c1.value.iss, 0, TCP_FLG_SYN, []);
              r == 0 && blocked && sent == old(sent) + [o] && table[soc].state == SynSent
              && table[..] == old(table[..])[soc := Queued(c1.value, o, allocOk).(sndNxt := (c1.value.iss + 1) % U32, state := SynSent)]
              && (!fixed && c.iface == null ==> o.iface == null && o.src == stray)
              && (fixed ==> o.iface != null && o.src == o.iface.unicast))
    {
      blocked := false;
      if soc < 0 || soc >= TCP_CB_TABLE_SIZE || addr.family != AF_INET {
        return -1, blocked;
      }
      var c := table[soc];
      if !c.used || c.state != Closed {
        return -1, blocked;
      }
      var port := c.port;
      if port == 0 {
        var picked := PickPort(SearchStart(clock));
        if picked.None? {
          return -1, blocked;
        }
        port := picked.value;
      }
      var c1 := Connecting(c, port, addr, clock, rs, fixed);
      if c1.None? {
        return -1, blocked;
      }
      c := c1.value;
      var self := if c.iface != null then c.iface.unicast else stray;
      var o := Emit(c, self, c.iss, 0, TCP_FLG_SYN, []);
      sent := sent + [o];
      table[soc] := Queued(c, o, allocOk).(sndNxt := (c.iss + 1) % U32, state := SynSent);
      r, blocked := 0, true;
    }

    /**
     * The wait at the end of tcp_api_connect: it sleeps on while the block
     * is SYN-SENT and returns 0 once another state has been reached (the
     * ESTABLISHED of an acceptable SYN|ACK, or the CLOSED of a
     * tcp_api_close meanwhile; a reset is ignored in SYN-SENT and does not
     * end the wait).
     */
    method AwaitConnected(soc: int) returns (r: int, blocked: bool)
      requires Valid() && 0 <= soc < TCP_CB_TABLE_SIZE
      ensures blocked <==> table[soc].state == SynSent
      ensures !blocked ==> r == 0
    {
      blocked := table[soc].state == SynSent;
      r := 0;
    }

    /**
     * tcp_api_bind: -1 for a handle out of range, an address not AF_INET,
     * a port some block (used or not) already holds, or a block not in use
     * or not CLOSED; otherwise only the block's port changes: 0.
     */
    method Bind(soc: int, addr: SockAddr) returns (r: int)
      requires Valid()
      modifies table
      ensures Valid()
      ensures r == 0 <==>
        0 <= soc < TCP_CB_TABLE_SIZE && addr.family == AF_INET && Unclaimed(old(table[..]), addr.port)
        && old(table[soc].used) && old(table[soc].state) == Closed
      ensures r != 0 ==> r == -1 && table[..] == old(table[..])
      ensures r == 0 ==> table[..] == old(table[..])[soc := old(table[soc]).(port := addr.port)]
    {
      if soc < 0 || soc >= TCP_CB_TABLE_SIZE || addr.family != AF_INET {
        return -1;
      }
      var k := 0;
      while k < TCP_CB_TABLE_SIZE
        invariant k <= TCP_CB_TABLE_SIZE && forall j :: 0 <= j < k ==> table[j].port != addr.port
      {
        if table[k].port == addr.port {
          return -1;
        }
        k := k + 1;
      }
      if !table[soc].used || table[soc].state != Closed {
        return -1;
      }
      table[soc] := table[soc].(port := addr.port);
      r := 0;
    }

    /** tcp_api_listen: a block in use, CLOSED and with a port moves to LISTEN (0); anything else is -1 and changes nothing. */
    method Listen(soc: int, backlog: int) returns (r: int)
      requires Valid()
      modifies table
      ensures Valid()
      ensures r == 0 <==>
        0 <= soc < TCP_CB_TABLE_SIZE && old(table[soc].used) && old(table[soc].state) == Closed && old(table[soc].port) != 0
      ensures r != 0 ==> r == -1 && table[..] == old(table[..])
      ensures r == 0 ==> table[..] == old(table[..])[soc := old(table[soc]).(state := State.Listen)]
    {
      if soc < 0 || soc >= TCP_CB_TABLE_SIZE {
        return -1;
      }
      var c := table[soc];
      if !c.used || c.state != Closed || c.port == 0 {
        return -1;
      }
      table[soc] := c.(state := State.Listen);
      r := 0;
    }

    /**
     * tcp_api_accept: with an address wanted, a null or too small length
     * is -1, else the length becomes 8; a block not in use or not
     * LISTENING is -1; an empty backlog would block; otherwise the oldest
     * completed connection is taken off the backlog, its index returned
     * and its peer reported.
     */
    method Accept(soc: int, wantAddr: bool, addrlen: Option<int>)
      returns (r: int, blocked: bool, peer: Option<SockAddr>, addrlen': Option<int>)
      requires Valid()
      modifies table
      ensures Valid()
      ensures !(0 <= soc < TCP_CB_TABLE_SIZE) || (wantAddr && (addrlen.None? || TooShort(addrlen.value))) ==>
        r == -1 && !blocked && peer.None? && addrlen' == addrlen && table[..] == old(table[..])
      ensures 0 <= soc < TCP_CB_TABLE_SIZE && !(wantAddr && (addrlen.None? || TooShort(addrlen.value))) ==>
        addrlen' == (if wantAddr then Some(SOCKADDR_IN_SIZE) else addrlen)
      ensures 0 <= soc < TCP_CB_TABLE_SIZE && !(wantAddr && (addrlen.None? || TooShort(addrlen.value)))
              && (!old(table[soc].used) || old(table[soc].state) != State.Listen) ==>
        r == -1 && !blocked && peer.None? && table[..] == old(table[..])
      ensures 0 <= soc < TCP_CB_TABLE_SIZE && !(wantAddr && (addrlen.None? || TooShort(addrlen.value)))
              && old(table[soc].used) && old(table[soc].state) == State.Listen && old(table[soc].backlog) == [] ==>
        blocked && peer.None? && table[..] == old(table[..])
      ensures 0 <= soc < TCP_CB_TABLE_SIZE && !(wantAddr && (addrlen.None? || TooShort(addrlen.value)))
              && old(table[soc].used) && old(table[soc].state) == State.Listen && old(table[soc].backlog) != [] ==>
        var k := old(table[soc].backlog[0]);
        !blocked && r == k && k < TCP_CB_TABLE_SIZE
        && table[..] == old(table[..])[soc := old(table[soc]).(backlog := old(table[soc].backlog[1..]))]
        && peer == (if wantAddr then Some(SockAddr(AF_INET, old(table[k].peerPort), old(table[k].peerAddr))) else None)
    {
      blocked, peer, addrlen' := false, None, addrlen;
      if soc < 0 || soc >= TCP_CB_TABLE_SIZE {
        return -1, blocked, peer, addrlen';
      }
      if wantAddr {
        if addrlen.None? || TooShort(addrlen.value) {
          return -1, blocked, peer, addrlen';
        }
        addrlen' := Some(SOCKADDR_IN_SIZE);
      }
      var c := table[soc];
      if !c.used || c.state != State.Listen {
        return -1, blocked, peer, addrlen';
      }
      if c.backlog == [] {
        return 0, true, peer, addrlen';
      }
      var k := c.backlog[0];
      assert WellFormed(c.(backlog := c.backlog[1..]));
      table[soc] := c.(backlog := c.backlog[1..]);
      if wantAddr {
        peer := Some(SockAddr(AF_INET, table[k].peerPort, table[k].peerAddr));
      }
      r := k;
    }

    /**
     * tcp_api_recv: -1 for a handle out of range or a block not in use;
     * with nothing unread, 0 when the state can no longer receive and a
     * wait otherwise; else the first min(size, unread) bytes go to buf,
     * the rest move to the front of the window and rcv.wnd grows by as many.
     * A rcv.wnd above 4096 (the wrap of WindowOverrunAsWritten) makes the
     * unsigned total 4096 - rcv.wnd wrap to more than 4096, and the
     * memcpy or the memmove then runs past the window: overrun, and the
     * model of the call ends.
     */
    method Recv(soc: int, buf: array<byte>, size: uint32) returns (r: int, blocked: bool, overrun: bool)
      requires Valid() && size as int <= buf.Length
      modifies table, buf
      ensures Valid()
      ensures overrun <==> 0 <= soc < TCP_CB_TABLE_SIZE && old(table[soc].used) && old(table[soc].rcvWnd) > WINDOW_SIZE
      ensures !(0 <= soc < TCP_CB_TABLE_SIZE) || !old(table[soc].used) ==>
        r == -1 && !blocked && table[..] == old(table[..]) && buf[..] == old(buf[..])
      ensures overrun ==> !blocked && table[..] == old(table[..]) && buf[..] == old(buf[..])
      ensures 0 <= soc < TCP_CB_TABLE_SIZE && old(table[soc].used) && old(table[soc].rcvWnd) == WINDOW_SIZE ==>
        table[..] == old(table[..]) && buf[..] == old(buf[..])
        && (blocked <==> RxReady(old(table[soc].state))) && (!blocked ==> r == 0)
      ensures 0 <= soc < TCP_CB_TABLE_SIZE && old(table[soc].used) && old(table[soc].rcvWnd) < WINDOW_SIZE ==>
        var c := old(table[soc]);
        var n := Min(size as int, WINDOW_SIZE - c.rcvWnd);
        !blocked && r == n && 0 < WINDOW_SIZE - c.rcvWnd && n <= WINDOW_SIZE - c.rcvWnd
        && buf[..n] == Buffered(c)[..n] && buf[n..] == old(buf[n..])
        && table[..] == old(table[..])[soc := Drained(c, n)]
        && WindowSound(table[soc]) && Buffered(table[soc]) == Buffered(c)[n..]
    {
      blocked, overrun := false, false;
      if soc < 0 || soc >= TCP_CB_TABLE_SIZE {
        return -1, blocked, overrun;
      }
      var c := table[soc];
      if !c.used {
        return -1, blocked, overrun;
      }
      if c.rcvWnd as int > WINDOW_SIZE {
        return 0, blocked, true;
      }
      var total := WINDOW_SIZE - c.rcvWnd as int;
      if total == 0 {
        if !RxReady(c.state) {
          return 0, blocked, overrun;
        }
        return 0, true, overrun;
      }
      var n := if (size as int) < total then size as int else total;
      var i := 0;
      while i < n
        modifies buf
        invariant 0 <= i <= n && buf[..i] == c.window[..i] && buf[n..] == old(buf[n..])
      {
        buf[i] := c.window[i];
        i := i + 1;
      }
      assert Buffered(c)[..n] == c.window[..n];
      DrainedKeepsRest(c, n);
      table[soc] := Drained(c, n);
      r := n;
    }

    /**
     * tcp_api_send: -1 for a handle out of range, a block not in use or
     * one that cannot send (not ESTABLISHED or CLOSE-WAIT); otherwise the
     * first len bytes of data go out with ACK|PSH from snd.nxt, snd.nxt
     * moves past them (in 32 bits), and 0. tcp_tx copies the len bytes
     * behind the header in segment[1500] without a bound: more than
     * 1500 - 20 bytes overrun it, which is reported as overrun and ends
     * the model of the call.
     */
    method Send(soc: int, data: seq<byte>, len: uint32, allocOk: bool) returns (r: int, overrun: bool)
      requires Valid() && len as int <= |data|
      modifies this, table
      ensures Valid()
      ensures overrun <==> 0 <= soc < TCP_CB_TABLE_SIZE && old(table[soc].used) && TxReady(old(table[soc].state))
                           && TCP_HDR_SIZE + len as int > SEGMENT_BUFSIZ
      ensures overrun ==> table[..] == old(table[..]) && sent == old(sent)
      ensures !overrun ==> (r == 0 <==> 0 <= soc < TCP_CB_TABLE_SIZE && old(table[soc].used) && TxReady(old(table[soc].state)))
      ensures !overrun && r != 0 ==> r == -1 && table[..] == old(table[..]) && sent == old(sent)
      ensures !overrun && r == 0 ==>
        var c := old(table[soc]);
        var o := Emit(c, SelfOf(c), c.sndNxt, c.rcvNxt, TCP_FLG_ACK + TCP_FLG_PSH, data[..len]);
        sent == old(sent) + [o]
        && table[..] == old(table[..])[soc := Queued(c, o, allocOk).(sndNxt := (c.sndNxt + len as int) % U32)]
    {
      overrun := false;
      if soc < 0 || soc >= TCP_CB_TABLE_SIZE {
        return -1, overrun;
      }
      var c := table[soc];
      if !c.used || !TxReady(c.state) {
        return -1, overrun;
      }
      if TCP_HDR_SIZE + len as int > SEGMENT_BUFSIZ {
        return 0, true;
      }
      var self := if c.iface != null then c.iface.unicast else stray;
      var o := Emit(c, self, c.sndNxt, c.rcvNxt, TCP_FLG_ACK + TCP_FLG_PSH, data[..len]);
      sent := sent + [o];
      table[soc] := Queued(c, o, allocOk).(sndNxt := (c.sndNxt + len as int) % U32);
      r := 0;
    }
  }
}
