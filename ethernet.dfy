/**
 * The Ethernet link layer (kernel/ethernet.c): the textual address
 * parser, the receive filter and the frame builder of IEEE 802.3 clause 3
 * (6-byte addresses, a 14-byte header of destination, source and
 * Ethertype, 46 to 1500 payload bytes). include/ethernet.h is not part of
 * this model; its sizes are those of the standard. A frame is the
 * sequence of its bytes; the driver callbacks are parameters (what the
 * driver returns) and results (what the receive callback is handed).
 */
module Ethernet {
  import opened Common
  import opened CText
  import opened Numerals
  import Klib
  import Net

  const ETHERNET_ADDR_LEN: nat := 6
  const ETHERNET_HDR_SIZE: nat := 14
  const ETHERNET_PAYLOAD_SIZE_MIN: nat := 46
  const ETHERNET_PAYLOAD_SIZE_MAX: nat := 1500
  const ETHERNET_FRAME_SIZE_MAX: nat := 1514
  const ETHERNET_TYPE_IP: uint16 := 0x0800
  const ETHERNET_TYPE_ARP: uint16 := 0x0806

  /** ETHERNET_ADDR_BROADCAST, ff:ff:ff:ff:ff:ff. */
  function Broadcast(): (a: seq<byte>)
    ensures |a| == ETHERNET_ADDR_LEN && forall k :: 0 <= k < |a| ==> a[k] == 0xff
  {
    seq(ETHERNET_ADDR_LEN, _ => 0xff)
  }

  // ---------------------------------------------------------------------
  // ethernet_addr_pton

  /**
   * ethernet_addr_pton as written, over kernel/klib.c's strtol: that
   * strtol never writes the end pointer, so ep keeps whatever the
   * uninitialised local held. ep0 is that position and epChar the
   * character *ep reads there. Every round compares the same ep, and
   * the check after the loop reads the same character the rounds needed
   * to be ':', so no string is accepted.
   */
  method AddrPtonAsWritten(p: Option<seq<char>>, n: array?<byte>, ep0: nat, epChar: char) returns (r: int)
    requires n != null ==> n.Length >= ETHERNET_ADDR_LEN
    modifies n
    ensures r == -1
  {
    if p.None? || n == null {
      return -1;
    }
    var s := p.value;
    var pos := 0;
    var ep := ep0;
    var index := 0;
    while index < ETHERNET_ADDR_LEN
      invariant index <= ETHERNET_ADDR_LEN && ep == ep0
      invariant index > 0 ==> epChar == ':'
    {
      var val, ep' := Klib.StrtolAsWritten(s, pos, ep, 16);
      ep := ep';
      if ep == pos || val < 0 || val > 0xff || (index < ETHERNET_ADDR_LEN - 1 && epChar != ':') {
        break;
      }
      n[index] := val;
      pos := ep + 1;
      index := index + 1;
    }
    if index != ETHERNET_ADDR_LEN || epChar != '\0' {
      return -1;
    }
    r := 0;
  }

  /**
   * What ethernet_addr_pton reads from position pos on, field index of
   * six, over a strtol that reports its end position: a base-16 field
   * in 0..0xff, then ':' before fields 0 to 4 and NUL after field 5.
   */
  function PtonFrom(s: seq<char>, pos: nat, index: nat): (r: Option<seq<byte>>)
    requires index < ETHERNET_ADDR_LEN
    ensures r.Some? ==> |r.value| == ETHERNET_ADDR_LEN - index
    decreases ETHERNET_ADDR_LEN - index
  {
    var c := Strtol(s, pos, 16);
    if c.end == pos || c.value < 0 || c.value > 0xff then None
    else if index < ETHERNET_ADDR_LEN - 1 then
      if At(s, c.end) != ':' then None
      else match PtonFrom(s, c.end + 1, index + 1)
        case None => None
        case Some(rest) => Some([c.value as byte] + rest)
    else if At(s, c.end) != '\0' then None
    else Some([c.value as byte])
  }

  /** The octets parsed so far in front of what the rest of the string gives. */
  function Prepend(a: seq<byte>, o: Option<seq<byte>>): Option<seq<byte>>
  {
    if o.None? then None else Some(a + o.value)
  }

  /**
   * ethernet_addr_pton as evidently intended, with strtol setting the end
   * pointer: 0 and the six octets in n[0..6) exactly when the string
   * reads as six ':'-separated base-16 octets; -1 for a null argument or
   * any other string.
   */
  method AddrPton(p: Option<seq<char>>, n: array?<byte>) returns (r: int)
    requires n != null ==> n.Length >= ETHERNET_ADDR_LEN
    modifies n
    ensures r == 0 || r == -1
    ensures r == 0 <==> p.Some? && n != null && PtonFrom(p.value, 0, 0).Some?
    ensures r == 0 ==> n[..ETHERNET_ADDR_LEN] == PtonFrom(p.value, 0, 0).value
    ensures n != null ==> n[ETHERNET_ADDR_LEN..] == old(n[ETHERNET_ADDR_LEN..])
  {
    if p.None? || n == null {
      return -1;
    }
    var s := p.value;
    var pos := 0;
    var ep := 0;
    var index := 0;
    ghost var got: seq<byte> := [];
    ghost var want := PtonFrom(s, 0, 0);
    PrependNothing(want);
    while index < ETHERNET_ADDR_LEN
      invariant Pending(s, want, got, pos, ep, index) && n[..index] == got
      invariant n[ETHERNET_ADDR_LEN..] == old(n[ETHERNET_ADDR_LEN..])
    {
      var ok, val, end := ReadOctet(s, pos, index);
      ghost var ep0 := ep;
      ep := end;
      if !ok {
        return -1;
      }
      ghost var pos0, index0, got0 := pos, index, got;
      StoreOctet(n, index, val, got);
      got := got + [val];
      pos := ep + 1;
      index := index + 1;
      PtonAdvance(s, pos0, index0, val, ep, got0, ep0, want, got, pos, index);
    }
    if At(s, ep) != '\0' {
      return -1;
    }
    r := 0;
  }

  /** n[index] := v after the index octets got: the first index + 1 octets are got and v, and the rest is kept. */
  method StoreOctet(n: array<byte>, index: nat, v: byte, ghost got: seq<byte>)
    requires index < ETHERNET_ADDR_LEN <= n.Length && n[..index] == got
    modifies n
    ensures n[..index + 1] == got + [v] && n[ETHERNET_ADDR_LEN..] == old(n[ETHERNET_ADDR_LEN..])
  {
    n[index] := v;
    assert n[..index + 1] == n[..index] + [v];
  }

  /**
   * One round of the loop of ethernet_addr_pton: strtol at pos, then the
   * checks on the value and on the character after it.
   */
  method ReadOctet(s: seq<char>, pos: nat, index: nat) returns (ok: bool, v: byte, end: nat)
    requires index < ETHERNET_ADDR_LEN
    ensures !ok ==> PtonFrom(s, pos, index).None?
    ensures ok ==> index < ETHERNET_ADDR_LEN - 1 ==>
      PtonFrom(s, pos, index) == Prepend([v], PtonFrom(s, end + 1, index + 1))
    ensures ok ==> index == ETHERNET_ADDR_LEN - 1 ==>
      PtonFrom(s, pos, index) == if At(s, end) == '\0' then Some([v]) else None
  {
    var c := Strtol(s, pos, 16);
    end := c.end;
    if end == pos || c.value < 0 || c.value > 0xff || (index < ETHERNET_ADDR_LEN - 1 && At(s, end) != ':') {
      PtonFieldFails(s, pos, index);
      return false, 0, end;
    }
    ok, v := true, c.value;
    if index < ETHERNET_ADDR_LEN - 1 {
      PtonField(s, pos, index, v, end);
    } else {
      PtonLastField(s, pos, v, end);
    }
  }

  /** The address as "H:H:H:H:H:H" from octet k on, each octet in upper-case hexadecimal without leading zeros. */
  function Format(mac: seq<byte>, k: nat): seq<char>
    requires |mac| == ETHERNET_ADDR_LEN && k < ETHERNET_ADDR_LEN
    decreases ETHERNET_ADDR_LEN - k
  {
    Digits(mac[k], 16, true) + (if k == ETHERNET_ADDR_LEN - 1 then "" else ":" + Format(mac, k + 1))
  }

  /** The parser reads a formatted address back: the octets from k on, wherever in s the text starts. */
  lemma {:induction false} PtonReadsFormat(s: seq<char>, pos: nat, mac: seq<byte>, k: nat)
    requires |mac| == ETHERNET_ADDR_LEN && k < ETHERNET_ADDR_LEN
    requires pos <= |s| && s[pos..] == Format(mac, k)
    ensures PtonFrom(s, pos, k) == Some(mac[k..])
    decreases ETHERNET_ADDR_LEN - k
  {
    if k < ETHERNET_ADDR_LEN - 1 {
      var next := PtonFormatStep(s, pos, mac, k);
      PtonReadsFormat(s, next, mac, k + 1);
      PrependHead(mac, k, PtonFrom(s, next, k + 1));
    } else {
      PtonReadsLastFormat(s, pos, mac);
    }
  }

  /** Octet k of a formatted address read, and the ':' after it at end: the rest formats octets k + 1 on. */
  lemma PtonFormatStep(s: seq<char>, pos: nat, mac: seq<byte>, k: nat) returns (next: nat)
    requires |mac| == ETHERNET_ADDR_LEN && k < ETHERNET_ADDR_LEN - 1
    requires pos <= |s| && s[pos..] == Format(mac, k)
    ensures next <= |s| && s[next..] == Format(mac, k + 1)
    ensures PtonFrom(s, pos, k) == Prepend([mac[k]], PtonFrom(s, next, k + 1))
  {
    var end := pos + |Digits(mac[k], 16, true)|;
    next := end + 1;
    FormatSplit(s, pos, mac, k, end, next);
    PtonOctet(s, pos, k, mac[k], end);
    assert PtonFrom(s, pos, k) == Prepend([mac[k]], PtonFrom(s, end + 1, k + 1));
    assert next <= |s| && s[next..] == Format(mac, k + 1);
  }

  /** Octet k in front of the octets after it. */
  lemma PrependHead(mac: seq<byte>, k: nat, o: Option<seq<byte>>)
    requires k < |mac| && o == Some(mac[k + 1..])
    ensures Prepend([mac[k]], o) == Some(mac[k..])
  {
    assert mac[k..] == [mac[k]] + mac[k + 1..];
  }

  /** Where the digits of octet k and the ':' after them sit in a formatted address. */
  lemma FormatSplit(s: seq<char>, pos: nat, mac: seq<byte>, k: nat, end: nat, next: nat)
    requires |mac| == ETHERNET_ADDR_LEN && k < ETHERNET_ADDR_LEN - 1
    requires pos <= |s| && s[pos..] == Format(mac, k)
    requires end == pos + |Digits(mac[k], 16, true)| && next == end + 1
    ensures end < |s| && s[pos..end] == Digits(mac[k], 16, true) && At(s, end) == ':'
    ensures next <= |s| && s[next..] == Format(mac, k + 1)
  {
    var d := Digits(mac[k], 16, true);
    assert s[pos..] == d + (":" + Format(mac, k + 1));
    assert s[pos..end] == s[pos..][..|d|];
    assert s[end] == s[pos..][|d|];
    assert s[next..] == s[pos..][|d| + 1..];
  }

  /** The last octet of a formatted address, followed by the end of the string. */
  lemma PtonReadsLastFormat(s: seq<char>, pos: nat, mac: seq<byte>)
    requires |mac| == ETHERNET_ADDR_LEN
    requires pos <= |s| && s[pos..] == Format(mac, ETHERNET_ADDR_LEN - 1)
    ensures PtonFrom(s, pos, ETHERNET_ADDR_LEN - 1) == Some(mac[ETHERNET_ADDR_LEN - 1..])
  {
    var k := ETHERNET_ADDR_LEN - 1;
    var d := Digits(mac[k], 16, true);
    var end := pos + |d|;
    assert s[pos..] == d;
    assert s[pos..end] == d && At(s, end) == '\0';
    PtonLastOctet(s, pos, mac[k], end);
    LastElement(mac, k);
  }

  lemma LastElement(a: seq<byte>, k: nat)
    requires k + 1 == |a|
    ensures a[k..] == [a[k]]
  {
  }

  /** The digits of x followed by ':' as a field other than the last. */
  lemma PtonOctet(s: seq<char>, pos: nat, index: nat, x: byte, end: nat)
    requires index < ETHERNET_ADDR_LEN - 1 && end == pos + |Digits(x, 16, true)|
    requires end <= |s| && s[pos..end] == Digits(x, 16, true) && At(s, end) == ':'
    ensures PtonFrom(s, pos, index) == Prepend([x], PtonFrom(s, end + 1, index + 1))
  {
    CText.StrtolReadsAt(s, pos, x, 16, end);
    PtonField(s, pos, index, x, end);
  }

  /** The digits of x followed by the terminator as the last field. */
  lemma PtonLastOctet(s: seq<char>, pos: nat, x: byte, end: nat)
    requires end == pos + |Digits(x, 16, true)|
    requires end <= |s| && s[pos..end] == Digits(x, 16, true) && At(s, end) == '\0'
    ensures PtonFrom(s, pos, ETHERNET_ADDR_LEN - 1) == Some([x])
  {
    CText.StrtolReadsAt(s, pos, x, 16, end);
    PtonLastField(s, pos, x, end);
  }

  /** A field other than the last, read as the octet v and followed by ':'. */
  lemma PtonField(s: seq<char>, pos: nat, index: nat, v: byte, end: nat)
    requires index < ETHERNET_ADDR_LEN - 1 && Strtol(s, pos, 16) == Conversion(v, end) && end != pos && At(s, end) == ':'
    ensures PtonFrom(s, pos, index) == Prepend([v], PtonFrom(s, end + 1, index + 1))
  {
  }

  /** The last field, read as the octet v: accepted exactly when the terminator follows. */
  lemma PtonLastField(s: seq<char>, pos: nat, v: byte, end: nat)
    requires Strtol(s, pos, 16) == Conversion(v, end) && end != pos
    ensures PtonFrom(s, pos, ETHERNET_ADDR_LEN - 1) == if At(s, end) == '\0' then Some([v]) else None
  {
  }

  /** A field with no digits, out of range or without its ':' rejects the address. */
  lemma PtonFieldFails(s: seq<char>, pos: nat, index: nat)
    requires index < ETHERNET_ADDR_LEN
    requires var c := Strtol(s, pos, 16);
      c.end == pos || c.value < 0 || c.value > 0xff || (index < ETHERNET_ADDR_LEN - 1 && At(s, c.end) != ':')
    ensures PtonFrom(s, pos, index).None?
  {
  }

  /**
   * The loop state of ethernet_addr_pton after index fields: got holds
   * them, and together with what the rest of the string gives they make
   * the whole answer want.
   */
  ghost predicate Pending(s: seq<char>, want: Option<seq<byte>>, got: seq<byte>, pos: nat, ep: nat, index: nat)
  {
    index <= ETHERNET_ADDR_LEN && |got| == index &&
    if index < ETHERNET_ADDR_LEN then want == Prepend(got, PtonFrom(s, pos, index))
    else want == if At(s, ep) == '\0' then Some(got) else None
  }

  lemma PtonAdvance(s: seq<char>, pos: nat, index: nat, v: byte, end: nat, got: seq<byte>, ep: nat,
                    want: Option<seq<byte>>, got': seq<byte>, pos': nat, index': nat)
    requires index < ETHERNET_ADDR_LEN && Pending(s, want, got, pos, ep, index)
    requires index < ETHERNET_ADDR_LEN - 1 ==> PtonFrom(s, pos, index) == Prepend([v], PtonFrom(s, end + 1, index + 1))
    requires index == ETHERNET_ADDR_LEN - 1 ==> PtonFrom(s, pos, index) == if At(s, end) == '\0' then Some([v]) else None
    requires got' == got + [v] && pos' == end + 1 && index' == index + 1
    ensures Pending(s, want, got', pos', end, index')
  {
    if index < ETHERNET_ADDR_LEN - 1 {
      PrependTwice(got, [v], PtonFrom(s, end + 1, index + 1));
    }
  }

  lemma PrependNothing(o: Option<seq<byte>>)
    ensures Prepend([], o) == o
  {
    if o.Some? {
      assert [] + o.value == o.value;
    }
  }

  lemma PrependTwice(a: seq<byte>, b: seq<byte>, o: Option<seq<byte>>)
    ensures Prepend(a, Prepend(b, o)) == Prepend(a + b, o)
  {
    if o.Some? {
      assert a + (b + o.value) == a + b + o.value;
    }
  }

  /** ethernet_addr_pton accepts every address written out in hexadecimal and gives back its octets. */
  lemma PtonOfFormat(mac: seq<byte>)
    requires |mac| == ETHERNET_ADDR_LEN
    ensures PtonFrom(Format(mac, 0), 0, 0) == Some(mac)
  {
    PtonReadsFormat(Format(mac, 0), 0, mac, 0);
  }

  // ---------------------------------------------------------------------
  // Receive and transmit

  /** The call the receive callback gets: the type field as the host loads it, the payload and its length. */
  datatype Delivery = Delivery(rawType: uint16, payload: seq<byte>, plen: nat)

  /**
   * ethernet_rx_helper on a frame of |frame| bytes: -1 (None) for a frame
   * shorter than the header or addressed neither to the device nor to
   * the broadcast address; otherwise the callback is called once with the
   * type field as the host loads it and the bytes after the header.
   */
  function RxHelper(littleEndianHost: bool, devAddr: seq<byte>, frame: seq<byte>): (r: Option<Delivery>)
    requires |devAddr| >= ETHERNET_ADDR_LEN
    ensures r.Some? <==>
      |frame| >= ETHERNET_HDR_SIZE
      && (frame[..ETHERNET_ADDR_LEN] == devAddr[..ETHERNET_ADDR_LEN] || frame[..ETHERNET_ADDR_LEN] == Broadcast())
    ensures r.Some? ==>
      r.value.plen == |frame| - ETHERNET_HDR_SIZE && r.value.payload == frame[ETHERNET_HDR_SIZE..]
      && r.value.rawType == Klib.HostLoad16(littleEndianHost, frame[12], frame[13])
  {
    if |frame| < ETHERNET_HDR_SIZE then None
    else if frame[..ETHERNET_ADDR_LEN] != devAddr[..ETHERNET_ADDR_LEN] && frame[..ETHERNET_ADDR_LEN] != Broadcast() then None
    else Some(Delivery(Klib.HostLoad16(littleEndianHost, frame[12], frame[13]),
                       frame[ETHERNET_HDR_SIZE..], |frame| - ETHERNET_HDR_SIZE))
  }

  /**
   * The frame ethernet_tx_helper hands the driver: destination, source,
   * the type in network order and the payload, padded with zeros to the
   * 46-byte minimum.
   */
  function Frame(dst: seq<byte>, src: seq<byte>, etherType: uint16, payload: seq<byte>): (f: seq<byte>)
    requires |dst| == ETHERNET_ADDR_LEN && |src| == ETHERNET_ADDR_LEN
    ensures |f| == ETHERNET_HDR_SIZE + Max(|payload|, ETHERNET_PAYLOAD_SIZE_MIN)
  {
    dst + src + Be16(etherType) + payload + Zeros(Max(|payload|, ETHERNET_PAYLOAD_SIZE_MIN) - |payload|)
  }

  /**
   * ethernet_tx_helper: -1 and no frame for a null payload, a payload over
   * 1500 bytes or a null destination; otherwise the driver is handed
   * Frame(...) and plen is returned exactly when the driver reports the
   * whole frame sent (xmitResult, what the driver returns).
   */
  method TxHelper(devAddr: seq<byte>, etherType: uint16, payload: Option<seq<byte>>, plen: nat,
                  dst: Option<seq<byte>>, xmitResult: int) returns (r: int, sent: Option<seq<byte>>)
    requires |devAddr| >= ETHERNET_ADDR_LEN
    requires payload.Some? ==> plen <= |payload.value|
    requires dst.Some? ==> |dst.value| >= ETHERNET_ADDR_LEN
    ensures payload.None? || plen > ETHERNET_PAYLOAD_SIZE_MAX || dst.None? ==> r == -1 && sent.None?
    ensures payload.Some? && plen <= ETHERNET_PAYLOAD_SIZE_MAX && dst.Some? ==>
      sent == Some(Frame(dst.value[..ETHERNET_ADDR_LEN], devAddr[..ETHERNET_ADDR_LEN], etherType, payload.value[..plen]))
      && r == if xmitResult == |sent.value| then plen else -1
  {
    if payload.None? || plen > ETHERNET_PAYLOAD_SIZE_MAX || dst.None? {
      return -1, None;
    }
    var frame := new byte[ETHERNET_FRAME_SIZE_MAX](_ => 0);
    var t := Be16(etherType);
    forall k | 0 <= k < ETHERNET_ADDR_LEN {
      frame[k] := dst.value[k];
    }
    forall k | 0 <= k < ETHERNET_ADDR_LEN {
      frame[ETHERNET_ADDR_LEN + k] := devAddr[k];
    }
    frame[12], frame[13] := t[0], t[1];
    forall k | 0 <= k < plen {
      frame[ETHERNET_HDR_SIZE + k] := payload.value[k];
    }
    var flen := ETHERNET_HDR_SIZE + (if plen < ETHERNET_PAYLOAD_SIZE_MIN then ETHERNET_PAYLOAD_SIZE_MIN else plen);
    ghost var f := Frame(dst.value[..ETHERNET_ADDR_LEN], devAddr[..ETHERNET_ADDR_LEN], etherType, payload.value[..plen]);
    assert |f| == flen;
    forall k | 0 <= k < flen
      ensures frame[k] == f[k]
    {
      if k < ETHERNET_HDR_SIZE {
      } else if k < ETHERNET_HDR_SIZE + plen {
        assert f[k] == payload.value[..plen][k - ETHERNET_HDR_SIZE];
      } else {
        assert f[k] == Zeros(Max(plen, ETHERNET_PAYLOAD_SIZE_MIN) - plen)[k - ETHERNET_HDR_SIZE - plen];
      }
    }
    assert frame[..flen] == f;
    sent := Some(frame[..flen]);
    r := if xmitResult == flen then plen else -1;
  }

  /**
   * What a device receives from a frame sent to it or to everyone: the
   * padded payload, and a type field that selects exactly the protocols
   * registered for the type the sender gave, on either byte order.
   */
  lemma TxThenRx(littleEndianHost: bool, devAddr: seq<byte>, dst: seq<byte>, src: seq<byte>, etherType: uint16, payload: seq<byte>)
    requires |devAddr| >= ETHERNET_ADDR_LEN && |src| == ETHERNET_ADDR_LEN
    requires dst == devAddr[..ETHERNET_ADDR_LEN] || dst == Broadcast()
    ensures var d := RxHelper(littleEndianHost, devAddr, Frame(dst, src, etherType, payload));
      d.Some? && d.value.payload[..|payload|] == payload
      && forall p: Net.Netproto :: Net.Matches(Klib.ByteOrder(littleEndianHost), p, d.value.rawType) <==> p.protoType == etherType
  {
    var f := Frame(dst, src, etherType, payload);
    assert f[..ETHERNET_ADDR_LEN] == dst;
    assert f[ETHERNET_HDR_SIZE..][..|payload|] == payload;
    var t := Be16(etherType);
    assert f[12] == t[0] && f[13] == t[1];
    forall p: Net.Netproto
      ensures Net.Matches(Klib.ByteOrder(littleEndianHost), p, Klib.HostLoad16(littleEndianHost, f[12], f[13])) <==> p.protoType == etherType
    {
      Net.MatchesNetworkOrder(littleEndianHost, p, f[12], f[13]);
    }
  }

  // ---------------------------------------------------------------------
  // Device setup

  /** ethernet_netdev_setup: an Ethernet device with a 1500-byte MTU that can broadcast. */
  method NetdevSetup(dev: Net.Netdev)
    modifies dev
    ensures dev.devType == Net.NETDEV_TYPE_ETHERNET && dev.mtu == ETHERNET_PAYLOAD_SIZE_MAX
    ensures dev.flags == Net.NETDEV_FLAG_BROADCAST && dev.hlen == ETHERNET_HDR_SIZE && dev.alen == ETHERNET_ADDR_LEN
    ensures unchanged(dev`index, dev`name, dev`addr, dev`broadcast, dev`ifs)
  {
    dev.devType := Net.NETDEV_TYPE_ETHERNET;
    dev.mtu := ETHERNET_PAYLOAD_SIZE_MAX;
    dev.flags := Net.NETDEV_FLAG_BROADCAST;
    dev.hlen := ETHERNET_HDR_SIZE;
    dev.alen := ETHERNET_ADDR_LEN;
  }
}
