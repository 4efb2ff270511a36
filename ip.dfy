/**
 * IPv4 (kernel/ip.c, with the structures of include/ip.h): the
 * dotted-quad parser, the 8-slot route table with longest-prefix lookup,
 * interface set-up, receive validation and dispatch, and the send path
 * that splits a payload into fragments of at most mtu - 20 bytes, as
 * section 3.1 of RFC 791 lays the header out.
 *
 * An ip_addr_t is held as the 32-bit number that ntoh32 reads from its
 * four bytes (byte 0 most significant). The source only ever ANDs, ORs, negates and
 * compares addresses for equality, which gives the same answers in any
 * byte order, and compares netmasks after ntoh32, which is this value.
 * The datagrams handed to the link layer are appended to a log; what the
 * link layer (ARP resolution and the driver) answers for each is a
 * parameter. The lock around the id counter is left out.
 */
module Ip {
  import opened Common
  import opened CText
  import opened Numerals
  import Klib
  import Net
  import Checksum

  const IP_ROUTE_TABLE_SIZE: nat := 8
  const IP_VERSION_IPV4: nat := 4
  const IP_ADDR_LEN: nat := 4
  const IP_HDR_SIZE_MIN: nat := 20
  const IP_HDR_SIZE_MAX: nat := 60
  const IP_PAYLOAD_SIZE_MAX: nat := 65515
  const IP_PROTOCOL_ICMP: byte := 0x01
  const IP_PROTOCOL_TCP: byte := 0x06
  const IP_PROTOCOL_UDP: byte := 0x11
  const IP_ADDR_ANY: uint32 := 0
  const IP_ADDR_BROADCAST: uint32 := 0xffff_ffff
  /** The size of ip_tx_core's local packet buffer. */
  const PACKET_BUFFER_SIZE: nat := 4096

  /** The address whose four bytes in memory are b. */
  function AddrOf(b: seq<byte>): (a: uint32)
    requires |b| == IP_ADDR_LEN
    ensures Be32(a) == b
  {
    GetBe32(b, 0)
  }

  /** Reading back the bytes of an address gives the address. */
  lemma AddrOfBytes(a: uint32)
    ensures AddrOf(Be32(a)) == a
  {
  }

  /** C's a & b: bit i is set where it is set in both, taken from the lowest bit up. */
  function And(a: nat, b: nat): (r: nat)
    ensures r <= a && r <= b
    decreases a
  {
    if a == 0 || b == 0 then 0
    else 2 * And(a / 2, b / 2) + (if a % 2 == 1 && b % 2 == 1 then 1 else 0)
  }

  /** C's a | b on 32-bit values, by De Morgan's law: the complement of the bits clear in both. */
  function Or(a: uint32, b: uint32): uint32
  {
    Not(And(Not(a), Not(b)))
  }

  /** C's ~a on a 32-bit value: every bit flipped. */
  function Not(a: uint32): uint32
  {
    0xffff_ffff - a
  }

  // ---------------------------------------------------------------------
  // ip_addr_pton

  /**
   * ip_addr_pton as written, over kernel/klib.c's strtol: that strtol
   * never writes the end pointer, so ep keeps whatever the uninitialised
   * local held; ep0 is that position and epChar the character *ep reads
   * there. Field 0 is accepted only when epChar is '.', and field 3 only
   * when it is NUL, so no string gets through all four rounds.
   */
  method AddrPtonAsWritten(p: seq<char>, n: array<byte>, ep0: nat, epChar: char) returns (r: int)
    requires n.Length >= IP_ADDR_LEN
    modifies n
    ensures r == -1
  {
    var sp := 0;
    var ep := ep0;
    var idx := 0;
    while idx < IP_ADDR_LEN
      invariant idx <= IP_ADDR_LEN && ep == ep0
      invariant idx > 0 ==> epChar == '.'
      invariant idx == IP_ADDR_LEN ==> epChar == '\0'
    {
      var ret, ep' := Klib.StrtolAsWritten(p, sp, ep, 10);
      ep := ep';
      if ret < 0 || ret > 255 {
        return -1;
      }
      if ep == sp {
        return -1;
      }
      if (idx == 3 && epChar != '\0') || (idx != 3 && epChar != '.') {
        return -1;
      }
      n[idx] := ret;
      sp := ep + 1;
      idx := idx + 1;
    }
    r := 0;
  }

  /**
   * What ip_addr_pton reads from position pos on, field idx of four, over
   * a strtol that reports its end position: a decimal field in 0..255
   * with at least one digit, then '.' after fields 0 to 2 and NUL after
   * field 3.
   */
  function PtonFrom(s: seq<char>, pos: nat, idx: nat): (r: Option<seq<byte>>)
    requires idx < IP_ADDR_LEN
    ensures r.Some? ==> |r.value| == IP_ADDR_LEN - idx
    decreases IP_ADDR_LEN - idx
  {
    var c := Strtol(s, pos, 10);
    if c.value < 0 || c.value > 255 || c.end == pos then None
    else if idx == 3 then
      if At(s, c.end) != '\0' then None else Some([c.value as byte])
    else if At(s, c.end) != '.' then None
    else match PtonFrom(s, c.end + 1, idx + 1)
      case None => None
      case Some(rest) => Some([c.value as byte] + rest)
  }

  /** The bytes parsed so far in front of what the rest of the string gives. */
  function Prepend(a: seq<byte>, o: Option<seq<byte>>): Option<seq<byte>>
  {
    if o.None? then None else Some(a + o.value)
  }

  /**
   * ip_addr_pton as evidently intended, with strtol setting the end
   * pointer: 0 and the four bytes in n[0..4) exactly when the string
   * reads as four '.'-separated decimal fields in 0..255; -1 otherwise.
   * A rejected string may leave the fields before the bad one written.
   */
  method AddrPton(p: seq<char>, n: array<byte>) returns (r: int)
    requires n.Length >= IP_ADDR_LEN
    modifies n
    ensures r == 0 || r == -1
    ensures r == 0 <==> PtonFrom(p, 0, 0).Some?
    ensures r == 0 ==> n[..IP_ADDR_LEN] == PtonFrom(p, 0, 0).value
    ensures n[IP_ADDR_LEN..] == old(n[IP_ADDR_LEN..])
  {
    var sp := 0;
    var idx := 0;
    ghost var got: seq<byte> := [];
    ghost var want := PtonFrom(p, 0, 0);
    PrependNothing(want);
    while idx < IP_ADDR_LEN
      invariant idx <= IP_ADDR_LEN && n[..idx] == got
      invariant n[IP_ADDR_LEN..] == old(n[IP_ADDR_LEN..])
      invariant idx < IP_ADDR_LEN ==> want == Prepend(got, PtonFrom(p, sp, idx))
      invariant idx == IP_ADDR_LEN ==> want == Some(got)
    {
      var ok, val, ep := ReadField(p, sp, idx);
      if !ok {
        return -1;
      }
      ghost var sp0, idx0, got0 := sp, idx, got;
      StoreField(n, idx, val, got);
      got := got + [val];
      sp := ep + 1;
      idx := idx + 1;
      PtonAdvance(p, sp0, idx0, val, ep, got0, want, got, sp, idx);
    }
    r := 0;
  }

  /** n[idx] := v after the idx bytes got: the first idx + 1 bytes are got and v, and the rest is kept. */
  method StoreField(n: array<byte>, idx: nat, v: byte, ghost got: seq<byte>)
    requires idx < IP_ADDR_LEN <= n.Length && n[..idx] == got
    modifies n
    ensures n[..idx + 1] == got + [v] && n[IP_ADDR_LEN..] == old(n[IP_ADDR_LEN..])
  {
    n[idx] := v;
    assert n[..idx + 1] == n[..idx] + [v];
  }

  /** One round of the loop of ip_addr_pton: strtol at sp, then the checks on the value and the character after it. */
  method ReadField(s: seq<char>, sp: nat, idx: nat) returns (ok: bool, v: byte, ep: nat)
    requires idx < IP_ADDR_LEN
    ensures !ok ==> PtonFrom(s, sp, idx).None?
    ensures ok && idx < 3 ==> PtonFrom(s, sp, idx) == Prepend([v], PtonFrom(s, ep + 1, idx + 1))
    ensures ok && idx == 3 ==> PtonFrom(s, sp, idx) == Some([v])
  {
    var c := Strtol(s, sp, 10);
    ep := c.end;
    if c.value < 0 || c.value > 255 || ep == sp || (idx == 3 && At(s, ep) != '\0') || (idx != 3 && At(s, ep) != '.') {
      return false, 0, ep;
    }
    ok, v := true, c.value;
    if idx < 3 {
      PtonField(s, sp, idx, v, ep);
    }
  }

  /** A field other than the last, read as v and followed by '.'. */
  lemma PtonField(s: seq<char>, sp: nat, idx: nat, v: byte, ep: nat)
    requires idx < 3 && Strtol(s, sp, 10) == Conversion(v, ep) && ep != sp && At(s, ep) == '.'
    ensures PtonFrom(s, sp, idx) == Prepend([v], PtonFrom(s, ep + 1, idx + 1))
  {
  }

  /** The loop invariant of ip_addr_pton carried over one round. */
  lemma PtonAdvance(s: seq<char>, sp: nat, idx: nat, v: byte, ep: nat, got: seq<byte>,
                    want: Option<seq<byte>>, got': seq<byte>, sp': nat, idx': nat)
    requires idx < IP_ADDR_LEN
    requires idx < 3 ==> PtonFrom(s, sp, idx) == Prepend([v], PtonFrom(s, ep + 1, idx + 1))
    requires idx == 3 ==> PtonFrom(s, sp, idx) == Some([v])
    requires want == Prepend(got, PtonFrom(s, sp, idx))
    requires got' == got + [v] && sp' == ep + 1 && idx' == idx + 1
    ensures idx' < IP_ADDR_LEN ==> want == Prepend(got', PtonFrom(s, sp', idx'))
    ensures idx' == IP_ADDR_LEN ==> want == Some(got')
  {
    if idx < 3 {
      PrependTwice(got, [v], PtonFrom(s, ep + 1, idx + 1));
    }
  }

  lemma PrependNothing(o: Option<seq<byte>>)
    ensures Prepend([], o) == o
  {
    if o.Some? {
      assert [] + o.value == o.value;
    }
  }

  lemma PrependTwice(a: seq<byte>, b: seq<byte>, o: Option<seq<byte>>)
    ensures Prepend(a, Prepend(b, o)) == Prepend(a + b, o)
  {
    if o.Some? {
      assert a + (b + o.value) == a + b + o.value;
    }
  }

  /** The address in dotted-decimal notation from byte k on, each byte without leading zeros. */
  function Dotted(b: seq<byte>, k: nat): seq<char>
    requires |b| == IP_ADDR_LEN && k < IP_ADDR_LEN
    decreases IP_ADDR_LEN - k
  {
    Digits(b[k], 10, true) + (if k == 3 then "" else "." + Dotted(b, k + 1))
  }

  /** The parser reads a dotted address back: the bytes from k on, wherever in s the text starts. */
  lemma {:induction false} PtonReadsDotted(s: seq<char>, pos: nat, b: seq<byte>, k: nat)
    requires |b| == IP_ADDR_LEN && k < IP_ADDR_LEN
    requires pos <= |s| && s[pos..] == Dotted(b, k)
    ensures PtonFrom(s, pos, k) == Some(b[k..])
    decreases IP_ADDR_LEN - k
  {
    if k < 3 {
      var next := PtonDottedStep(s, pos, b, k);
      PtonReadsDotted(s, next, b, k + 1);
      PrependHead(b, k, PtonFrom(s, next, k + 1));
    } else {
      PtonReadsLastDotted(s, pos, b);
    }
  }

  /** Byte k of a dotted address read, and the '.' after it: the rest spells bytes k + 1 on. */
  lemma PtonDottedStep(s: seq<char>, pos: nat, b: seq<byte>, k: nat) returns (next: nat)
    requires |b| == IP_ADDR_LEN && k < 3
    requires pos <= |s| && s[pos..] == Dotted(b, k)
    ensures next <= |s| && s[next..] == Dotted(b, k + 1)
    ensures PtonFrom(s, pos, k) == Prepend([b[k]], PtonFrom(s, next, k + 1))
  {
    var end := pos + |Digits(b[k], 10, true)|;
    next := end + 1;
    DottedSplit(s, pos, b, k, end, next);
    CText.StrtolReadsAt(s, pos, b[k], 10, end);
    PtonField(s, pos, k, b[k], end);
    assert PtonFrom(s, pos, k) == Prepend([b[k]], PtonFrom(s, end + 1, k + 1));
    assert next <= |s| && s[next..] == Dotted(b, k + 1);
  }

  lemma PrependHead(b: seq<byte>, k: nat, o: Option<seq<byte>>)
    requires k < |b| && o == Some(b[k + 1..])
    ensures Prepend([b[k]], o) == Some(b[k..])
  {
    assert b[k..] == [b[k]] + b[k + 1..];
  }

  /** Where the digits of byte k and the '.' after them sit in a dotted address. */
  lemma DottedSplit(s: seq<char>, pos: nat, b: seq<byte>, k: nat, end: nat, next: nat)
    requires |b| == IP_ADDR_LEN && k < 3
    requires pos <= |s| && s[pos..] == Dotted(b, k)
    requires end == pos + |Digits(b[k], 10, true)| && next == end + 1
    ensures end < |s| && s[pos..end] == Digits(b[k], 10, true) && At(s, end) == '.'
    ensures !IsDigitIn(At(s, end), 10)
    ensures next <= |s| && s[next..] == Dotted(b, k + 1)
  {
    var d := Digits(b[k], 10, true);
    assert s[pos..] == d + ("." + Dotted(b, k + 1));
    assert s[pos..end] == s[pos..][..|d|];
    assert s[end] == s[pos..][|d|];
    assert s[next..] == s[pos..][|d| + 1..];
  }

  lemma PtonLastField(s: seq<char>, sp: nat, v: byte, ep: nat, w: seq<byte>)
    requires Strtol(s, sp, 10) == Conversion(v, ep) && ep != sp && At(s, ep) == '\0' && w == [v]
    ensures PtonFrom(s, sp, 3) == Some(w)
  {
  }

  /** The last byte of a dotted address, followed by the end of the string. */
  lemma PtonReadsLastDotted(s: seq<char>, pos: nat, b: seq<byte>)
    requires |b| == IP_ADDR_LEN
    requires pos <= |s| && s[pos..] == Dotted(b, 3)
    ensures PtonFrom(s, pos, 3) == Some(b[3..])
  {
    var d := Digits(b[3], 10, true);
    var end := pos + |d|;
    assert Dotted(b, 3) == d;
    assert |s| == end;
    assert s[pos..end] == d;
    assert At(s, end) == '\0';
    CText.StrtolReadsAt(s, pos, b[3], 10, end);
    LastOfFour(b);
    PtonLastField(s, pos, b[3], end, b[3..]);
  }

  lemma LastOfFour(b: seq<byte>)
    requires |b| == IP_ADDR_LEN
    ensures b[3..] == [b[3]]
  {
  }

  /** ip_addr_pton accepts every address in dotted-decimal notation and gives back its bytes. */
  lemma PtonOfDotted(b: seq<byte>)
    requires |b| == IP_ADDR_LEN
    ensures PtonFrom(Dotted(b, 0), 0, 0) == Some(b)
  {
    PtonReadsDotted(Dotted(b, 0), 0, b, 0);
  }

  // ---------------------------------------------------------------------
  // Routes

  /** struct ip_route; a slot keeps its other fields when it is marked unused. */
  datatype Route = Route(used: bool, network: uint32, netmask: uint32, nexthop: uint32, netif: Net.Netif?)

  /** The slot is a route to dst, through the given interface when one is given. */
  predicate Matching(r: Route, netif: Net.Netif?, dst: uint32)
  {
    r.used && And(dst, r.netmask) == r.network && (netif == null || r.netif == netif)
  }

  /**
   * What ip_route_lookup answers: slot k is a matching route whose
   * netmask no matching route exceeds, and every matching route before
   * it has a strictly smaller netmask (the first of the longest prefixes).
   */
  predicate Best(rs: seq<Route>, netif: Net.Netif?, dst: uint32, k: nat)
  {
    BestAmong(rs, |rs|, netif, dst, k)
  }

  /** Slot k is the best route among the first n slots. */
  predicate BestAmong(rs: seq<Route>, n: nat, netif: Net.Netif?, dst: uint32, k: nat)
  {
    k < n <= |rs| && Matching(rs[k], netif, dst)
    && (forall j :: 0 <= j < n && Matching(rs[j], netif, dst) ==> rs[j].netmask <= rs[k].netmask)
    && (forall j :: 0 <= j < k && Matching(rs[j], netif, dst) ==> rs[j].netmask < rs[k].netmask)
  }

  /** The loop of ip_route_lookup from slot k on, with the candidate found so far. */
  function LookupFrom(rs: seq<Route>, netif: Net.Netif?, dst: uint32, k: nat, cand: Option<nat>): Option<nat>
    decreases |rs| - k
  {
    if k >= |rs| then cand
    else if Matching(rs[k], netif, dst) && (cand.None? || (cand.value < |rs| && rs[cand.value].netmask < rs[k].netmask))
    then LookupFrom(rs, netif, dst, k + 1, Some(k))
    else LookupFrom(rs, netif, dst, k + 1, cand)
  }

  /** ip_route_lookup over the table rs: the slot of the route chosen, or None for a null result. */
  function Lookup(rs: seq<Route>, netif: Net.Netif?, dst: uint32): Option<nat>
  {
    LookupFrom(rs, netif, dst, 0, None)
  }

  /**
   * ip_netif_by_peer on the table rs: the interface of the best route to
   * peer through any interface, null when none matches. The best route is
   * unique, so whenever one exists its interface is the answer.
   */
  function ByPeer(rs: seq<Route>, peer: uint32): (r: Net.Netif?)
    ensures (forall j :: 0 <= j < |rs| ==> !Matching(rs[j], null, peer)) ==> r == null
    ensures r != null ==> exists k: nat :: Best(rs, null, peer, k) && r == rs[k].netif
    ensures forall k: nat :: Best(rs, null, peer, k) ==> r == rs[k].netif
  {
    LookupIsBest(rs, null, peer);
    BestIsLookup(rs, null, peer);
    match Lookup(rs, null, peer)
    case None => null
    case Some(k) => rs[k].netif
  }

  /** Any best route is the one the lookup returns. */
  lemma BestIsLookup(rs: seq<Route>, netif: Net.Netif?, dst: uint32)
    ensures forall k: nat :: Best(rs, netif, dst, k) ==> Lookup(rs, netif, dst) == Some(k)
  {
    LookupIsBest(rs, netif, dst);
    forall k: nat | Best(rs, netif, dst, k)
      ensures Lookup(rs, netif, dst) == Some(k)
    {
      BestIsUnique(rs, netif, dst, Lookup(rs, netif, dst).value, k);
    }
  }

  /** The candidate is the best route among the first k slots. */
  predicate BestSoFar(rs: seq<Route>, netif: Net.Netif?, dst: uint32, k: nat, cand: Option<nat>)
    requires k <= |rs|
  {
    (cand.None? ==> forall j :: 0 <= j < k ==> !Matching(rs[j], netif, dst))
    && (cand.Some? ==> BestAmong(rs, k, netif, dst, cand.value))
  }

  /** The lookup yields the best route, and nothing exactly when no slot matches. */
  lemma LookupIsBest(rs: seq<Route>, netif: Net.Netif?, dst: uint32)
    ensures var r := Lookup(rs, netif, dst);
      (r.None? <==> forall j :: 0 <= j < |rs| ==> !Matching(rs[j], netif, dst))
      && (r.Some? ==> Best(rs, netif, dst, r.value))
  {
    LookupFromIsBest(rs, netif, dst, 0, None);
  }

  lemma {:induction false} LookupFromIsBest(rs: seq<Route>, netif: Net.Netif?, dst: uint32, k: nat, cand: Option<nat>)
    requires k <= |rs| && BestSoFar(rs, netif, dst, k, cand)
    ensures BestSoFar(rs, netif, dst, |rs|, LookupFrom(rs, netif, dst, k, cand))
    decreases |rs| - k
  {
    if k < |rs| {
      var next := if Matching(rs[k], netif, dst) && (cand.None? || (cand.value < |rs| && rs[cand.value].netmask < rs[k].netmask))
        then Some(k) else cand;
      BestSoFarStep(rs, netif, dst, k, cand, next);
      LookupFromIsBest(rs, netif, dst, k + 1, next);
    }
  }

  lemma BestSoFarStep(rs: seq<Route>, netif: Net.Netif?, dst: uint32, k: nat, cand: Option<nat>, next: Option<nat>)
    requires k < |rs| && BestSoFar(rs, netif, dst, k, cand)
    requires next == if Matching(rs[k], netif, dst) && (cand.None? || (cand.value < |rs| && rs[cand.value].netmask < rs[k].netmask))
      then Some(k) else cand
    ensures BestSoFar(rs, netif, dst, k + 1, next)
  {
  }

  /** Two slots that are both best routes are the same slot. */
  lemma BestIsUnique(rs: seq<Route>, netif: Net.Netif?, dst: uint32, k1: nat, k2: nat)
    requires Best(rs, netif, dst, k1) && Best(rs, netif, dst, k2)
    ensures k1 == k2
  {
  }

  /** The first unused slot, or |rs| when every slot is used. */
  function FirstUnused(rs: seq<Route>): (k: nat)
    ensures k <= |rs| && (k < |rs| ==> !rs[k].used)
    ensures forall j :: 0 <= j < k ==> rs[j].used
  {
    if rs == [] then 0
    else if !rs[0].used then 0
    else 1 + FirstUnused(rs[1..])
  }

  /** A slot after ip_route_del(netif): unused if it was a route of netif, as it was otherwise. */
  function Deleted(r: Route, netif: Net.Netif?): (d: Route)
  {
    if r.used && r.netif == netif then r.(used := false) else r
  }

  /** No route of the interface is left after ip_route_del, and every other slot is as it was. */
  lemma DeleteRemovesOnly(rs: seq<Route>, netif: Net.Netif?, dst: uint32)
    ensures var rs' := seq(|rs|, k requires 0 <= k < |rs| => Deleted(rs[k], netif));
      (forall k :: 0 <= k < |rs| ==> !(rs'[k].used && rs'[k].netif == netif))
      && (forall k :: 0 <= k < |rs| && rs[k].netif != netif ==> rs'[k] == rs[k])
      && (forall k, i :: 0 <= k < |rs| && Best(rs', i, dst, k) ==> rs'[k].netif != netif)
  {
  }

  /** The slot ip_route_add fills, if that route matches dst, makes the lookup succeed with a netmask at least its own. */
  lemma AddedRouteIsFound(rs: seq<Route>, r: Route, dst: uint32)
    requires FirstUnused(rs) < |rs| && Matching(r, null, dst)
    ensures var rs' := rs[FirstUnused(rs) := r];
      Lookup(rs', null, dst).Some? && var k := Lookup(rs', null, dst).value; k < |rs'| && rs'[k].netmask >= r.netmask
  {
    var rs' := rs[FirstUnused(rs) := r];
    LookupIsBest(rs', null, dst);
    assert Matching(rs'[FirstUnused(rs)], null, dst);
  }

  /** struct ip_protocol: a protocol number and its handler. */
  datatype Protocol = Protocol(protoType: byte, handler: Net.Handler)

  /** The handler of the first entry with the protocol number, as ip_rx's loop finds it. */
  function FirstProtocol(ps: seq<Protocol>, t: byte): (h: Option<Net.Handler>)
    ensures h.None? <==> forall k :: 0 <= k < |ps| ==> ps[k].protoType != t
    ensures h.Some? ==> exists k :: (0 <= k < |ps| && ps[k] == Protocol(t, h.value)
      && forall j :: 0 <= j < k ==> ps[j].protoType != t)
  {
    if ps == [] then None
    else if ps[0].protoType == t then Some(ps[0].handler)
    else
      var h := FirstProtocol(ps[1..], t);
      assert h.Some? ==> exists k :: (0 <= k < |ps| - 1 && ps[1..][k] == Protocol(t, h.value)
        && forall j :: 0 <= j < k ==> ps[1..][j].protoType != t);
      assert forall k :: 0 <= k < |ps| - 1 ==> ps[1..][k] == ps[k + 1];
      h
  }

  /** The handler put in front of the list by ip_add_protocol is the one its number finds. */
  lemma NewestProtocolWins(ps: seq<Protocol>, t: byte, h: Net.Handler)
    ensures FirstProtocol([Protocol(t, h)] + ps, t) == Some(h)
  {
  }

  // ---------------------------------------------------------------------
  // Datagrams

  /**
   * The 20 header bytes ip_tx_core writes, each 16-bit field through
   * hton16 (so in network order): version 4 with a 5-word header, type of
   * service 0, the total length, the id, the flags and fragment offset,
   * TTL 255, the protocol, the checksum field, and the two addresses.
   */
  function Header(protocol: byte, total: uint16, id: uint16, offset: uint16, sum: uint16, src: uint32, dst: uint32): (h: seq<byte>)
    ensures |h| == IP_HDR_SIZE_MIN
  {
    [0x45, 0] + Be16(total) + Be16(id) + Be16(offset) + [0xff, protocol] + Be16(sum) + Be32(src) + Be32(dst)
  }

  /** The header with the checksum cksum16 computes over it with the sum field 0. */
  function Sealed(protocol: byte, total: uint16, id: uint16, offset: uint16, src: uint32, dst: uint32): (h: seq<byte>)
    ensures |h| == IP_HDR_SIZE_MIN
  {
    Header(protocol, total, id, offset, Checksum.Cksum16(Header(protocol, total, id, offset, 0, src, dst), 0), src, dst)
  }

  /** The datagram ip_tx_core hands to the link layer: the sealed header, then the payload. */
  function Datagram(protocol: byte, payload: seq<byte>, id: uint16, offset: uint16, src: uint32, dst: uint32): (d: seq<byte>)
    requires |payload| <= PACKET_BUFFER_SIZE - IP_HDR_SIZE_MIN
    ensures |d| == IP_HDR_SIZE_MIN + |payload| && d[IP_HDR_SIZE_MIN..] == payload
  {
    Sealed(protocol, IP_HDR_SIZE_MIN + |payload|, id, offset, src, dst) + payload
  }

  /** Filling the checksum field is writing its two bytes into the header taken with the field zero. */
  lemma HeaderSum(protocol: byte, total: uint16, id: uint16, offset: uint16, sum: uint16, src: uint32, dst: uint32)
    ensures var h := Header(protocol, total, id, offset, 0, src, dst);
      h[10] == 0 && h[11] == 0
      && Header(protocol, total, id, offset, sum, src, dst) == h[10 := sum / 256][11 := sum % 256]
  {
  }

  /** A sealed header sums to a checksum of 0, as ip_rx demands. */
  lemma SealedVerifies(protocol: byte, total: uint16, id: uint16, offset: uint16, src: uint32, dst: uint32)
    ensures Checksum.Cksum16(Sealed(protocol, total, id, offset, src, dst), 0) == 0
  {
    var h := Header(protocol, total, id, offset, 0, src, dst);
    var sum := Checksum.Cksum16(h, 0);
    HeaderSum(protocol, total, id, offset, sum, src, dst);
    Checksum.CompletedChecksumVerifies(h, 10, 0);
  }

  /** The fields ip_rx reads back from a sealed header. */
  lemma SealedFields(h: seq<byte>, protocol: byte, total: uint16, id: uint16, offset: uint16, src: uint32, dst: uint32)
    requires h == Sealed(protocol, total, id, offset, src, dst)
    ensures h[0] == 0x45 && h[8] == 0xff && h[9] == protocol
    ensures GetBe16(h, 2) == total && GetBe16(h, 6) == offset
    ensures AddrOf(h[12..16]) == src && AddrOf(h[16..20]) == dst
    ensures Checksum.Cksum16(h, 0) == 0
  {
    var sum := Checksum.Cksum16(Header(protocol, total, id, offset, 0, src, dst), 0);
    HeaderFields(h, protocol, total, id, offset, sum, src, dst);
    SealedVerifies(protocol, total, id, offset, src, dst);
  }

  /** What ip_rx takes from a header it accepts. */
  datatype Accepted = Accepted(hlen: nat, plen: uint32, src: uint32, dst: uint32, protocol: byte)

  /** The MF flag or a nonzero fragment offset: offset & 0x2000 || offset & 0x1fff. */
  predicate IsFragment(offset: uint16)
  {
    (offset / 0x2000) % 2 == 1 || offset % 0x2000 != 0
  }

  /**
   * The checks of ip_rx, in its order, on a datagram of |d| bytes for an
   * interface with the given addresses: at least 20 bytes, version 4, no
   * shorter than the header length (4 * IHL) or the total length, a
   * header checksum of 0, a live TTL, a destination that is the unicast,
   * the interface broadcast or 255.255.255.255, and no fragment. The
   * payload length is the total length less the header length in
   * uint32 arithmetic.
   */
  function RxCheck(d: seq<byte>, unicast: uint32, broadcast: uint32): (a: Option<Accepted>)
    ensures a.Some? ==> a.value.hlen <= |d|
  {
    if |d| < IP_HDR_SIZE_MIN then None
    else if d[0] / 16 != IP_VERSION_IPV4 then None
    else
      var hlen := (d[0] % 16) * 4;
      var total := GetBe16(d, 2);
      if |d| < hlen || |d| < total then None
      else if Checksum.Cksum16(d[..hlen], 0) != 0 then None
      else if d[8] == 0 then None
      else
        var dst := AddrOf(d[16..20]);
        if dst != unicast && dst != broadcast && dst != IP_ADDR_BROADCAST then None
        else if IsFragment(GetBe16(d, 6)) then None
        else Some(Accepted(hlen, (total - hlen) % U32, AddrOf(d[12..16]), dst, d[9]))
  }

  /** Every datagram that fails one of ip_rx's checks is dropped. */
  lemma RxRejects(d: seq<byte>, unicast: uint32, broadcast: uint32)
    requires |d| < IP_HDR_SIZE_MIN
      || (d[0] / 16 != IP_VERSION_IPV4)
      || (|d| < (d[0] % 16) * 4 || |d| < GetBe16(d, 2))
      || (|d| >= (d[0] % 16) * 4 && Checksum.Cksum16(d[..(d[0] % 16) * 4], 0) != 0)
      || d[8] == 0
      || (AddrOf(d[16..20]) != unicast && AddrOf(d[16..20]) != broadcast && AddrOf(d[16..20]) != IP_ADDR_BROADCAST)
      || IsFragment(GetBe16(d, 6))
    ensures RxCheck(d, unicast, broadcast).None?
  {
  }

  /** A datagram that passes every check of ip_rx is accepted with its header length, payload length, addresses and protocol. */
  lemma RxAccepts(d: seq<byte>, unicast: uint32, broadcast: uint32, hlen: nat, total: uint16, dst: uint32)
    requires |d| >= IP_HDR_SIZE_MIN && d[0] / 16 == IP_VERSION_IPV4
    requires hlen == (d[0] % 16) * 4 && total == GetBe16(d, 2) && hlen <= |d| && total <= |d|
    requires Checksum.Cksum16(d[..hlen], 0) == 0 && d[8] != 0
    requires dst == AddrOf(d[16..20]) && (dst == unicast || dst == broadcast || dst == IP_ADDR_BROADCAST)
    requires !IsFragment(GetBe16(d, 6))
    ensures RxCheck(d, unicast, broadcast) == Some(Accepted(hlen, (total - hlen) % U32, AddrOf(d[12..16]), dst, d[9]))
  {
  }

  /** The fields ip_rx reads back from a header ip_tx_core wrote. */
  lemma HeaderFields(h: seq<byte>, protocol: byte, total: uint16, id: uint16, offset: uint16, sum: uint16, src: uint32, dst: uint32)
    requires h == Header(protocol, total, id, offset, sum, src, dst)
    ensures h[0] == 0x45 && h[8] == 0xff && h[9] == protocol
    ensures GetBe16(h, 2) == total && GetBe16(h, 6) == offset
    ensures AddrOf(h[12..16]) == src && AddrOf(h[16..20]) == dst
  {
    var front := [0x45, 0] + Be16(total) + Be16(id) + Be16(offset) + [0xff, protocol] + Be16(sum);
    var a, b := Be32(src), Be32(dst);
    assert |front| == 12 && h == front + a + b;
    assert h[2..4] == Be16(total) && h[6..8] == Be16(offset);
    assert h[12..16] == a by {
      assert forall k :: 0 <= k < 4 ==> h[12 + k] == a[k];
    }
    assert h[16..20] == b by {
      assert forall k :: 0 <= k < 4 ==> h[16 + k] == b[k];
    }
    AddrOfBytes(src);
    AddrOfBytes(dst);
  }

  /**
   * A datagram built by ip_tx_core for a destination it is sent to,
   * unfragmented, passes every check of ip_rx, which hands on its
   * payload, its length, its addresses and its protocol.
   */
  lemma TxThenRx(protocol: byte, payload: seq<byte>, id: uint16, src: uint32, dst: uint32, broadcast: uint32)
    requires |payload| <= PACKET_BUFFER_SIZE - IP_HDR_SIZE_MIN
    ensures var d := Datagram(protocol, payload, id, 0, src, dst);
      RxCheck(d, dst, broadcast) == Some(Accepted(IP_HDR_SIZE_MIN, |payload|, src, dst, protocol))
      && d[IP_HDR_SIZE_MIN..] == payload
  {
    var d := Datagram(protocol, payload, id, 0, src, dst);
    var total := IP_HDR_SIZE_MIN + |payload|;
    var h := Sealed(protocol, total, id, 0, src, dst);
    SealedFields(h, protocol, total, id, 0, src, dst);
    assert d[..IP_HDR_SIZE_MIN] == h;
    assert d[0] == h[0] && d[8] == h[8] && d[9] == h[9];
    assert GetBe16(d, 2) == GetBe16(h, 2) && GetBe16(d, 6) == GetBe16(h, 6);
    assert d[12..16] == h[12..16] && d[16..20] == h[16..20];
    RxAccepts(d, dst, broadcast, IP_HDR_SIZE_MIN, total, dst);
  }

  /**
   * ip_rx checks that the datagram holds the total length but not that
   * the total length covers the header: a sealed header whose total
   * length field is 0 is accepted, and its handler is told of 2^32 - 20
   * payload bytes after a datagram of 20.
   */
  lemma RxShortTotalLengthWraps(protocol: byte, id: uint16, src: uint32, dst: uint32, broadcast: uint32)
    ensures var d := Sealed(protocol, 0, id, 0, src, dst);
      RxCheck(d, dst, broadcast) == Some(Accepted(IP_HDR_SIZE_MIN, U32 - IP_HDR_SIZE_MIN, src, dst, protocol))
      && IP_HDR_SIZE_MIN + (U32 - IP_HDR_SIZE_MIN) > |d|
  {
    var d := Sealed(protocol, 0, id, 0, src, dst);
    SealedFields(d, protocol, 0, id, 0, src, dst);
    assert d[..IP_HDR_SIZE_MIN] == d;
    RxAccepts(d, dst, broadcast, IP_HDR_SIZE_MIN, 0, dst);
  }

  /** ip_rx's checks with the one that is missing: a total length shorter than the header is refused too. */
  function RxCheckIntended(d: seq<byte>, unicast: uint32, broadcast: uint32): (a: Option<Accepted>)
    ensures a.Some? ==> a.value.hlen + a.value.plen <= |d|
    ensures |d| >= IP_HDR_SIZE_MIN && GetBe16(d, 2) >= (d[0] % 16) * 4 ==> a == RxCheck(d, unicast, broadcast)
  {
    if |d| >= IP_HDR_SIZE_MIN && GetBe16(d, 2) < (d[0] % 16) * 4 then None
    else RxCheck(d, unicast, broadcast)
  }

  // ---------------------------------------------------------------------
  // The state of the IP layer

  /** A call of a protocol handler by ip_rx: the payload from the header's end, its length, the addresses and the interface. */
  datatype Delivery = Delivery(handler: Net.Handler, payload: seq<byte>, plen: uint32, src: uint32, dst: uint32, netif: Net.Netif)

  /**
   * One datagram handed to ip_tx_netdev: the interface, what ip_tx_core
   * fills the header from, the payload, and the next hop (None: the link
   * broadcast). Its bytes are Wire(p).
   */
  datatype Packet = Packet(netif: Net.Netif, protocol: byte, payload: seq<byte>, id: uint16, offset: uint16,
                           src: uint32, dst: uint32, nexthop: Option<uint32>)

  /** The bytes of the packet ip_tx_core builds: the sealed header and the payload after it. */
  function Wire(p: Packet): seq<byte>
    requires |p.payload| <= PACKET_BUFFER_SIZE - IP_HDR_SIZE_MIN
  {
    Datagram(p.protocol, p.payload, p.id, p.offset, p.src, p.dst)
  }

  /** How ip_tx sends: the interface, the source address given to ip_tx_core (None: the interface's own) and the next hop. */
  datatype Plan = NoRoute | Plan(out: Net.Netif, src: Option<uint32>, nexthop: Option<uint32>)

  /**
   * The choice at the top of ip_tx: a datagram to 255.255.255.255 with an
   * interface given goes out on it as a link broadcast; anything else
   * follows ip_route_lookup(NULL, dst), taking the interface's address as
   * the source when an interface was given, and the route's next hop, or
   * dst itself for a route without one.
   */
  function PlanOf(rs: seq<Route>, netif: Net.Netif?, unicast: uint32, dst: uint32): (p: Plan)
    requires RoutesValid(rs)
    ensures p.Plan? && p.nexthop.None? <==> netif != null && dst == IP_ADDR_BROADCAST
    ensures p.NoRoute? <==>
      !(netif != null && dst == IP_ADDR_BROADCAST) && forall j :: 0 <= j < |rs| ==> !Matching(rs[j], null, dst)
  {
    LookupIsBest(rs, null, dst);
    if netif != null && dst == IP_ADDR_BROADCAST then Plan(netif, None, None)
    else match Lookup(rs, null, dst)
      case None => NoRoute
      case Some(k) =>
        Plan(rs[k].netif, if netif != null then Some(unicast) else None,
             Some(if rs[k].nexthop != IP_ADDR_ANY then rs[k].nexthop else dst))
  }

  /** Every used slot names an interface: ip_route_add is only ever given one. */
  predicate RoutesValid(rs: seq<Route>)
  {
    forall k :: 0 <= k < |rs| && rs[k].used ==> rs[k].netif != null
  }

  /** A stretch of the payload: where it starts and how many bytes it has. */
  datatype Chunk = Chunk(start: nat, size: nat)

  /** The loop of ip_tx from done on: stretches of MIN(len - done, room) bytes until len is reached. */
  function Chunks(len: nat, done: nat, room: nat): (cs: seq<Chunk>)
    requires room > 0
    decreases len - done
  {
    if done >= len then [] else
    var size := Min(len - done, room);
    [Chunk(done, size)] + Chunks(len, done + size, room)
  }

  /** No stretch is empty, above room or past len, and the first starts at done. */
  lemma {:induction false} ChunksBounded(len: nat, done: nat, room: nat)
    requires room > 0 && done <= len
    ensures var cs := Chunks(len, done, room);
      (cs == [] <==> done == len) && (cs != [] ==> cs[0].start == done)
      && forall i :: 0 <= i < |cs| ==> done <= cs[i].start && 0 < cs[i].size <= room && cs[i].start + cs[i].size <= len
    decreases len - done
  {
    if done < len {
      var size := Min(len - done, room);
      ChunksBounded(len, done + size, room);
      ChunksTail(len, done, room);
    }
  }

  /** Each stretch after the first is one of the stretches from where the first ends. */
  lemma ChunksTail(len: nat, done: nat, room: nat)
    requires room > 0 && done < len
    ensures var cs := Chunks(len, done, room); var size := Min(len - done, room);
      cs[0] == Chunk(done, size) && cs[1..] == Chunks(len, done + size, room)
  {
  }

  /**
   * The stretches follow one another: each starts where the one before
   * ended, all but the last are exactly room bytes long, and the last
   * ends at len.
   */
  lemma {:induction false} ChunksAdjacent(len: nat, done: nat, room: nat)
    requires room > 0 && done <= len
    ensures var cs := Chunks(len, done, room);
      (cs != [] ==> cs[|cs| - 1].start + cs[|cs| - 1].size == len)
      && forall i :: 0 <= i < |cs| - 1 ==> cs[i + 1].start == cs[i].start + cs[i].size && cs[i].size == room
    decreases len - done
  {
    if done < len {
      var size := Min(len - done, room);
      ChunksAdjacent(len, done + size, room);
      ChunksBounded(len, done + size, room);
      ChunksTail(len, done, room);
    }
  }

  predicate ChunksFit(buf: seq<byte>, cs: seq<Chunk>)
  {
    forall i :: 0 <= i < |cs| ==> cs[i].start + cs[i].size <= |buf|
  }

  /**
   * The flags and fragment offset of a stretch: MF when more of the
   * payload follows, and the offset in 8-byte units, cut to 13 bits
   * (flag | ((done >> 3) & 0x1fff), whose two parts share no bit).
   */
  function FragmentField(c: Chunk, len: nat): uint16
  {
    (if c.start + c.size < len then 0x2000 else 0) + (c.start / 8) % 0x2000
  }

  /** ip_rx takes a datagram with this field for a fragment exactly when more follows or the offset is not 0. */
  lemma FragmentFieldFlags(c: Chunk, len: nat)
    ensures IsFragment(FragmentField(c, len)) <==> c.start + c.size < len || c.start / 8 % 0x2000 != 0
  {
  }

  /**
   * What ip_tx hands every ip_tx_core call besides the stretch: the
   * interface, the protocol, the payload buffer and its length, the
   * payload room per datagram, the source and destination, the id and the
   * next hop.
   */
  datatype Send = Send(out: Net.Netif, protocol: byte, buf: seq<byte>, len: nat, room: nat, src: uint32, dst: uint32,
                       id: uint16, nexthop: Option<uint32>)

  predicate SendOk(j: Send)
  {
    j.len <= |j.buf| && 0 < j.room <= PACKET_BUFFER_SIZE - IP_HDR_SIZE_MIN
  }

  /** The datagram for the stretch c of the payload. */
  function FragmentPacket(j: Send, c: Chunk): Packet
  {
    Packet(j.out, j.protocol, Slice(j.buf, c), j.id, FragmentField(c, j.len), j.src, j.dst, j.nexthop)
  }

  /** The bytes of the stretch c of buf (none for a stretch past its end, which ip_tx never forms). */
  function Slice(buf: seq<byte>, c: Chunk): seq<byte>
  {
    if c.start + c.size <= |buf| then buf[c.start..c.start + c.size] else []
  }

  /**
   * The stretches the loop of ip_tx sends from done on, refused holding
   * the rounds whose datagram ip_tx_netdev answers with -1: each in turn,
   * up to and including the first refused one.
   */
  function SentChunks(len: nat, room: nat, refused: set<nat>, done: nat, i: nat): (cs: seq<Chunk>)
    requires room > 0
    decreases len - done
  {
    if done >= len then [] else
    var size := Min(len - done, room);
    [Chunk(done, size)] + (if i in refused then [] else SentChunks(len, room, refused, done + size, i + 1))
  }

  /** Whether the loop of ip_tx gives up from done on: one of its datagrams is answered with -1. */
  predicate FailsFrom(len: nat, room: nat, refused: set<nat>, done: nat, i: nat)
    requires room > 0
    decreases len - done
  {
    done < len && (i in refused || FailsFrom(len, room, refused, done + Min(len - done, room), i + 1))
  }

  /** The datagrams for the stretches cs, in order. */
  function Packets(j: Send, cs: seq<Chunk>): (ps: seq<Packet>)
    ensures |ps| == |cs|
  {
    if cs == [] then [] else [FragmentPacket(j, cs[0])] + Packets(j, cs[1..])
  }

  /** The k-th datagram is the one for the k-th stretch. */
  lemma {:induction false} PacketsAt(j: Send, cs: seq<Chunk>)
    ensures forall k :: 0 <= k < |cs| ==> Packets(j, cs)[k] == FragmentPacket(j, cs[k])
  {
    if cs != [] {
      PacketsAt(j, cs[1..]);
      assert forall k :: 0 < k < |cs| ==> Packets(j, cs)[k] == Packets(j, cs[1..])[k - 1];
    }
  }

  /** The datagram ip_tx_core is handed in the round at done is the one for the stretch at done. */
  lemma RoundPacket(j: Send, done: nat, offset: uint16)
    requires SendOk(j) && done < j.len
    requires offset == (if done + Min(j.len - done, j.room) < j.len then 0x2000 else 0) + (done / 8) % 0x2000
    ensures var size := Min(j.len - done, j.room);
      FragmentPacket(j, Chunk(done, size)) == Packet(j.out, j.protocol, j.buf[done..][..size], j.id, offset, j.src, j.dst, j.nexthop)
  {
    var size := Min(j.len - done, j.room);
    assert FragmentField(Chunk(done, size), j.len) == offset;
    assert j.buf[done..][..size] == j.buf[done..done + size];
  }

  /** One round of the loop of ip_tx: the datagram for the stretch at done, then the rest unless it was refused. */
  lemma RoundRest(j: Send, refused: set<nat>, done: nat, i: nat)
    requires SendOk(j) && done < j.len
    ensures i in refused ==>
      Packets(j, SentChunks(j.len, j.room, refused, done, i)) == [FragmentPacket(j, Chunk(done, Min(j.len - done, j.room)))]
    ensures var size := Min(j.len - done, j.room); i !in refused ==>
      Packets(j, SentChunks(j.len, j.room, refused, done, i))
        == [FragmentPacket(j, Chunk(done, size))] + Packets(j, SentChunks(j.len, j.room, refused, done + size, i + 1))
    ensures var size := Min(j.len - done, j.room);
      FailsFrom(j.len, j.room, refused, done, i) == (i in refused || FailsFrom(j.len, j.room, refused, done + size, i + 1))
  {
    var size := Min(j.len - done, j.room);
    var sc := SentChunks(j.len, j.room, refused, done, i);
    assert sc == [Chunk(done, size)] + (if i in refused then [] else SentChunks(j.len, j.room, refused, done + size, i + 1));
    assert sc[1..] == (if i in refused then [] else SentChunks(j.len, j.room, refused, done + size, i + 1));
  }

  /** A round the link accepted: what was sent so far grows by its datagram, and the rest starts after its stretch. */
  lemma RoundGoesOn(j: Send, refused: set<nat>, done: nat, i: nat, base: seq<Packet>, all: seq<Packet>, before: seq<Packet>,
                    after: seq<Packet>, size: nat)
    requires SendOk(j) && done < j.len && i !in refused && size == Min(j.len - done, j.room)
    requires base + all == before + Packets(j, SentChunks(j.len, j.room, refused, done, i))
    requires after == before + [FragmentPacket(j, Chunk(done, size))]
    ensures 0 < size && done + size <= j.len
    ensures base + all == after + Packets(j, SentChunks(j.len, j.room, refused, done + size, i + 1))
    ensures FailsFrom(j.len, j.room, refused, done, i) == FailsFrom(j.len, j.room, refused, done + size, i + 1)
  {
    var frag := [FragmentPacket(j, Chunk(done, size))];
    var rest := Packets(j, SentChunks(j.len, j.room, refused, done + size, i + 1));
    RoundRest(j, refused, done, i);
    var sent := Packets(j, SentChunks(j.len, j.room, refused, done, i));
    assert sent == frag + rest;
    calc {
      base + all;
    ==
      before + (frag + rest);
    == { ConcatAssoc(before, frag, rest); }
      after + rest;
    }
  }

  /**
   * The loop of ip_tx at done, in round i: what went to the link since
   * base, followed by the datagrams still to come, is what the whole loop
   * sends, and it gives up from here exactly when it gives up at all.
   */
  ghost predicate Pending(j: Send, refused: set<nat>, base: seq<Packet>, sent: seq<Packet>, done: nat, i: nat)
    requires SendOk(j)
  {
    done <= j.len
    && base + Packets(j, SentChunks(j.len, j.room, refused, 0, 0)) == sent + Packets(j, SentChunks(j.len, j.room, refused, done, i))
    && FailsFrom(j.len, j.room, refused, 0, 0) == FailsFrom(j.len, j.room, refused, done, i)
  }

  /** Before the first round nothing is pending but the whole loop. */
  lemma PendingStart(j: Send, refused: set<nat>, base: seq<Packet>)
    requires SendOk(j)
    ensures Pending(j, refused, base, base, 0, 0)
  {
  }

  /** A round the link accepted moves the loop on by one stretch. */
  lemma PendingStep(j: Send, refused: set<nat>, base: seq<Packet>, before: seq<Packet>, after: seq<Packet>, done: nat, i: nat, size: nat)
    requires SendOk(j) && Pending(j, refused, base, before, done, i) && done < j.len && i !in refused
    requires size == Min(j.len - done, j.room) && after == before + [FragmentPacket(j, Chunk(done, size))]
    ensures Pending(j, refused, base, after, done + size, i + 1)
  {
    RoundGoesOn(j, refused, done, i, base, Packets(j, SentChunks(j.len, j.room, refused, 0, 0)), before, after, size);
  }

  /** A round the link refused ends the loop, which gives up. */
  lemma PendingStops(j: Send, refused: set<nat>, base: seq<Packet>, before: seq<Packet>, after: seq<Packet>, done: nat, i: nat)
    requires SendOk(j) && Pending(j, refused, base, before, done, i) && done < j.len && i in refused
    requires after == before + [FragmentPacket(j, Chunk(done, Min(j.len - done, j.room)))]
    ensures after == base + Packets(j, SentChunks(j.len, j.room, refused, 0, 0))
    ensures FailsFrom(j.len, j.room, refused, 0, 0)
  {
    RoundStops(j, refused, done, i, base, Packets(j, SentChunks(j.len, j.room, refused, 0, 0)), before, after);
  }

  /** With the whole payload sent, the loop sent everything and did not give up. */
  lemma PendingDone(j: Send, refused: set<nat>, base: seq<Packet>, sent: seq<Packet>, done: nat, i: nat)
    requires SendOk(j) && Pending(j, refused, base, sent, done, i) && done >= j.len
    ensures sent == base + Packets(j, SentChunks(j.len, j.room, refused, 0, 0))
    ensures !FailsFrom(j.len, j.room, refused, 0, 0)
  {
    assert sent + [] == sent;
  }

  /** A round the link refused: its datagram was the last one, and the loop gives up. */
  lemma RoundStops(j: Send, refused: set<nat>, done: nat, i: nat, base: seq<Packet>, all: seq<Packet>, before: seq<Packet>,
                   after: seq<Packet>)
    requires SendOk(j) && done < j.len && i in refused
    requires base + all == before + Packets(j, SentChunks(j.len, j.room, refused, done, i))
    requires after == before + [FragmentPacket(j, Chunk(done, Min(j.len - done, j.room)))]
    ensures base + all == after
    ensures FailsFrom(j.len, j.room, refused, done, i)
  {
    RoundRest(j, refused, done, i);
  }

  /** The stretches sent are the first ones of Chunks, and all of them when no answer is -1. */
  lemma {:induction false} SentChunksPrefix(len: nat, room: nat, refused: set<nat>, done: nat, i: nat)
    requires room > 0 && done <= len
    ensures var sc, cs := SentChunks(len, room, refused, done, i), Chunks(len, done, room);
      |sc| <= |cs| && sc == cs[..|sc|] && (!FailsFrom(len, room, refused, done, i) ==> sc == cs)
    decreases len - done
  {
    if done < len {
      var size := Min(len - done, room);
      var sc, cs := SentChunks(len, room, refused, done, i), Chunks(len, done, room);
      ChunksTail(len, done, room);
      if i !in refused {
        SentChunksPrefix(len, room, refused, done + size, i + 1);
        var rest := SentChunks(len, room, refused, done + size, i + 1);
        assert sc == [cs[0]] + rest;
        assert cs[..1 + |rest|] == [cs[0]] + cs[1..][..|rest|];
      } else {
        assert sc == [cs[0]] == cs[..1];
      }
    }
  }

  /**
   * Sending stops right after the first datagram answered with -1: every
   * one sent before it was answered otherwise, and the loop fails exactly
   * when the last one sent was answered with -1.
   */
  lemma {:induction false} SentChunksStop(len: nat, room: nat, refused: set<nat>, done: nat, i: nat)
    requires room > 0 && done <= len
    ensures var n := |SentChunks(len, room, refused, done, i)|;
      (forall k :: i <= k < i + n - 1 ==> k !in refused)
      && (FailsFrom(len, room, refused, done, i) <==> n > 0 && i + n - 1 in refused)
    decreases len - done
  {
    if done < len && i !in refused {
      var size := Min(len - done, room);
      SentChunksStop(len, room, refused, done + size, i + 1);
      assert |SentChunks(len, room, refused, done, i)| == 1 + |SentChunks(len, room, refused, done + size, i + 1)|;
    }
  }

  /** The payloads of the datagrams, one after the other. */
  function Payloads(ps: seq<Packet>): seq<byte>
  {
    if ps == [] then [] else ps[0].payload + Payloads(ps[1..])
  }

  /** When no answer is -1, the payloads sent, put back together, are the buffer's bytes from done to len. */
  lemma {:induction false} SentRebuilds(j: Send, refused: set<nat>, done: nat, i: nat)
    requires SendOk(j) && done <= j.len && !FailsFrom(j.len, j.room, refused, done, i)
    ensures Payloads(Packets(j, SentChunks(j.len, j.room, refused, done, i))) == j.buf[done..j.len]
    decreases j.len - done
  {
    if done < j.len {
      var size := Min(j.len - done, j.room);
      var rest := Packets(j, SentChunks(j.len, j.room, refused, done + size, i + 1));
      RoundRest(j, refused, done, i);
      SentRebuilds(j, refused, done + size, i + 1);
      PayloadsCons(FragmentPacket(j, Chunk(done, size)), rest);
      SliceSplit(j.buf, done, done + size, j.len);
    }
  }

  lemma PayloadsCons(p: Packet, ps: seq<Packet>)
    ensures Payloads([p] + ps) == p.payload + Payloads(ps)
  {
    assert ([p] + ps)[1..] == ps;
  }

  lemma SliceSplit<T>(s: seq<T>, a: nat, b: nat, c: nat)
    requires a <= b <= c <= |s|
    ensures s[a..c] == s[a..b] + s[b..c]
  {
  }

  /** The two table updates of ip_netif_alloc: first_unused slot gets the route, when there is one. */
  function AddRoute(rs: seq<Route>, r: Route): (rs': seq<Route>)
    ensures |rs'| == |rs|
  {
    if FirstUnused(rs) < |rs| then rs[FirstUnused(rs) := r] else rs
  }

  /** The table after ip_route_del(netif). */
  function DeleteRoutes(rs: seq<Route>, netif: Net.Netif?): (rs': seq<Route>)
    ensures |rs'| == |rs|
  {
    seq(|rs|, k requires 0 <= k < |rs| => Deleted(rs[k], netif))
  }

  /** How many slots of the table are unused. */
  function UnusedCount(rs: seq<Route>): nat
  {
    if rs == [] then 0 else (if rs[0].used then 0 else 1) + UnusedCount(rs[1..])
  }

  /** The table has a free slot exactly when some slot is unused. */
  lemma {:induction false} RoomIffUnused(rs: seq<Route>)
    ensures FirstUnused(rs) < |rs| <==> UnusedCount(rs) > 0
  {
    if rs != [] && rs[0].used {
      RoomIffUnused(rs[1..]);
    }
  }

  /** Adding a used route takes one unused slot, when there is one. */
  lemma {:induction false} AddRouteTakesOne(rs: seq<Route>, r: Route)
    requires r.used
    ensures UnusedCount(AddRoute(rs, r)) == if UnusedCount(rs) > 0 then UnusedCount(rs) - 1 else 0
  {
    RoomIffUnused(rs);
    if rs != [] {
      if rs[0].used {
        AddRouteTakesOne(rs[1..], r);
        assert AddRoute(rs, r)[1..] == AddRoute(rs[1..], r);
      } else {
        assert AddRoute(rs, r)[1..] == rs[1..];
      }
    }
  }

  /**
   * The table after ip_netif_alloc's route additions for an interface:
   * the route to its network, then the default route through a nonzero
   * gateway; an addition that finds no free slot changes nothing.
   */
  function NetifRoutes(rs: seq<Route>, unicast: uint32, netmask: uint32, gateway: uint32, iface: Net.Netif?): seq<Route>
  {
    var rs1 := AddRoute(rs, Route(true, And(unicast, netmask), netmask, IP_ADDR_ANY, iface));
    if gateway != IP_ADDR_ANY then AddRoute(rs1, Route(true, IP_ADDR_ANY, IP_ADDR_ANY, gateway, iface)) else rs1
  }

  /** The slots ip_netif_alloc fills: the network route, and the default route when there is a gateway. */
  function RoutesNeeded(gateway: uint32): nat
  {
    if gateway != IP_ADDR_ANY then 2 else 1
  }

  /**
   * What ends ip_tx outside the model: a fault (a null device pointer
   * dereferenced, or a fragment overrunning packet[4096]), or a loop that
   * never ends (a fragment size of 0 on a link that accepts every
   * datagram).
   */
  datatype Trap = NoTrap | Fault | Hang

  /**
   * The fragment size of ip_tx for interface i: its uint16 MTU less the
   * header, converted to uint32, so that an MTU below 20 wraps to nearly 2^32.
   */
  function Slen(i: Net.Netif): (n: nat)
    reads i, i.dev
    requires i.dev != null
    ensures n < U32
  {
    (i.dev.mtu % U16 - IP_HDR_SIZE_MIN) % U32
  }

  /**
   * How ip_tx fares with len bytes through i: nothing happens for an empty
   * payload; else the loop reads netif->dev (a fault when it is null), a
   * fragment size of 0 makes done stay 0 forever, and a first fragment of
   * more than 4096 - 20 bytes (the largest, as the fragments shrink)
   * overruns ip_tx_core's buffer.
   */
  function TxTrap(i: Net.Netif, len: nat): Trap
    reads i, i.dev
  {
    if len == 0 then NoTrap
    else if i.dev == null then Fault
    else if Slen(i) == 0 then Hang
    else if Min(len, Slen(i)) > PACKET_BUFFER_SIZE - IP_HDR_SIZE_MIN then Fault
    else NoTrap
  }

  /**
   * How ip_tx ends with len bytes through i when refused holds the rounds
   * the link answers with -1: as TxTrap, except that a fragment size of 0
   * ends in the first refused round, so it hangs only when none is.
   */
  function TxOutcome(i: Net.Netif, len: nat, refused: set<nat>): Trap
    reads i, i.dev
  {
    if TxTrap(i, len) == Hang && refused != {} then NoTrap else TxTrap(i, len)
  }

  /** n is the first round the link refuses. */
  predicate FirstRefused(refused: set<nat>, n: nat)
  {
    n in refused && forall k :: 0 <= k < n ==> k !in refused
  }

  /**
   * n rounds of ip_tx with a fragment size of 0: slen is 0 every time, so
   * each hands ip_tx_core the header alone, with MF set and offset 0, and
   * done stays 0.
   */
  function EmptyRounds(j: Send, n: nat): seq<Packet>
  {
    seq(n, _ => FragmentPacket(j, Chunk(0, 0)))
  }

  /** An interface with the address addr: an IPv4 one whose unicast is addr. */
  predicate HasAddr(e: Net.Netif, addr: uint32)
    reads e
  {
    e.family == Net.NETIF_FAMILY_IPV4 && e.unicast == addr
  }

  /**
   * The payload room of a datagram through interface i: the fragment size,
   * capped at what ip_tx_core's buffer holds (1 where ip_tx never gets to
   * fragment). RoomSplitsAsSlen shows the cap changes no fragment.
   */
  function Room(i: Net.Netif): (room: nat)
    reads i, i.dev
    ensures 0 < room <= PACKET_BUFFER_SIZE - IP_HDR_SIZE_MIN
  {
    if i.dev == null || Slen(i) == 0 then 1 else Min(Slen(i), PACKET_BUFFER_SIZE - IP_HDR_SIZE_MIN)
  }

  /** When ip_tx runs its loop to the end, every fragment is the size MIN(len - done, mtu - 20) of ip_tx. */
  lemma RoomSplitsAsSlen(i: Net.Netif, len: nat, done: nat)
    requires TxTrap(i, len) == NoTrap && done < len
    ensures i.dev != null && Min(len - done, Room(i)) == Min(len - done, Slen(i))
  {
  }

  /**
   * The MTUs ip_tx does not handle: 20 gives a fragment size of 0, so the
   * loop sends header-only datagrams until the link refuses one (forever
   * if it never does, see TxOutcome); one
   * below 20 (0, say, as netdev_alloc leaves a device) sends one fragment of
   * the whole payload, which overruns the buffer past 4076 bytes; one
   * above 4096 overruns it on a payload that long.
   */
  lemma WrongMtus(i: Net.Netif, len: nat)
    requires i.dev != null && 0 <= i.dev.mtu < U16 && 0 < len
    ensures i.dev.mtu == IP_HDR_SIZE_MIN ==> TxTrap(i, len) == Hang
    ensures i.dev.mtu < IP_HDR_SIZE_MIN ==> Slen(i) == U32 - IP_HDR_SIZE_MIN + i.dev.mtu
    ensures i.dev.mtu < IP_HDR_SIZE_MIN ==> (TxTrap(i, len) == Fault <==> len > PACKET_BUFFER_SIZE - IP_HDR_SIZE_MIN)
    ensures i.dev.mtu > PACKET_BUFFER_SIZE && len > PACKET_BUFFER_SIZE - IP_HDR_SIZE_MIN ==> TxTrap(i, len) == Fault
    ensures IP_HDR_SIZE_MIN < i.dev.mtu <= PACKET_BUFFER_SIZE ==> TxTrap(i, len) == NoTrap && Room(i) == i.dev.mtu - IP_HDR_SIZE_MIN
  {
  }

  /** What ip_rx hands on for a datagram that arrives at interface iface (null: the device has no IPv4 interface). */
  function RxResult(d: seq<byte>, iface: Net.Netif?, ps: seq<Protocol>): Option<Delivery>
    reads iface
  {
    if iface == null then None
    else match RxCheck(d, iface.unicast, iface.broadcast)
      case None => None
      case Some(a) =>
        match FirstProtocol(ps, a.protocol)
          case None => None
          case Some(h) => Some(Delivery(h, d[a.hlen..], a.plen, a.src, a.dst, iface))
  }

  /** ip_addr_pton into an ip_addr_t: the address whose bytes the text gives, None for -1. */
  method ParseAddr(p: seq<char>) returns (a: Option<uint32>)
    ensures a.None? <==> PtonFrom(p, 0, 0).None?
    ensures a.Some? ==> a.value == AddrOf(PtonFrom(p, 0, 0).value)
  {
    var n := new byte[IP_ADDR_LEN];
    var r := AddrPton(p, n);
    if r == -1 {
      return None;
    }
    a := Some(AddrOf(n[..IP_ADDR_LEN]));
  }

  /**
   * The state of kernel/ip.c: route_table, the protocols list,
   * ip_generate_id's static counter, and the log of the datagrams handed
   * to ip_tx_netdev.
   */
  class IpLayer {
    const routes: array<Route>
    var protocols: seq<Protocol>
    var nextId: uint16
    var sent: seq<Packet>

    ghost predicate Valid()
      reads this, routes
    {
      routes.Length == IP_ROUTE_TABLE_SIZE && RoutesValid(routes[..])
    }

    /** The zeroed statics: no route used, no protocol, the id counter at 128. */
    constructor ()
      ensures Valid() && fresh(routes) && protocols == [] && nextId == 128 && sent == []
      ensures forall k :: 0 <= k < IP_ROUTE_TABLE_SIZE ==> !routes[k].used
    {
      routes := new Route[IP_ROUTE_TABLE_SIZE](_ => Route(false, 0, 0, 0, null));
      protocols := [];
      nextId := 128;
      sent := [];
    }

    /** ip_route_add: the first unused slot gets the route and 0 is returned; -1 when all 8 are used. */
    method RouteAdd(network: uint32, netmask: uint32, nexthop: uint32, netif: Net.Netif) returns (r: int)
      requires Valid()
      modifies routes
      ensures Valid()
      ensures (r == 0 <==> FirstUnused(old(routes[..])) < IP_ROUTE_TABLE_SIZE) && (r != 0 ==> r == -1)
      ensures routes[..] == AddRoute(old(routes[..]), Route(true, network, netmask, nexthop, netif))
    {
      var k := 0;
      while k < IP_ROUTE_TABLE_SIZE
        invariant k <= IP_ROUTE_TABLE_SIZE && forall j :: 0 <= j < k ==> routes[j].used
        invariant routes[..] == old(routes[..])
      {
        if !routes[k].used {
          routes[k] := Route(true, network, netmask, nexthop, netif);
          return 0;
        }
        k := k + 1;
      }
      r := -1;
    }

    /** ip_route_del: every used route of the interface is marked unused; 0. */
    method RouteDel(netif: Net.Netif?) returns (r: int)
      requires Valid()
      modifies routes
      ensures Valid() && r == 0
      ensures routes[..] == DeleteRoutes(old(routes[..]), netif)
    {
      var k := 0;
      while k < IP_ROUTE_TABLE_SIZE
        invariant k <= IP_ROUTE_TABLE_SIZE && RoutesValid(routes[..])
        invariant forall j :: 0 <= j < k ==> routes[j] == Deleted(old(routes[j]), netif)
        invariant forall j :: k <= j < IP_ROUTE_TABLE_SIZE ==> routes[j] == old(routes[j])
      {
        if routes[k].used {
          if routes[k].netif == netif {
            routes[k] := routes[k].(used := false);
          }
        }
        k := k + 1;
      }
      r := 0;
    }

    /** ip_route_lookup: the slot of the route chosen, None for a null result. */
    method RouteLookup(netif: Net.Netif?, dst: uint32) returns (r: Option<nat>)
      requires Valid()
      ensures r == Lookup(routes[..], netif, dst)
    {
      ghost var rs := routes[..];
      var cand: Option<nat> := None;
      var k := 0;
      while k < IP_ROUTE_TABLE_SIZE
        invariant k <= IP_ROUTE_TABLE_SIZE && (cand.Some? ==> cand.value < k)
        invariant LookupFrom(rs, netif, dst, k, cand) == Lookup(rs, netif, dst)
      {
        if Matching(routes[k], netif, dst) && (cand.None? || routes[cand.value].netmask < routes[k].netmask) {
          cand := Some(k);
        }
        k := k + 1;
      }
      r := cand;
    }

    /**
     * ip_netif_alloc: null when kalloc fails; otherwise a new IPv4
     * interface with network = unicast & netmask and broadcast = network
     * | ~netmask, a route to its network and, for a nonzero gateway, a
     * default route through the gateway. When a route does not fit the
     * interface is freed and null returned, but a network route already
     * added stays in the table. iface is the interface allocated.
     */
    method NetifAlloc(unicast: uint32, netmask: uint32, gateway: uint32, allocOk: bool)
      returns (netif: Net.Netif?, ghost iface: Net.Netif?)
      requires Valid()
      modifies routes
      ensures Valid()
      ensures !allocOk ==> netif == null && iface == null && routes[..] == old(routes[..])
      ensures allocOk ==> (iface != null && fresh(iface) && iface.family == Net.NETIF_FAMILY_IPV4 && iface.dev == null
        && iface.unicast == unicast && iface.netmask == netmask && iface.network == And(unicast, netmask)
        && iface.broadcast == Or(And(unicast, netmask), Not(netmask)))
      ensures allocOk ==> routes[..] == NetifRoutes(old(routes[..]), unicast, netmask, gateway, iface)
      ensures netif != null <==> allocOk && UnusedCount(old(routes[..])) >= RoutesNeeded(gateway)
      ensures netif != null ==> netif == iface
    {
      if !allocOk {
        return null, null;
      }
      var i := new Net.Netif(Net.NETIF_FAMILY_IPV4);
      iface := i;
      i.unicast := unicast;
      i.netmask := netmask;
      i.network := And(i.unicast, i.netmask);
      i.broadcast := Or(i.network, Not(i.netmask));
      ghost var rs0 := routes[..];
      var net := Route(true, i.network, i.netmask, IP_ADDR_ANY, i);
      assert net == Route(true, And(unicast, netmask), netmask, IP_ADDR_ANY, i);
      RoomIffUnused(rs0);
      AddRouteTakesOne(rs0, net);
      var r := RouteAdd(i.network, i.netmask, IP_ADDR_ANY, i);
      ghost var rs1 := routes[..];
      assert rs1 == AddRoute(rs0, net);
      if r == -1 {
        return null, iface;
      }
      if gateway != IP_ADDR_ANY {
        RoomIffUnused(rs1);
        r := RouteAdd(IP_ADDR_ANY, IP_ADDR_ANY, gateway, i);
        assert routes[..] == AddRoute(rs1, Route(true, IP_ADDR_ANY, IP_ADDR_ANY, gateway, i));
        if r == -1 {
          return null, iface;
        }
      }
      netif := i;
    }

    /**
     * ip_netif_reconfigure: the interface's routes are deleted, its
     * addresses set as ip_netif_alloc sets them, and the routes added
     * again; -1 when one does not fit, 0 otherwise.
     */
    method NetifReconfigure(netif: Net.Netif, unicast: uint32, netmask: uint32, gateway: uint32) returns (r: int)
      requires Valid()
      modifies routes, netif
      ensures Valid()
      ensures netif.unicast == unicast && netif.netmask == netmask && netif.network == And(unicast, netmask)
        && netif.broadcast == Or(And(unicast, netmask), Not(netmask))
        && netif.dev == old(netif.dev)
      ensures routes[..] == NetifRoutes(DeleteRoutes(old(routes[..]), netif), unicast, netmask, gateway, netif)
      ensures r == 0 <==> UnusedCount(DeleteRoutes(old(routes[..]), netif)) >= RoutesNeeded(gateway)
      ensures r != 0 ==> r == -1
    {
      var _ := RouteDel(netif);
      netif.unicast := unicast;
      netif.netmask := netmask;
      netif.network := And(netif.unicast, netif.netmask);
      netif.broadcast := Or(netif.network, Not(netif.netmask));
      RoomIffUnused(routes[..]);
      AddRouteTakesOne(routes[..], Route(true, netif.network, netif.netmask, IP_ADDR_ANY, netif));
      r := RouteAdd(netif.network, netif.netmask, IP_ADDR_ANY, netif);
      if r == -1 {
        return -1;
      }
      if gateway != IP_ADDR_ANY {
        RoomIffUnused(routes[..]);
        r := RouteAdd(IP_ADDR_ANY, IP_ADDR_ANY, gateway, netif);
        if r == -1 {
          return -1;
        }
      }
      r := 0;
    }

    /**
     * ip_netif_register: the three addresses are parsed (a missing
     * gateway counts as 0.0.0.0), the interface allocated with its routes
     * and attached to dev; null when a parse, the allocation, a route or
     * the attachment fails. iface is what ip_netif_alloc returned; a route
     * added for it stays in the table when the attachment fails.
     */
    method NetifRegister(dev: Net.Netdev, addr: seq<char>, netmask: seq<char>, gateway: Option<seq<char>>, allocOk: bool)
      returns (netif: Net.Netif?, ghost iface: Net.Netif?)
      requires Valid()
      modifies routes, dev
      ensures Valid()
      ensures
        var u, m := PtonFrom(addr, 0, 0), PtonFrom(netmask, 0, 0);
        var g := if gateway.Some? then PtonFrom(gateway.value, 0, 0) else Some([0, 0, 0, 0]);
        if u.None? || m.None? || g.None? || !allocOk then
          netif == null && iface == null && routes[..] == old(routes[..]) && dev.ifs == old(dev.ifs)
        else
          var gw := AddrOf(g.value);
          iface != null && fresh(iface) && iface.family == Net.NETIF_FAMILY_IPV4
          && iface.unicast == AddrOf(u.value) && iface.netmask == AddrOf(m.value)
          && (netif != null <==> UnusedCount(old(routes[..])) >= RoutesNeeded(gw)
                                 && Net.FirstOfFamily(old(dev.ifs), Net.NETIF_FAMILY_IPV4) == null)
          && (netif != null ==> netif == iface && iface.dev == dev && dev.ifs == [iface] + old(dev.ifs))
          && (netif == null ==> dev.ifs == old(dev.ifs))
    {
      ghost var rs0, ifs0 := routes[..], dev.ifs;
      var unicast := ParseAddr(addr);
      if unicast.None? {
        return null, null;
      }
      var mask := ParseAddr(netmask);
      if mask.None? {
        return null, null;
      }
      var gw: uint32 := 0;
      assert AddrOf([0, 0, 0, 0]) == 0;
      if gateway.Some? {
        var g := ParseAddr(gateway.value);
        if g.None? {
          return null, null;
        }
        gw := g.value;
      }
      assert routes[..] == rs0 && dev.ifs == ifs0;
      netif, iface := NetifAttach(dev, unicast.value, mask.value, gw, allocOk);
    }

    /** The part of ip_netif_register after the parses: ip_netif_alloc, then netdev_add_netif on dev. */
    method NetifAttach(dev: Net.Netdev, unicast: uint32, netmask: uint32, gw: uint32, allocOk: bool)
      returns (netif: Net.Netif?, ghost iface: Net.Netif?)
      requires Valid()
      modifies routes, dev
      ensures Valid()
      ensures !allocOk ==> netif == null && iface == null && routes[..] == old(routes[..]) && dev.ifs == old(dev.ifs)
      ensures allocOk ==>
          iface != null && fresh(iface) && iface.family == Net.NETIF_FAMILY_IPV4
          && iface.unicast == unicast && iface.netmask == netmask
          && (netif != null <==> UnusedCount(old(routes[..])) >= RoutesNeeded(gw)
                                 && Net.FirstOfFamily(old(dev.ifs), Net.NETIF_FAMILY_IPV4) == null)
          && (netif != null ==> netif == iface && iface.dev == dev && dev.ifs == [iface] + old(dev.ifs))
          && (netif == null ==> dev.ifs == old(dev.ifs))
    {
      ghost var room := UnusedCount(routes[..]) >= RoutesNeeded(gw);
      netif, iface := NetifAlloc(unicast, netmask, gw, allocOk);
      if netif == null {
        return null, iface;
      }
      ghost var free := Net.FirstOfFamily(dev.ifs, Net.NETIF_FAMILY_IPV4) == null;
      var r := dev.AddNetif(netif);
      if r == -1 {
        return null, iface;
      }
    }

    /**
     * ip_netif_by_addr: the first IPv4 interface, devices in list order and
     * each device's interfaces in list order, whose address is addr; null
     * when there is none.
     */
    method NetifByAddr(reg: Net.Registry, addr: uint32) returns (r: Net.Netif?)
      ensures r == null <==>
        forall d, e :: 0 <= d < |reg.devices| && 0 <= e < |reg.devices[d].ifs| ==> !HasAddr(reg.devices[d].ifs[e], addr)
      ensures r != null ==> exists d, e :: (0 <= d < |reg.devices| && 0 <= e < |reg.devices[d].ifs|
        && r == reg.devices[d].ifs[e] && HasAddr(r, addr)
        && (forall d', e' :: 0 <= d' < d && 0 <= e' < |reg.devices[d'].ifs| ==> !HasAddr(reg.devices[d'].ifs[e'], addr))
        && (forall e' :: 0 <= e' < e ==> !HasAddr(reg.devices[d].ifs[e'], addr)))
    {
      var d := 0;
      while d < |reg.devices|
        invariant d <= |reg.devices|
        invariant forall d', e' :: 0 <= d' < d && 0 <= e' < |reg.devices[d'].ifs| ==> !HasAddr(reg.devices[d'].ifs[e'], addr)
      {
        var ifs := reg.devices[d].ifs;
        var e := 0;
        while e < |ifs|
          invariant e <= |ifs| && forall e' :: 0 <= e' < e ==> !HasAddr(ifs[e'], addr)
        {
          if ifs[e].family == Net.NETIF_FAMILY_IPV4 && ifs[e].unicast == addr {
            return ifs[e];
          }
          e := e + 1;
        }
        d := d + 1;
      }
      r := null;
    }

    /** ip_netif_by_peer: the interface of the route ip_route_lookup(NULL, peer) picks, or null. */
    method NetifByPeer(peer: uint32) returns (r: Net.Netif?)
      requires Valid()
      ensures Lookup(routes[..], null, peer).None? ==> r == null
      ensures Lookup(routes[..], null, peer).Some? ==>
        var k := Lookup(routes[..], null, peer).value; k < IP_ROUTE_TABLE_SIZE && r == routes[k].netif && r != null
      ensures r == ByPeer(routes[..], peer)
    {
      LookupIsBest(routes[..], null, peer);
      var route := RouteLookup(null, peer);
      if route.None? {
        return null;
      }
      r := routes[route.value].netif;
    }

    /**
     * ip_tx: -1 when there is no route (the id counter is then left
     * alone); otherwise one id is drawn and, unless the interface traps
     * (TxTrap: a fault before anything is sent, or a fragment size of 0),
     * the payload goes out in the Fragments of the plan, in order, until
     * ip_tx_netdev answers -1 for one, which makes the result -1; len (as
     * an int32) when all went out. refused holds the rounds whose datagram
     * ip_tx_netdev answers with -1. With a fragment size of 0 every round
     * sends the header alone: the result is -1 after the first refused
     * round, and the loop hangs when no round is refused, the endless
     * datagrams then being left out.
     */
    method Tx(netif: Net.Netif?, protocol: byte, buf: seq<byte>, len: uint32, dst: uint32, refused: set<nat>)
      returns (r: int, trap: Trap)
      requires Valid() && len <= |buf|
      modifies this
      ensures protocols == old(protocols)
      ensures
        var p := PlanOf(routes[..], netif, if netif != null then netif.unicast else 0, dst);
        p.NoRoute? ==> r == -1 && trap == NoTrap && sent == old(sent) && nextId == old(nextId)
      ensures
        var p := PlanOf(routes[..], netif, if netif != null then netif.unicast else 0, dst);
        p.Plan? ==> nextId == (old(nextId) + 1) % U16 && trap == TxOutcome(p.out, len as nat, refused)
      ensures
        var p := PlanOf(routes[..], netif, if netif != null then netif.unicast else 0, dst);
        p.Plan? && trap != NoTrap ==> sent == old(sent)
      ensures
        var p := PlanOf(routes[..], netif, if netif != null then netif.unicast else 0, dst);
        p.Plan? && TxTrap(p.out, len as nat) == Hang && refused != {} ==>
          var j := Send(p.out, protocol, buf, len as nat, Room(p.out), if p.src.Some? then p.src.value else p.out.unicast,
                        dst, old(nextId), p.nexthop);
          r == -1 && exists n: nat :: FirstRefused(refused, n) && sent == old(sent) + EmptyRounds(j, n + 1)
      ensures
        var p := PlanOf(routes[..], netif, if netif != null then netif.unicast else 0, dst);
        p.Plan? && TxTrap(p.out, len as nat) == NoTrap ==>
          var j := Send(p.out, protocol, buf, len as nat, Room(p.out), if p.src.Some? then p.src.value else p.out.unicast,
                        dst, old(nextId), p.nexthop);
          sent == old(sent) + Packets(j, SentChunks(j.len, j.room, refused, 0, 0))
          && r == (if FailsFrom(j.len, j.room, refused, 0, 0) then -1 else Net.ToInt32(len))
    {
      var p := Choose(netif, dst);
      if p.NoRoute? {
        return -1, NoTrap;
      }
      var id := GenerateId();
      trap := TxOutcome(p.out, len as nat, refused);
      if trap != NoTrap {
        return -1, trap;
      }
      var s := if p.src.Some? then p.src.value else p.out.unicast;
      var j := Send(p.out, protocol, buf, len as nat, Room(p.out), s, dst, id, p.nexthop);
      var failed := TxRounds(j, p.src, refused, TxTrap(p.out, len as nat) == Hang);
      r := if failed then -1 else Net.ToInt32(len);
    }

    /**
     * The fragment loop of ip_tx for the send j, empty telling whether the
     * fragment size is 0.
     */
    method TxRounds(j: Send, src: Option<uint32>, refused: set<nat>, empty: bool) returns (failed: bool)
      requires SendOk(j) && j.src == (if src.Some? then src.value else j.out.unicast)
      requires empty ==> refused != {}
      modifies this
      ensures nextId == old(nextId) && protocols == old(protocols)
      ensures empty ==> failed && exists n: nat :: FirstRefused(refused, n) && sent == old(sent) + EmptyRounds(j, n + 1)
      ensures !empty ==>
        sent == old(sent) + Packets(j, SentChunks(j.len, j.room, refused, 0, 0))
        && failed == FailsFrom(j.len, j.room, refused, 0, 0)
    {
      if empty {
        var n := TxEmpty(j, src, refused);
        return true;
      }
      failed := TxFragments(j, src, refused);
    }

    /**
     * The loop of ip_tx with a fragment size of 0: each round the header
     * alone goes to the link, until the first round the link refuses (n).
     */
    method TxEmpty(j: Send, src: Option<uint32>, refused: set<nat>) returns (n: nat)
      requires SendOk(j) && j.src == (if src.Some? then src.value else j.out.unicast) && refused != {}
      modifies this
      ensures FirstRefused(refused, n) && sent == old(sent) + EmptyRounds(j, n + 1)
      ensures nextId == old(nextId) && protocols == old(protocols)
    {
      ghost var m :| m in refused;
      var offset := FragmentField(Chunk(0, 0), j.len);
      n := 0;
      while true
        invariant n <= m && forall k :: 0 <= k < n ==> k !in refused
        invariant sent == old(sent) + EmptyRounds(j, n)
        invariant nextId == old(nextId) && protocols == old(protocols)
        decreases m - n
      {
        var answer := if n in refused then -1 else 0;
        var res := TxCore(j.out, j.protocol, j.buf, 0, src, j.dst, j.nexthop, j.id, offset, answer);
        assert j.buf[..0] == Slice(j.buf, Chunk(0, 0));
        assert EmptyRounds(j, n + 1) == EmptyRounds(j, n) + [FragmentPacket(j, Chunk(0, 0))];
        if res == -1 {
          return;
        }
        n := n + 1;
      }
    }

    /** The choice at the top of ip_tx, between the broadcast link and a route. */
    method Choose(netif: Net.Netif?, dst: uint32) returns (p: Plan)
      requires Valid()
      ensures p == PlanOf(routes[..], netif, if netif != null then netif.unicast else 0, dst)
    {
      ghost var rs := routes[..];
      if netif != null && dst == IP_ADDR_BROADCAST {
        return Plan(netif, None, None);
      }
      LookupIsBest(rs, null, dst);
      var route := RouteLookup(null, dst);
      if route.None? {
        return NoRoute;
      }
      var src: Option<uint32> := None;
      if netif != null {
        src := Some(netif.unicast);
      }
      var nexthop := Some(if routes[route.value].nexthop != IP_ADDR_ANY then routes[route.value].nexthop else dst);
      p := Plan(routes[route.value].netif, src, nexthop);
    }

    /**
     * The loop of ip_tx: the datagram for each stretch of the payload in
     * turn, until the link answers -1 for one (failed).
     */
    method TxFragments(j: Send, src: Option<uint32>, refused: set<nat>) returns (failed: bool)
      requires SendOk(j) && j.src == (if src.Some? then src.value else j.out.unicast)
      modifies this
      ensures sent == old(sent) + Packets(j, SentChunks(j.len, j.room, refused, 0, 0))
      ensures failed == FailsFrom(j.len, j.room, refused, 0, 0)
      ensures nextId == old(nextId) && protocols == old(protocols)
    {
      var done: nat := 0;
      var i: nat := 0;
      PendingStart(j, refused, sent);
      while done < j.len
        invariant Pending(j, refused, old(sent), sent, done, i)
        invariant nextId == old(nextId) && protocols == old(protocols)
        decreases j.len - done
      {
        ghost var before := sent;
        var res, slen := TxRound(j, src, refused, done, i);
        if res == -1 {
          PendingStops(j, refused, old(sent), before, sent, done, i);
          return true;
        }
        PendingStep(j, refused, old(sent), before, sent, done, i, slen);
        done := done + slen;
        i := i + 1;
      }
      PendingDone(j, refused, old(sent), sent, done, i);
      failed := false;
    }

    /**
     * One round of the loop of ip_tx: the datagram for the stretch at done
     * goes to the link, and what is left to send is the datagrams after it,
     * or nothing when the link answered -1.
     */
    method TxRound(j: Send, src: Option<uint32>, refused: set<nat>, done: nat, i: nat) returns (res: int, slen: nat)
      requires SendOk(j) && j.src == (if src.Some? then src.value else j.out.unicast) && done < j.len
      modifies this
      ensures slen == Min(j.len - done, j.room) && res == (if i in refused then -1 else 0)
      ensures sent == old(sent) + [FragmentPacket(j, Chunk(done, slen))]
      ensures nextId == old(nextId) && protocols == old(protocols)
    {
      slen := Min(j.len - done, j.room);
      var flag := if done + slen < j.len then 0x2000 else 0;
      // flag | ((done >> 3) & 0x1fff): the two parts share no bit
      var offset := flag + (done / 8) % 0x2000;
      RoundPacket(j, done, offset);
      assert (if src.Some? then src.value else j.out.unicast) == j.src;
      var answer := if i in refused then -1 else 0;
      res := TxCore(j.out, j.protocol, j.buf[done..], slen, src, j.dst, j.nexthop, j.id, offset, answer);
    }

    /** ip_add_protocol: the entry goes to the head of the list; -1 with the list unchanged when kalloc fails. */
    method AddProtocol(t: byte, handler: Net.Handler, allocOk: bool) returns (r: int)
      modifies this
      ensures r == (if allocOk then 0 else -1)
      ensures protocols == if allocOk then [Protocol(t, handler)] + old(protocols) else old(protocols)
      ensures nextId == old(nextId) && sent == old(sent)
    {
      if !allocOk {
        return -1;
      }
      protocols := [Protocol(t, handler)] + protocols;
      r := 0;
    }

    /** ip_generate_id: the counter's value, and the counter one further, wrapping at 2^16. */
    method GenerateId() returns (id: uint16)
      modifies this
      ensures id == old(nextId) && nextId == (old(nextId) + 1) % U16
      ensures protocols == old(protocols) && sent == old(sent)
    {
      id := nextId;
      nextId := (nextId + 1) % U16;
    }

    /**
     * ip_rx on a datagram from device dev: the call of the first handler
     * registered for its protocol is what RxResult gives for the device's
     * IPv4 interface.
     */
    method Rx(d: seq<byte>, dev: Net.Netdev) returns (r: Option<Delivery>)
      ensures r == RxResult(d, Net.FirstOfFamily(dev.ifs, Net.NETIF_FAMILY_IPV4), protocols)
    {
      var iface := dev.GetNetif(Net.NETIF_FAMILY_IPV4);
      if iface == null {
        return None;
      }
      var a := RxCheck(d, iface.unicast, iface.broadcast);
      if a.None? {
        return None;
      }
      var k := 0;
      while k < |protocols|
        invariant k <= |protocols| && FirstProtocol(protocols, a.value.protocol) == FirstProtocol(protocols[k..], a.value.protocol)
      {
        if protocols[k].protoType == a.value.protocol {
          return Some(Delivery(protocols[k].handler, d[a.value.hlen..], a.value.plen, a.value.src, a.value.dst, iface));
        }
        assert protocols[k..] == [protocols[k]] + protocols[k + 1..];
        k := k + 1;
      }
      r := None;
    }

    /**
     * ip_tx_core: the datagram for len bytes of buf, from src or else the
     * interface's address, goes to the link layer; answer is what
     * ip_tx_netdev answers for it.
     */
    method TxCore(netif: Net.Netif, protocol: byte, buf: seq<byte>, len: nat, src: Option<uint32>, dst: uint32,
                  nexthop: Option<uint32>, id: uint16, offset: uint16, answer: int) returns (r: int)
      requires len <= |buf| && len <= PACKET_BUFFER_SIZE - IP_HDR_SIZE_MIN
      modifies this
      ensures sent == old(sent) + [Packet(netif, protocol, buf[..len], id, offset,
                                          if src.Some? then src.value else netif.unicast, dst, nexthop)]
      ensures r == answer && protocols == old(protocols) && nextId == old(nextId)
    {
      var s := if src.Some? then src.value else netif.unicast;
      sent := sent + [Packet(netif, protocol, buf[..len], id, offset, s, dst, nexthop)];
      r := answer;
    }
  }
}
