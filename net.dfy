/**
 * The device, interface and protocol registries of the network stack
 * (kernel/net.c, with the structures of include/net.h). The linked lists
 * of the source are sequences in list order, head first; netdev and
 * netif structures are objects, since other layers keep and compare
 * pointers to them. Every interface in the source is the IPv4 extension
 * netif_ip, so a Netif carries its addresses. A handler is named by the
 * function it is. Allocation is a parameter saying whether kalloc
 * returned a page.
 */
module Net {
  import opened Common
  import opened CText
  import Printf
  import Klib
  import CString

  const NETDEV_TYPE_ETHERNET: int := 0x0001
  const NETDEV_FLAG_BROADCAST: bv16 := 0x0002
  const NETDEV_FLAG_NOARP: bv16 := 0x0080
  const NETPROTO_TYPE_IP: uint16 := 0x0800
  const NETPROTO_TYPE_ARP: uint16 := 0x0806
  const NETIF_FAMILY_IPV4: int := 0x02
  const IFNAMSIZ: nat := 16

  /** The receive functions of the stack that the registries hold pointers to. */
  datatype Handler = ArpRx | IpRx | IcmpRx | UdpRx | TcpRx

  /** An entry of the protocols list: an Ethertype in host order and its handler. */
  datatype Netproto = Netproto(protoType: uint16, handler: Handler)

  /** The one call netdev_receive makes: the handler, the packet and its length. */
  datatype Dispatch = Dispatch(handler: Handler, packet: seq<byte>, plen: nat)

  /** An IPv4 interface (struct netif_ip): its family, its device and its addresses in host order. */
  class Netif {
    const family: int
    var dev: Netdev?
    var unicast: uint32
    var netmask: uint32
    var network: uint32
    var broadcast: uint32

    constructor (family: int)
      ensures this.family == family && dev == null
      ensures unicast == 0 && netmask == 0 && network == 0 && broadcast == 0
    {
      this.family := family;
      dev := null;
      unicast, netmask, network, broadcast := 0, 0, 0, 0;
    }
  }

  /** struct netdev; ifs is its list of interfaces. */
  class Netdev {
    var index: int
    var name: seq<char>
    var devType: int
    var mtu: int
    var flags: bv16
    var hlen: int
    var alen: int
    var addr: seq<byte>
    var broadcast: seq<byte>
    var ifs: seq<Netif>

    /** The page kalloc returned, zeroed by memset. */
    constructor Zeroed()
      ensures index == 0 && name == seq(IFNAMSIZ, _ => '\0') && devType == 0 && mtu == 0 && flags == 0
      ensures hlen == 0 && alen == 0 && addr == Zeros(16) && broadcast == Zeros(16) && ifs == []
    {
      index, name, devType, mtu, flags := 0, seq(IFNAMSIZ, _ => '\0'), 0, 0, 0;
      hlen, alen, addr, broadcast, ifs := 0, 0, Zeros(16), Zeros(16), [];
    }

    /**
     * netdev_add_netif: -1 when an interface of the same family is
     * attached already; otherwise netif goes to the head of the list and
     * gets this device.
     */
    method AddNetif(netif: Netif) returns (r: int)
      modifies this, netif
      ensures r == -1 <==> exists k :: 0 <= k < |old(ifs)| && old(ifs)[k].family == netif.family
      ensures r == -1 ==> ifs == old(ifs) && netif.dev == old(netif.dev)
      ensures r != -1 ==> r == 0 && ifs == [netif] + old(ifs) && netif.dev == this
      ensures unchanged(this`index, this`name, this`devType, this`mtu, this`flags, this`hlen, this`alen, this`addr, this`broadcast)
      ensures netif.unicast == old(netif.unicast)
      ensures netif.broadcast == old(netif.broadcast) && netif.netmask == old(netif.netmask) && netif.network == old(netif.network)
    {
      var k := 0;
      while k < |ifs|
        invariant k <= |ifs| && forall j :: 0 <= j < k ==> ifs[j].family != netif.family
      {
        if ifs[k].family == netif.family {
          return -1;
        }
        k := k + 1;
      }
      netif.dev := this;
      ifs := [netif] + ifs;
      r := 0;
    }

    /** netdev_get_netif: the first interface of the family, or null. */
    method GetNetif(family: int) returns (r: Netif?)
      ensures r == FirstOfFamily(ifs, family)
    {
      var k := 0;
      while k < |ifs|
        invariant k <= |ifs| && FirstOfFamily(ifs, family) == FirstOfFamily(ifs[k..], family)
      {
        if ifs[k].family == family {
          return ifs[k];
        }
        assert ifs[k..] == [ifs[k]] + ifs[k + 1..];
        k := k + 1;
      }
      r := null;
    }
  }

  /** The first interface of the list whose family is the given one, or null. */
  function FirstOfFamily(ifs: seq<Netif>, family: int): (r: Netif?)
    ensures r != null ==> r in ifs && r.family == family
    ensures r == null <==> forall k :: 0 <= k < |ifs| ==> ifs[k].family != family
    ensures r != null ==>
      exists k :: 0 <= k < |ifs| && ifs[k] == r && forall j :: 0 <= j < k ==> ifs[j].family != family
  {
    if ifs == [] then null
    else if ifs[0].family == family then ifs[0]
    else FirstOfFamily(ifs[1..], family)
  }

  /** The int32 the source's static unsigned counter becomes when it is assigned to dev->index. */
  function ToInt32(u: uint32): Printf.int32
  {
    if u < 0x8000_0000 then u else u - U32
  }

  /** The name snprintf(name, 16, "net%d", index) leaves in a zeroed name buffer. */
  function NameOf(index: Printf.int32): (name: seq<char>)
    ensures |name| == IFNAMSIZ
  {
    Printf.AsWrittenBuffer(seq(IFNAMSIZ, _ => '\0'), IFNAMSIZ, Printf.Run("net%d", [Printf.Num(index)], IFNAMSIZ, false).out)
  }

  /**
   * The devices list, the protocols list and netdev_alloc's static index
   * counter (an unsigned int, so it wraps at 2^32).
   */
  class Registry {
    var devices: seq<Netdev>
    var protocols: seq<Netproto>
    var nextIndex: uint32

    constructor ()
      ensures devices == [] && protocols == [] && nextIndex == 0
    {
      devices, protocols, nextIndex := [], [], 0;
    }

    /** netdev_root: the head of the devices list. */
    function Root(): (r: Netdev?)
      reads this
      ensures r == null <==> devices == []
      ensures r != null ==> r == devices[0]
    {
      if devices == [] then null else devices[0]
    }

    /**
     * netdev_alloc without its setup callback, which the caller runs on
     * the result (Ethernet.NetdevSetup for an Ethernet device): a zeroed device with the next
     * index and the name snprintf gives it, or null when kalloc fails.
     */
    method NetdevAlloc(allocOk: bool) returns (dev: Netdev?)
      modifies this
      ensures devices == old(devices) && protocols == old(protocols)
      ensures !allocOk ==> dev == null && nextIndex == old(nextIndex)
      ensures allocOk ==> dev != null && fresh(dev) && nextIndex == (old(nextIndex) + 1) % U32
      ensures allocOk ==> dev.index == ToInt32(old(nextIndex)) && dev.name == NameOf(ToInt32(old(nextIndex)))
      ensures allocOk ==> dev.ifs == [] && dev.mtu == 0 && dev.flags == 0 && dev.addr == Zeros(16)
    {
      if !allocOk {
        return null;
      }
      dev := new Netdev.Zeroed();
      dev.index := ToInt32(nextIndex);
      nextIndex := (nextIndex + 1) % U32;
      var name := new char[IFNAMSIZ](_ => '\0');
      assert name[..] == seq(IFNAMSIZ, _ => '\0');
      var len, outside, overrun := Klib.Snprintf(name, IFNAMSIZ, "net%d", [Printf.Num(dev.index)]);
      dev.name := name[..];
    }

    /** netdev_register: the device goes to the head of the list. */
    method Register(dev: Netdev) returns (r: int)
      modifies this
      ensures r == 0 && devices == [dev] + old(devices)
      ensures protocols == old(protocols) && nextIndex == old(nextIndex)
    {
      devices := [dev] + devices;
      r := 0;
    }

    /** netdev_by_index: the first device in list order with the index, or null. */
    method ByIndex(index: int) returns (r: Netdev?)
      ensures r != null ==>
        exists k :: (0 <= k < |devices| && devices[k] == r
          && r.index == index && forall j :: 0 <= j < k ==> devices[j].index != index)
      ensures r == null ==> forall k :: 0 <= k < |devices| ==> devices[k].index != index
    {
      var k := 0;
      while k < |devices|
        invariant k <= |devices| && forall j :: 0 <= j < k ==> devices[j].index != index
      {
        if devices[k].index == index {
          return devices[k];
        }
        k := k + 1;
      }
      r := null;
    }

    /** netdev_by_name: the first device whose name strcmp finds equal, or null. */
    method ByName(name: seq<char>) returns (r: Netdev?)
      ensures r != null ==>
        exists k :: (0 <= k < |devices| && devices[k] == r
          && SameName(r.name, name) && forall j :: 0 <= j < k ==> !SameName(devices[j].name, name))
      ensures r == null ==> forall k :: 0 <= k < |devices| ==> !SameName(devices[k].name, name)
    {
      var k := 0;
      while k < |devices|
        invariant k <= |devices| && forall j :: 0 <= j < k ==> !SameName(devices[j].name, name)
      {
        var c := CString.Strncmp(devices[k].name, name, U32 - 1);
        if c == 0 {
          return devices[k];
        }
        k := k + 1;
      }
      r := null;
    }

    /**
     * netdev_receive: the first protocol whose Ethertype, converted by
     * hton16 on a host of the given byte order, equals the frame's raw
     * type field gets the packet; with no such protocol nothing is called.
     */
    method Receive(order: int, rawType: uint16, packet: seq<byte>, plen: nat) returns (d: Option<Dispatch>)
      ensures d.Some? ==>
        exists k :: (0 <= k < |protocols| && Matches(order, protocols[k], rawType)
          && d.value == Dispatch(protocols[k].handler, packet, plen)
          && forall j :: 0 <= j < k ==> !Matches(order, protocols[j], rawType))
      ensures d.None? ==> forall k :: 0 <= k < |protocols| ==> !Matches(order, protocols[k], rawType)
    {
      var k := 0;
      while k < |protocols|
        invariant k <= |protocols| && forall j :: 0 <= j < k ==> !Matches(order, protocols[j], rawType)
      {
        if Klib.Hton16(order, protocols[k].protoType) == rawType {
          return Some(Dispatch(protocols[k].handler, packet, plen));
        }
        k := k + 1;
      }
      d := None;
    }

    /**
     * netproto_register: -1 for an Ethertype that is registered already
     * or when kalloc fails; otherwise the entry goes to the head of the
     * list.
     */
    method ProtoRegister(protoType: uint16, handler: Handler, allocOk: bool) returns (r: int)
      modifies this
      ensures var dup := exists k :: 0 <= k < |old(protocols)| && old(protocols)[k].protoType == protoType;
        (r == 0 <==> !dup && allocOk)
        && (r == 0 ==> protocols == [Netproto(protoType, handler)] + old(protocols))
        && (r != 0 ==> r == -1 && protocols == old(protocols))
      ensures devices == old(devices) && nextIndex == old(nextIndex)
    {
      var k := 0;
      while k < |protocols|
        invariant k <= |protocols| && forall j :: 0 <= j < k ==> protocols[j].protoType != protoType
      {
        if protocols[k].protoType == protoType {
          return -1;
        }
        k := k + 1;
      }
      if !allocOk {
        return -1;
      }
      protocols := [Netproto(protoType, handler)] + protocols;
      r := 0;
    }
  }

  /** strcmp(a, b) == 0: the two C strings are equal (both shorter than 2^32 - 1 characters). */
  predicate SameName(a: seq<char>, b: seq<char>)
  {
    CString.Within(a, U32 - 1) == CString.Within(b, U32 - 1)
  }

  /** The protocol entry is the one for a frame with the raw type field rawType. */
  predicate Matches(order: int, p: Netproto, rawType: uint16)
  {
    Klib.Hton16(order, p.protoType) == rawType
  }

  /** On either host, an entry matches exactly the frames whose type bytes spell its Ethertype in network order. */
  lemma MatchesNetworkOrder(littleEndianHost: bool, p: Netproto, b0: byte, b1: byte)
    ensures Matches(Klib.ByteOrder(littleEndianHost), p, Klib.HostLoad16(littleEndianHost, b0, b1))
        <==> p.protoType == b0 * 256 + b1
  {
    var order := Klib.ByteOrder(littleEndianHost);
    var raw := Klib.HostLoad16(littleEndianHost, b0, b1);
    Klib.NtohReadsNetworkOrder(littleEndianHost, b0, b1);
    Klib.HtonNtohInverse(order, p.protoType);
    Klib.HtonNtohInverse(order, raw);
  }

  /**
   * Because snprintf's %d never stores its digits, every device is named
   * "net": netdev_by_name finds "net0" on no device.
   */
  lemma EveryDeviceIsNamedNet(index: Printf.int32)
    ensures UpToNul(NameOf(index)) == "net"
  {
    var args := [Printf.Num(index)];
    var digits := Printf.Render(index, 10, true);
    Printf.RenderLength(index, 10, true);
    assert "net%d"[..4] == "net%";
    assert "net%"[..3] == "net";
    Printf.RunLiteral("net", args, IFNAMSIZ, false);
    assert Printf.Run("net%", args, IFNAMSIZ, false) == Printf.Formatter(true, 0, Printf.Cells("net", true));
    var out := Printf.Run("net%d", args, IFNAMSIZ, false).out;
    assert out == Printf.Cells("net", true) + Printf.Cells(digits, false);
    var b := NameOf(index);
    assert b[0] == 'n' && b[1] == 'e' && b[2] == 't' && b[3] == '\0';
    assert UpToNul(b) == "net" by {
      assert b == [b[0]] + b[1..] && b[1..] == [b[1]] + b[2..] && b[2..] == [b[2]] + b[3..];
    }
  }
}
