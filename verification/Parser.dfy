/** From a captured frame to a decoded packet (`packet/mod.rs`). */
module Parser {
  import opened Ints
  import opened Wrappers
  import opened PacketTypes
  import opened Layers
  import opened DnsParser

  const PROTO_ICMP: byte := 1
  const PROTO_TCP: byte := 6
  const PROTO_UDP: byte := 17
  const PROTO_ICMPV6: byte := 58
  const NULL_HEADER_LEN: nat := 4

  type Decoded = Result<Packet, ParseError>

  /** Link types by their number in a capture file. */
  function LinkFromRaw(value: u32): Option<LinkType> {
    if value == 0 then Some(NullLink)
    else if value == 1 then Some(Ethernet)
    else if value == 12 || value == 14 || value == 101 then Some(Raw)
    else None
  }

  function Decode(link: LinkType, frame: Frame): Decoded {
    match link
    case Ethernet =>
      var (eth, rest) :- DecodeEthernet(frame.data);
      DecodeNetwork(Blank(frame, Some(eth.ethertype)), rest)
    case NullLink =>
      :- Need(frame.data, NULL_HEADER_LEN, LinkLayer);
      DecodeNetwork(Blank(frame, None), frame.data[NULL_HEADER_LEN..])
    case Raw => DecodeNetwork(Blank(frame, None), frame.data)
  }

  function Blank(frame: Frame, ethertype: Option<u16>): Packet {
    Packet(frame.ts, frame.wireLen, ethertype, None, NoTransport, NoApp)
  }

  function DecodeNetwork(packet: Packet, l3: bytes): Decoded {
    match packet.ethertype
    case Some(ethertype) =>
      if ethertype == ETHERTYPE_IPV4 then DecodeIp(packet, 4, l3)
      else if ethertype == ETHERTYPE_IPV6 then DecodeIp(packet, 6, l3)
      else Ok(packet)
    case None =>
      :- Need(l3, 1, LinkLayer);
      DecodeIp(packet, l3[0] / 0x10, l3)
  }

  function DecodeIp(packet: Packet, version: nat, l3: bytes): Decoded {
    if version == 4 then
      var (ip, l4) :- DecodeIpv4(l3);
      DecodeTransport(packet.(ip := Some(ip)), ip, l4)
    else if version == 6 then
      var (ip, l4) :- DecodeIpv6(l3);
      DecodeTransport(packet.(ip := Some(ip)), ip, l4)
    else Err(Malformed(LinkLayer, UnknownIpVersion))
  }

  function DecodeTransport(packet: Packet, ip: IpHeader, l4: bytes): Decoded {
    if ip.fragmentOffset != 0 then Ok(packet.(transport := LaterFragment))
    else if ip.proto == PROTO_TCP then
      var (tcp, _) :- DecodeTcp(l4);
      Ok(packet.(transport := Tcp(tcp)))
    else if ip.proto == PROTO_UDP then
      var (udp, payload) :- DecodeUdp(l4);
      Ok(packet.(transport := Udp(udp), app := DecodeApp(udp, payload)))
    else if ip.proto == PROTO_ICMP || ip.proto == PROTO_ICMPV6 then
      var icmp :- DecodeIcmp(l4, ip.proto == PROTO_ICMPV6);
      Ok(packet.(transport := Icmp(icmp)))
    else Ok(packet.(transport := Other(ip.proto)))
  }

  function DecodeApp(udp: UdpHeader, payload: bytes): App {
    if (udp.srcPort == DNS_PORT || udp.dstPort == DNS_PORT) && payload != [] then
      match DecodeDns(payload)
      case Ok(info) => Dns(info)
      case Err(e) => DnsError(e)
    else NoApp
  }

  /** Fills a packet in layer by layer. */
  method Parse(link: LinkType, frame: Frame) returns (r: Decoded)
    ensures r == Decode(link, frame)
  {
    var ethertype, l3 := None, frame.data;
    if link == Ethernet {
      var eth := ParseEthernet(frame.data);
      if eth.Err? {
        return Err(eth.error);
      }
      ethertype, l3 := Some(eth.value.0.ethertype), eth.value.1;
    } else if link == NullLink {
      if |frame.data| < NULL_HEADER_LEN {
        return Err(Truncated(LinkLayer, NULL_HEADER_LEN, |frame.data|));
      }
      l3 := frame.data[NULL_HEADER_LEN..];
    }
    var packet := Packet(frame.ts, frame.wireLen, ethertype, None, NoTransport, NoApp);
    var version;
    if ethertype == Some(ETHERTYPE_IPV4) {
      version := 4;
    } else if ethertype == Some(ETHERTYPE_IPV6) {
      version := 6;
    } else if ethertype.Some? {
      return Ok(packet);
    } else if |l3| < 1 {
      return Err(Truncated(LinkLayer, 1, |l3|));
    } else {
      version := l3[0] / 0x10;
    }
    var network: Parsed<IpHeader>;
    if version == 4 {
      network := DecodeIpv4(l3);
    } else if version == 6 {
      network := ParseIpv6(l3);
    } else {
      return Err(Malformed(LinkLayer, UnknownIpVersion));
    }
    if network.Err? {
      return Err(network.error);
    }
    packet := packet.(ip := Some(network.value.0));
    r := ParseTransport(packet, network.value.0, network.value.1);
  }

  method ParseTransport(blank: Packet, ip: IpHeader, l4: bytes) returns (r: Decoded)
    requires blank.app == NoApp
    ensures r == DecodeTransport(blank, ip, l4)
  {
    var packet := blank;
    if ip.fragmentOffset != 0 {
      packet := packet.(transport := LaterFragment);
      return Ok(packet);
    }
    if ip.proto == PROTO_TCP {
      var tcp := DecodeTcp(l4);
      if tcp.Err? {
        return Err(tcp.error);
      }
      packet := packet.(transport := Tcp(tcp.value.0));
      return Ok(packet);
    }
    if ip.proto == PROTO_ICMP || ip.proto == PROTO_ICMPV6 {
      var icmp := DecodeIcmp(l4, ip.proto == PROTO_ICMPV6);
      if icmp.Err? {
        return Err(icmp.error);
      }
      packet := packet.(transport := Icmp(icmp.value));
      return Ok(packet);
    }
    if ip.proto != PROTO_UDP {
      packet := packet.(transport := Other(ip.proto));
      return Ok(packet);
    }
    var udp := DecodeUdp(l4);
    if udp.Err? {
      return Err(udp.error);
    }
    packet := packet.(transport := Udp(udp.value.0));
    var (sport, dport) := packet.transport.Ports();
    var payload := udp.value.1;
    if (sport == DNS_PORT || dport == DNS_PORT) && payload != [] {
      var info := ParseDns(payload);
      packet := packet.(app := if info.Ok? then Dns(info.value) else DnsError(info.error));
    }
    r := Ok(packet);
  }
}
