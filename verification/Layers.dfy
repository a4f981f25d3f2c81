/** The per-layer header parsers of `packet/`, except DNS. */
module Layers {
  import opened Ints
  import opened Wrappers
  import opened PacketTypes

  type Parsed<T> = Result<(T, bytes), ParseError>

  datatype Checked = Enough | Short(error: ParseError) {
    predicate IsFailure() {
      Short?
    }

    function PropagateFailure<T>(): Result<T, ParseError>
      requires Short?
    {
      Err(error)
    }
  }

  function Need(buf: bytes, len: nat, layer: Layer): Checked {
    if |buf| < len then Short(Truncated(layer, len, |buf|)) else Enough
  }

  // ---------------------------------------------------------------- ethernet.rs

  const ETHERTYPE_IPV4: u16 := 0x0800
  const ETHERTYPE_IPV6: u16 := 0x86DD
  const ETHERTYPE_VLAN: u16 := 0x8100
  const ETHERTYPE_QINQ: u16 := 0x88A8
  const ETH_HEADER_LEN: nat := 14
  const VLAN_TAG_LEN: nat := 4
  const MAX_VLAN_TAGS: nat := 2

  datatype EthernetHeader = EthernetHeader(dst: bytes, src: bytes, ethertype: u16, vlanTags: nat)

  predicate IsTag(ethertype: u16) {
    ethertype == ETHERTYPE_VLAN || ethertype == ETHERTYPE_QINQ
  }

  /** Skips tags from `offset` on: the inner ethertype, the payload's offset and the number of tags. */
  function SkipTags(buf: bytes, ethertype: u16, offset: nat, tags: nat): (r: Result<(u16, nat, nat), ParseError>)
    requires offset <= |buf|
    ensures r.Ok? ==> !IsTag(r.value.0) && offset <= r.value.1 <= |buf| && tags <= r.value.2 <= Max(tags, MAX_VLAN_TAGS)
    decreases MAX_VLAN_TAGS - tags
  {
    if !IsTag(ethertype) then Ok((ethertype, offset, tags))
    else if tags >= MAX_VLAN_TAGS then Err(Malformed(LinkLayer, TooManyVlanTags))
    else
      :- Need(buf, offset + VLAN_TAG_LEN, LinkLayer);
      SkipTags(buf, Be16(buf, offset + 2), offset + VLAN_TAG_LEN, tags + 1)
  }

  function DecodeEthernet(buf: bytes): Parsed<EthernetHeader> {
    if |buf| < ETH_HEADER_LEN then Err(Truncated(LinkLayer, ETH_HEADER_LEN, |buf|))
    else
      var (ethertype, offset, tags) :- SkipTags(buf, Be16(buf, 12), ETH_HEADER_LEN, 0);
      Ok((EthernetHeader(buf[..6], buf[6..12], ethertype, tags), buf[offset..]))
  }

  method ParseEthernet(buf: bytes) returns (r: Parsed<EthernetHeader>)
    ensures r == DecodeEthernet(buf)
  {
    if |buf| < ETH_HEADER_LEN {
      return Err(Truncated(LinkLayer, ETH_HEADER_LEN, |buf|));
    }
    var ethertype := Be16(buf, 12);
    var offset: nat, tags: nat := ETH_HEADER_LEN, 0;
    while IsTag(ethertype)
      invariant tags <= MAX_VLAN_TAGS && offset <= |buf|
      invariant SkipTags(buf, ethertype, offset, tags) == SkipTags(buf, Be16(buf, 12), ETH_HEADER_LEN, 0)
      decreases MAX_VLAN_TAGS - tags
    {
      if tags == MAX_VLAN_TAGS {
        return Err(Malformed(LinkLayer, TooManyVlanTags));
      }
      if |buf| < offset + VLAN_TAG_LEN {
        return Err(Truncated(LinkLayer, offset + VLAN_TAG_LEN, |buf|));
      }
      ethertype := Be16(buf, offset + 2);
      offset, tags := offset + VLAN_TAG_LEN, tags + 1;
    }
    r := Ok((EthernetHeader(buf[..6], buf[6..12], ethertype, tags), buf[offset..]));
  }

  // ---------------------------------------------------------------- ipv4.rs

  const IPV4_MIN_HEADER_LEN: nat := 20

  function DecodeIpv4(buf: bytes): Parsed<IpHeader> {
    if |buf| < IPV4_MIN_HEADER_LEN then Err(Truncated(Ipv4Layer, IPV4_MIN_HEADER_LEN, |buf|))
    else if buf[0] / 0x10 != 4 then Err(Malformed(Ipv4Layer, NotVersion4))
    else
      var headerLen := buf[0] % 0x10 * 4;
      if headerLen < IPV4_MIN_HEADER_LEN then Err(Malformed(Ipv4Layer, HeaderBelow20))
      else
        :- Need(buf, headerLen, Ipv4Layer);
        var totalLen := Be16(buf, 2);
        if totalLen < headerLen then Err(Malformed(Ipv4Layer, TotalBelowHeader))
        else
          var field := Be16(buf, 6);
          Ok((IpHeader(V4(Be32(buf, 12)), V4(Be32(buf, 16)), buf[9], buf[8], field / 0x2000 % 2 == 1, field % 0x2000),
              buf[headerLen..Min(totalLen, |buf|)]))
  }

  // ---------------------------------------------------------------- ipv6.rs

  const IPV6_HEADER_LEN: nat := 40
  const MAX_EXTENSION_HEADERS: nat := 8
  const NH_HOP_BY_HOP: byte := 0
  const NH_ROUTING: byte := 43
  const NH_FRAGMENT: byte := 44
  const NH_AUTH: byte := 51
  const NH_DEST_OPTS: byte := 60
  const FRAGMENT_HEADER_LEN: nat := 8

  function Be128(buf: bytes, at: nat): u128
    requires at + 16 <= |buf|
  {
    ((Be32(buf, at) as int * 0x1_0000_0000 + Be32(buf, at + 4)) * 0x1_0000_0000 + Be32(buf, at + 8)) * 0x1_0000_0000
    + Be32(buf, at + 12)
  }

  predicate IsExtension(proto: byte) {
    proto in [NH_HOP_BY_HOP, NH_ROUTING, NH_DEST_OPTS, NH_AUTH, NH_FRAGMENT]
  }

  /** Bytes an extension header must have before its own length is known. */
  function ExtensionPrefix(proto: byte): nat {
    if proto == NH_FRAGMENT then FRAGMENT_HEADER_LEN else 2
  }

  function ExtensionLen(packet: bytes, proto: byte, offset: nat): nat
    requires IsExtension(proto) && offset + 2 <= |packet|
  {
    if proto == NH_FRAGMENT then FRAGMENT_HEADER_LEN
    else if proto == NH_AUTH then (packet[offset + 1] as int + 2) * 4
    else (packet[offset + 1] as int + 1) * 8
  }

  /** The header after the extension at `offset` has been read. */
  function AfterExtension(packet: bytes, header: IpHeader, offset: nat): IpHeader
    requires IsExtension(header.proto) && offset + ExtensionPrefix(header.proto) <= |packet|
  {
    var read := if header.proto != NH_FRAGMENT then header
                else
                  var field := Be16(packet, offset + 2);
                  header.(fragmentOffset := field / 8, moreFragments := field % 2 == 1);
    read.(proto := packet[offset])
  }

  /** Walks extension headers from `offset`, looking at no more than `rounds` next-header values. */
  function Walk(packet: bytes, header: IpHeader, offset: nat, rounds: nat): Parsed<IpHeader>
    requires offset <= |packet|
    decreases rounds
  {
    if rounds == 0 then Err(Malformed(Ipv6Layer, TooManyExtensionHeaders))
    else if !IsExtension(header.proto) then Ok((header, packet[offset..]))
    else
      :- Need(packet, offset + ExtensionPrefix(header.proto), Ipv6Layer);
      var len := ExtensionLen(packet, header.proto, offset);
      :- Need(packet, offset + len, Ipv6Layer);
      Walk(packet, AfterExtension(packet, header, offset), offset + len, rounds - 1)
  }

  function DecodeIpv6(buf: bytes): Parsed<IpHeader> {
    if |buf| < IPV6_HEADER_LEN then Err(Truncated(Ipv6Layer, IPV6_HEADER_LEN, |buf|))
    else if buf[0] / 0x10 != 6 then Err(Malformed(Ipv6Layer, NotVersion6))
    else
      Walk(buf[..Min(IPV6_HEADER_LEN + Be16(buf, 4), |buf|)], FixedHeader(buf), IPV6_HEADER_LEN, MAX_EXTENSION_HEADERS)
  }

  function FixedHeader(buf: bytes): IpHeader
    requires |buf| >= IPV6_HEADER_LEN
  {
    IpHeader(V6(Be128(buf, 8)), V6(Be128(buf, 24)), buf[6], buf[7], false, 0)
  }

  method ParseIpv6(buf: bytes) returns (r: Parsed<IpHeader>)
    ensures r == DecodeIpv6(buf)
  {
    hide FixedHeader, ExtensionLen, AfterExtension, Be16;
    if |buf| < IPV6_HEADER_LEN {
      return Err(Truncated(Ipv6Layer, IPV6_HEADER_LEN, |buf|));
    }
    if buf[0] / 0x10 != 6 {
      return Err(Malformed(Ipv6Layer, NotVersion6));
    }
    var packet := buf[..Min(IPV6_HEADER_LEN + Be16(buf, 4), |buf|)];
    var header, offset: nat := FixedHeader(buf), IPV6_HEADER_LEN;
    for i: nat := 0 to MAX_EXTENSION_HEADERS
      invariant offset <= |packet|
      invariant Walk(packet, header, offset, MAX_EXTENSION_HEADERS - i) == DecodeIpv6(buf)
    {
      if !IsExtension(header.proto) {
        return Ok((header, packet[offset..]));
      }
      var prefix := ExtensionPrefix(header.proto);
      if |packet| < offset + prefix {
        return Err(Truncated(Ipv6Layer, offset + prefix, |packet|));
      }
      var len := ExtensionLen(packet, header.proto, offset);
      if |packet| < offset + len {
        return Err(Truncated(Ipv6Layer, offset + len, |packet|));
      }
      header := AfterExtension(packet, header, offset);
      offset := offset + len;
    }
    r := Err(Malformed(Ipv6Layer, TooManyExtensionHeaders));
  }

  // ---------------------------------------------------------------- tcp.rs, udp.rs, icmp.rs

  const TCP_MIN_HEADER_LEN: nat := 20
  const UDP_HEADER_LEN: nat := 8
  const ICMP_HEADER_LEN: nat := 4

  function DecodeTcp(buf: bytes): Parsed<TcpHeader> {
    if |buf| < TCP_MIN_HEADER_LEN then Err(Truncated(TcpLayer, TCP_MIN_HEADER_LEN, |buf|))
    else
      var headerLen := buf[12] / 0x10 * 4;
      if headerLen < TCP_MIN_HEADER_LEN then Err(Malformed(TcpLayer, DataOffsetBelow5))
      else
        :- Need(buf, headerLen, TcpLayer);
        Ok((TcpHeader(Be16(buf, 0), Be16(buf, 2), Be32(buf, 4), Be32(buf, 8), buf[13], Be16(buf, 14)), buf[headerLen..]))
  }

  function DecodeUdp(buf: bytes): Parsed<UdpHeader> {
    if |buf| < UDP_HEADER_LEN then Err(Truncated(UdpLayer, UDP_HEADER_LEN, |buf|))
    else
      var declared := Be16(buf, 4);
      if declared != 0 && declared < UDP_HEADER_LEN then Err(Malformed(UdpLayer, LengthBelowHeader))
      else
        var end := if declared == 0 then |buf| else Min(declared, |buf|);
        Ok((UdpHeader(Be16(buf, 0), Be16(buf, 2), declared), buf[UDP_HEADER_LEN..end]))
  }

  function DecodeIcmp(buf: bytes, v6: bool): Result<IcmpHeader, ParseError> {
    if |buf| < ICMP_HEADER_LEN then Err(Truncated(IcmpLayer, ICMP_HEADER_LEN, |buf|))
    else
      Ok(IcmpHeader(buf[0], buf[1], v6))
  }
}
