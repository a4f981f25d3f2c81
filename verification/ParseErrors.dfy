/**
 * What parse errors say: malformed is final, however much more of a frame had been captured, and truncated means that
 * bytes are missing.
 */
module ParseErrors {
  import opened Ints
  import opened Wrappers
  import opened PacketTypes
  import opened Layers
  import opened Parser
  import opened Transparency

  // ---------------------------------------------------------------- one layer

  /** Why an IPv4 header is refused. */
  lemma Ipv4FailsIff(buf: bytes)
    ensures DecodeIpv4(buf) == Err(Malformed(Ipv4Layer, NotVersion4)) <==> |buf| >= 20 && !(0x40 <= buf[0] < 0x50)
    ensures DecodeIpv4(buf) == Err(Malformed(Ipv4Layer, HeaderBelow20)) <==> |buf| >= 20 && 0x40 <= buf[0] < 0x45
    ensures DecodeIpv4(buf) == Err(Malformed(Ipv4Layer, TotalBelowHeader)) <==>
              && |buf| >= 20 && 0x45 <= buf[0] < 0x50 && |buf| >= (buf[0] as int - 0x40) * 4
              && buf[2] as int * 0x100 + buf[3] as int < (buf[0] as int - 0x40) * 4
    ensures DecodeIpv4(buf).Err? && DecodeIpv4(buf).error.Malformed? ==>
              DecodeIpv4(buf).error.layer == Ipv4Layer && DecodeIpv4(buf).error.reason in {NotVersion4, HeaderBelow20, TotalBelowHeader}
    ensures DecodeIpv4(buf).Err? && DecodeIpv4(buf).error.Truncated? <==>
              |buf| < 20 || (0x45 <= buf[0] < 0x50 && |buf| < (buf[0] as int - 0x40) * 4)
    ensures DecodeIpv4(buf).Err? && DecodeIpv4(buf).error.Truncated? ==>
              DecodeIpv4(buf).error == Truncated(Ipv4Layer, if |buf| < 20 then 20 else (buf[0] as int - 0x40) * 4, |buf|)
  {
  }

  /** Why a TCP header is refused. */
  lemma TcpFailsIff(buf: bytes)
    ensures DecodeTcp(buf) == Err(Malformed(TcpLayer, DataOffsetBelow5)) <==> |buf| >= 20 && buf[12] < 0x50
    ensures DecodeTcp(buf).Err? && DecodeTcp(buf).error.Malformed? ==> DecodeTcp(buf).error == Malformed(TcpLayer, DataOffsetBelow5)
    ensures DecodeTcp(buf).Err? && DecodeTcp(buf).error.Truncated? <==>
              |buf| < 20 || (buf[12] >= 0x50 && |buf| < buf[12] as int / 0x10 * 4)
    ensures DecodeTcp(buf).Err? && DecodeTcp(buf).error.Truncated? ==>
              DecodeTcp(buf).error == Truncated(TcpLayer, if |buf| < 20 then 20 else buf[12] as int / 0x10 * 4, |buf|)
  {
  }

  /** Why a UDP or ICMP header is refused. */
  lemma UdpIcmpFailIff(buf: bytes, v6: bool)
    ensures DecodeUdp(buf) == Err(Malformed(UdpLayer, LengthBelowHeader)) <==> |buf| >= 8 && buf[4] == 0 && 0 < buf[5] < 8
    ensures DecodeUdp(buf) == Err(Truncated(UdpLayer, 8, |buf|)) <==> |buf| < 8
    ensures DecodeUdp(buf).Err? ==> DecodeUdp(buf).error in {Malformed(UdpLayer, LengthBelowHeader), Truncated(UdpLayer, 8, |buf|)}
    ensures DecodeIcmp(buf, v6).Err? <==> |buf| < 4
    ensures |buf| < 4 ==> DecodeIcmp(buf, v6) == Err(Truncated(IcmpLayer, 4, |buf|))
  {
  }

  // ---------------------------------------------------------------- more bytes

  ghost predicate IsMalformed<T>(r: Result<T, ParseError>) {
    r.Err? && r.error.Malformed?
  }

  lemma {:induction false} TagsMore(buf: bytes, more: bytes, ethertype: u16, offset: nat, tags: nat)
    requires offset <= |buf|
    ensures var r := SkipTags(buf, ethertype, offset, tags);
            r.Ok? || IsMalformed(r) ==> SkipTags(buf + more, ethertype, offset, tags) == r
    decreases MAX_VLAN_TAGS - tags
  {
    if !IsTag(ethertype) || tags >= MAX_VLAN_TAGS || offset + VLAN_TAG_LEN > |buf| {
    } else {
      TagsMore(buf, more, Be16(buf, offset + 2), offset + VLAN_TAG_LEN, tags + 1);
    }
  }

  lemma EthernetMore(buf: bytes, more: bytes)
    ensures IsMalformed(DecodeEthernet(buf)) ==> DecodeEthernet(buf + more) == DecodeEthernet(buf)
    ensures DecodeEthernet(buf).Ok? ==>
              DecodeEthernet(buf + more) == Ok((DecodeEthernet(buf).value.0, DecodeEthernet(buf).value.1 + more))
  {
    hide SkipTags;
    if |buf| >= 14 {
      TagsMore(buf, more, Be16(buf, 12), 14, 0);
      assert (buf + more)[..6] == buf[..6] && (buf + more)[6..12] == buf[6..12];
      var r := SkipTags(buf, Be16(buf, 12), 14, 0);
      if r.Ok? {
        assert (buf + more)[r.value.1..] == buf[r.value.1..] + more;
      }
    }
  }

  /** The payload can only grow, up to what the header announces. */
  ghost predicate Grows<T>(r: Parsed<T>, r': Parsed<T>) {
    r.Ok? && r'.Ok? && r'.value.0 == r.value.0 && r.value.1 <= r'.value.1
  }

  lemma Ipv4More(buf: bytes, more: bytes)
    ensures IsMalformed(DecodeIpv4(buf)) ==> DecodeIpv4(buf + more) == DecodeIpv4(buf)
    ensures DecodeIpv4(buf).Ok? ==> Grows(DecodeIpv4(buf), DecodeIpv4(buf + more))
  {
  }

  lemma {:induction false} WalkMore(packet: bytes, more: bytes, header: IpHeader, offset: nat, rounds: nat)
    requires offset <= |packet|
    ensures var r, r' := Walk(packet, header, offset, rounds), Walk(packet + more, header, offset, rounds);
            (IsMalformed(r) ==> r' == r) && (r.Ok? ==> Grows(r, r'))
    decreases rounds
  {
    hide AfterExtension, ExtensionLen, IsExtension;
    if rounds == 0 || !IsExtension(header.proto) || offset + ExtensionPrefix(header.proto) > |packet|
       || offset + ExtensionLen(packet, header.proto, offset) > |packet| {
      SameExtension(packet, more, header, offset);
    } else {
      SameExtension(packet, more, header, offset);
      WalkMore(packet, more, AfterExtension(packet, header, offset), offset + ExtensionLen(packet, header.proto, offset), rounds - 1);
    }
  }

  lemma SameExtension(packet: bytes, more: bytes, header: IpHeader, offset: nat)
    ensures IsExtension(header.proto) && offset + ExtensionPrefix(header.proto) <= |packet| ==>
              && ExtensionLen(packet + more, header.proto, offset) == ExtensionLen(packet, header.proto, offset)
              && AfterExtension(packet + more, header, offset) == AfterExtension(packet, header, offset)
  {
  }

  lemma Ipv6More(buf: bytes, more: bytes)
    ensures IsMalformed(DecodeIpv6(buf)) ==> DecodeIpv6(buf + more) == DecodeIpv6(buf)
    ensures DecodeIpv6(buf).Ok? ==> Grows(DecodeIpv6(buf), DecodeIpv6(buf + more))
  {
    hide Walk, FixedHeader, Be16;
    if |buf| >= 40 {
      var longer := buf + more;
      SameFixedHeader(buf, more);
      var n, m := Min(40 + Be16(buf, 4), |buf|), Min(40 + Be16(buf, 4), |longer|);
      assert longer[..m] == buf[..n] + longer[n..m];
      WalkMore(buf[..n], longer[n..m], FixedHeader(buf), 40, MAX_EXTENSION_HEADERS);
    }
  }

  lemma TransportMore(packet: Packet, ip: IpHeader, l4: bytes, longer: bytes)
    requires l4 <= longer && IsMalformed(DecodeTransport(packet, ip, l4))
    ensures DecodeTransport(packet, ip, longer) == DecodeTransport(packet, ip, l4)
  {
    hide DecodeApp;
  }

  lemma IpMore(packet: Packet, version: nat, l3: bytes, more: bytes)
    requires IsMalformed(DecodeIp(packet, version, l3))
    ensures DecodeIp(packet, version, l3 + more) == DecodeIp(packet, version, l3)
  {
    hide DecodeIpv4, DecodeIpv6, DecodeTransport;
    Ipv4More(l3, more);
    Ipv6More(l3, more);
    if version == 4 && DecodeIpv4(l3).Ok? {
      var (ip, l4) := DecodeIpv4(l3).value;
      TransportMore(packet.(ip := Some(ip)), ip, l4, DecodeIpv4(l3 + more).value.1);
    }
    if version == 6 && DecodeIpv6(l3).Ok? {
      var (ip, l4) := DecodeIpv6(l3).value;
      TransportMore(packet.(ip := Some(ip)), ip, l4, DecodeIpv6(l3 + more).value.1);
    }
  }

  lemma NetworkMore(packet: Packet, l3: bytes, more: bytes)
    requires IsMalformed(DecodeNetwork(packet, l3))
    ensures DecodeNetwork(packet, l3 + more) == DecodeNetwork(packet, l3)
  {
    hide DecodeIp;
    if packet.ethertype == Some(ETHERTYPE_IPV4) {
      IpMore(packet, 4, l3, more);
    } else if packet.ethertype == Some(ETHERTYPE_IPV6) {
      IpMore(packet, 6, l3, more);
    } else if packet.ethertype.None? && l3 != [] {
      IpMore(packet, l3[0] / 0x10, l3, more);
    }
  }

  /** A frame found malformed stays so, for the same reason, however many more of its bytes had been captured. */
  lemma MalformedIsFinal(link: LinkType, frame: Frame, more: bytes)
    requires IsMalformed(Decode(link, frame))
    ensures Decode(link, frame.(data := frame.data + more)) == Decode(link, frame)
  {
    hide DecodeEthernet, DecodeNetwork;
    match link
    case Ethernet =>
      EthernetMore(frame.data, more);
      if DecodeEthernet(frame.data).Ok? {
        var (eth, l3) := DecodeEthernet(frame.data).value;
        NetworkMore(Blank(frame, Some(eth.ethertype)), l3, more);
      }
    case NullLink =>
      assert |frame.data| >= 4 ==> (frame.data + more)[4..] == frame.data[4..] + more;
      if |frame.data| >= 4 {
        NetworkMore(Blank(frame, None), frame.data[4..], more);
      }
    case Raw => NetworkMore(Blank(frame, None), frame.data, more);
  }

  /** A truncation error names more bytes than there are. */
  lemma {:induction false} WalkTruncated(packet: bytes, header: IpHeader, offset: nat, rounds: nat)
    requires offset <= |packet|
    ensures var r := Walk(packet, header, offset, rounds);
            && (r.Err? && r.error.Truncated? ==>
                  r.error.layer == Ipv6Layer && r.error.available == |packet| && r.error.available < r.error.needed)
            && (IsMalformed(r) ==> r.error == Malformed(Ipv6Layer, TooManyExtensionHeaders))
    decreases rounds
  {
    if rounds == 0 || !IsExtension(header.proto) || offset + ExtensionPrefix(header.proto) > |packet|
       || offset + ExtensionLen(packet, header.proto, offset) > |packet| {
    } else {
      WalkTruncated(packet, AfterExtension(packet, header, offset), offset + ExtensionLen(packet, header.proto, offset), rounds - 1);
    }
  }

  lemma {:induction false} TagsTruncated(buf: bytes, ethertype: u16, offset: nat, tags: nat)
    requires offset <= |buf|
    ensures var r := SkipTags(buf, ethertype, offset, tags);
            && (r.Err? && r.error.Truncated? ==>
                  r.error.layer == LinkLayer && r.error.available == |buf| && r.error.available < r.error.needed)
            && (IsMalformed(r) ==> r.error == Malformed(LinkLayer, TooManyVlanTags))
    decreases MAX_VLAN_TAGS - tags
  {
    if !IsTag(ethertype) || tags >= MAX_VLAN_TAGS || offset + VLAN_TAG_LEN > |buf| {
    } else {
      TagsTruncated(buf, Be16(buf, offset + 2), offset + VLAN_TAG_LEN, tags + 1);
    }
  }

  /** Why an Ethernet or IPv6 header is refused. */
  lemma EthernetIpv6Fail(buf: bytes)
    ensures var r := DecodeEthernet(buf);
            && (|buf| < 14 ==> r == Err(Truncated(LinkLayer, 14, |buf|)))
            && (r.Err? && r.error.Truncated? ==>
                  r.error.layer == LinkLayer && r.error.available == |buf| && r.error.available < r.error.needed)
            && (IsMalformed(r) ==> r.error == Malformed(LinkLayer, TooManyVlanTags))
    ensures var r := DecodeIpv6(buf);
            && (|buf| < 40 ==> r == Err(Truncated(Ipv6Layer, 40, |buf|)))
            && (r == Err(Malformed(Ipv6Layer, NotVersion6)) <==> |buf| >= 40 && !(0x60 <= buf[0] < 0x70))
            && (r.Err? && r.error.Truncated? ==> r.error.layer == Ipv6Layer && r.error.available < r.error.needed)
            && (IsMalformed(r) ==> r.error.layer == Ipv6Layer && r.error.reason in {NotVersion6, TooManyExtensionHeaders})
  {
    hide Walk, SkipTags;
    if |buf| >= 14 {
      TagsTruncated(buf, Be16(buf, 12), 14, 0);
    }
    if |buf| >= 40 {
      WalkTruncated(buf[..Min(40 + Be16(buf, 4), |buf|)], FixedHeader(buf), 40, MAX_EXTENSION_HEADERS);
    }
  }

  /** How much of the first extension header must be there before its length is known, and how much in all. */
  lemma FirstExtensionTruncated(buf: bytes)
    requires |buf| >= 40 && 0x60 <= buf[0] < 0x70
    ensures var n := Min(40 + Be16(buf, 4), |buf|);
            && (buf[6] in {0, 43, 51, 60} && n < 42 ==> DecodeIpv6(buf) == Err(Truncated(Ipv6Layer, 42, n)))
            && (buf[6] in {0, 43, 60} && 42 <= n < 40 + (buf[41] as int + 1) * 8 ==>
                  DecodeIpv6(buf) == Err(Truncated(Ipv6Layer, 40 + (buf[41] as int + 1) * 8, n)))
            && (buf[6] == 51 && 42 <= n < 40 + (buf[41] as int + 2) * 4 ==>
                  DecodeIpv6(buf) == Err(Truncated(Ipv6Layer, 40 + (buf[41] as int + 2) * 4, n)))
            && (buf[6] == 44 && n < 48 ==> DecodeIpv6(buf) == Err(Truncated(Ipv6Layer, 48, n)))
  {
    hide Be16, Be128, AfterExtension;
    var n := Min(40 + Be16(buf, 4), |buf|);
    assert n > 41 ==> buf[..n][41] == buf[41];
  }

  /** Whatever is truncated, at whatever layer, lacks bytes; and the link layer has its own reasons. */
  lemma TruncatedLacksBytes(link: LinkType, frame: Frame)
    ensures var r := Decode(link, frame);
            && (r.Err? && r.error.Truncated? ==> r.error.available < r.error.needed)
            && (link.NullLink? && |frame.data| < 4 ==> r == Err(Truncated(LinkLayer, 4, |frame.data|)))
            && (link.NullLink? && |frame.data| == 4 ==> r == Err(Truncated(LinkLayer, 1, 0)))
            && (link.NullLink? && |frame.data| > 4 && frame.data[4] / 0x10 !in {4, 6} ==>
                  r == Err(Malformed(LinkLayer, UnknownIpVersion)))
            && (link.Raw? && frame.data == [] ==> r == Err(Truncated(LinkLayer, 1, 0)))
            && (link.Raw? && frame.data != [] && frame.data[0] / 0x10 !in {4, 6} ==>
                  r == Err(Malformed(LinkLayer, UnknownIpVersion)))
  {
    hide DecodeEthernet, DecodeNetwork;
    if link.Ethernet? {
      EthernetIpv6Fail(frame.data);
      if DecodeEthernet(frame.data).Ok? {
        var (eth, l3) := DecodeEthernet(frame.data).value;
        NetworkLacksBytes(Blank(frame, Some(eth.ethertype)), l3);
      }
    } else {
      NetworkLacksBytes(Blank(frame, None), if link.Raw? then frame.data else if |frame.data| >= 4 then frame.data[4..] else []);
    }
  }

  lemma NetworkLacksBytes(packet: Packet, l3: bytes)
    ensures var r := DecodeNetwork(packet, l3);
            && (r.Err? && r.error.Truncated? ==> r.error.available < r.error.needed)
            && (packet.ethertype.None? && l3 == [] ==> r == Err(Truncated(LinkLayer, 1, 0)))
            && (packet.ethertype.None? && l3 != [] && l3[0] / 0x10 !in {4, 6} ==> r == Err(Malformed(LinkLayer, UnknownIpVersion)))
  {
    hide DecodeIpv6, DecodeApp, Be16, Be32;
    EthernetIpv6Fail(l3);
  }
}
