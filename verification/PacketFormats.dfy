/**
 * Whole packets as they stand on the wire: which frames of which link type the decoder accepts, and what it makes of them,
 * layer by layer.
 */
module PacketFormats {
  import opened Ints
  import opened Wrappers
  import opened PacketTypes
  import opened Layers
  import opened DnsParser
  import opened Parser
  import opened WireFormats
  import opened Transparency

  // ---------------------------------------------------------------- transport and application

  /** What a datagram to or from the name service port carries. */
  ghost predicate IsApp(udp: UdpHeader, payload: bytes, app: App) {
    if (udp.srcPort == 53 || udp.dstPort == 53) && payload != [] then
      match app
      case Dns(info) => exists low, high, steps :: IsDnsMessage(payload, info, low, high, steps)
      case DnsError(e) => DecodeDns(payload) == Err(e)
      case NoApp => false
    else app == NoApp
  }

  ghost predicate IsUdpWith(l4: bytes, udp: UdpHeader, app: App) {
    exists payload, checksum, body :: IsUdpDatagram(l4, udp, payload, checksum, body) && IsApp(udp, payload, app)
  }

  ghost predicate IsTcpWith(l4: bytes, tcp: TcpHeader) {
    exists payload, offset, tail :: IsTcpSegment(l4, tcp, payload, offset, tail)
  }

  /** What follows the network header: nothing of a later fragment is looked at, and only four protocols are known. */
  ghost predicate IsTransport(ip: IpHeader, l4: bytes, transport: Transport, app: App) {
    if ip.fragmentOffset != 0 then transport == LaterFragment && app == NoApp
    else if ip.proto == 6 then transport.Tcp? && IsTcpWith(l4, transport.tcp) && app == NoApp
    else if ip.proto == 17 then transport.Udp? && IsUdpWith(l4, transport.udp, app)
    else if ip.proto == 1 || ip.proto == 58 then
      |l4| >= 4 && transport == Icmp(IcmpHeader(l4[0], l4[1], ip.proto == 58)) && app == NoApp
    else transport == Other(ip.proto) && app == NoApp
  }

  lemma AppIff(udp: UdpHeader, payload: bytes, app: App)
    ensures DecodeApp(udp, payload) == app <==> IsApp(udp, payload, app)
  {
    hide DecodeDns, IsDnsMessage;
    if app.Dns? {
      DnsIff(payload, app.info);
    }
  }

  lemma UdpWithIff(l4: bytes, udp: UdpHeader, app: App)
    ensures IsUdpWith(l4, udp, app) <==>
            DecodeUdp(l4).Ok? && DecodeUdp(l4).value.0 == udp && DecodeApp(udp, DecodeUdp(l4).value.1) == app
  {
    hide DecodeUdp, DecodeApp, IsUdpDatagram, IsApp;
    if IsUdpWith(l4, udp, app) {
      var payload, checksum, body :| IsUdpDatagram(l4, udp, payload, checksum, body) && IsApp(udp, payload, app);
      UdpIff(l4, udp, payload);
      AppIff(udp, payload, app);
    }
    if DecodeUdp(l4).Ok? && DecodeUdp(l4).value.0 == udp && DecodeApp(udp, DecodeUdp(l4).value.1) == app {
      var payload := DecodeUdp(l4).value.1;
      UdpIff(l4, udp, payload);
      AppIff(udp, payload, app);
      var checksum, body :| IsUdpDatagram(l4, udp, payload, checksum, body);
    }
  }

  lemma TcpWithIff(l4: bytes, tcp: TcpHeader)
    ensures IsTcpWith(l4, tcp) <==> DecodeTcp(l4).Ok? && DecodeTcp(l4).value.0 == tcp
  {
    hide DecodeTcp, IsTcpSegment;
    if IsTcpWith(l4, tcp) {
      var payload, offset, tail :| IsTcpSegment(l4, tcp, payload, offset, tail);
      TcpIff(l4, tcp, payload);
    }
    if DecodeTcp(l4).Ok? && DecodeTcp(l4).value.0 == tcp {
      TcpIff(l4, tcp, DecodeTcp(l4).value.1);
    }
  }

  lemma TransportIff(blank: Packet, ip: IpHeader, l4: bytes, p: Packet)
    requires blank.app == NoApp
    ensures DecodeTransport(blank, ip, l4) == Ok(p) <==>
            p == blank.(transport := p.transport, app := p.app) && IsTransport(ip, l4, p.transport, p.app)
  {
    hide DecodeTcp, DecodeUdp, DecodeApp, IsTcpWith, IsUdpWith;
    if p.transport.Tcp? {
      TcpWithIff(l4, p.transport.tcp);
    }
    if p.transport.Udp? {
      UdpWithIff(l4, p.transport.udp, p.app);
    }
  }

  // ---------------------------------------------------------------- IPv6

  ghost predicate IsExtensionHeader(e: Extension) {
    && |e.body| >= 1
    && match e.kind
       case 44 => |e.body| == 7
       case 51 => |e.body| == (e.body[0] as int + 2) * 4 - 1
       case _ => e.kind in {0, 43, 60} && |e.body| == (e.body[0] as int + 1) * 8 - 1
  }

  /** Offset in units of eight octets, and whether more follow, as the last fragment header says. */
  ghost function FragmentOf(exts: seq<Extension>): (u16, bool)
    requires forall i :: 0 <= i < |exts| ==> IsExtensionHeader(exts[i])
  {
    if exts == [] then (0, false)
    else
      var last := exts[|exts| - 1];
      assert IsExtensionHeader(last);
      if last.kind != 44 then FragmentOf(exts[..|exts| - 1])
      else ((last.body[1] as int * 0x100 + last.body[2] as int) / 8, last.body[2] % 2 == 1)
  }

  /**
   * A fixed header with hop limit and addresses, at most seven extension headers, and a payload; announced length or
   * capture end, whichever comes first, cuts it off.
   */
  ghost predicate IsIpv6Datagram(l3: bytes, ip: IpHeader, payload: bytes, exts: seq<Extension>) {
    && |l3| >= 40 && l3[0] / 0x10 == 6
    && ip.src.V6? && ip.dst.V6? && l3[8..24] == ToBe128(ip.src.v6) && l3[24..40] == ToBe128(ip.dst.v6) && ip.ttl == l3[7]
    && |exts| <= 7 && (forall i :: 0 <= i < |exts| ==> IsExtensionHeader(exts[i]))
    && ip.proto !in {0, 43, 44, 51, 60} && l3[6] == Announced(exts, ip.proto)
    && l3[40..Min(40 + (l3[4] as int * 0x100 + l3[5] as int), |l3|)] == EncodeChain(exts, ip.proto) + payload
    && (ip.fragmentOffset, ip.moreFragments) == FragmentOf(exts)
  }

  lemma ExtensionIff(e: Extension)
    ensures IsExtensionHeader(e) <==> WellFormed(e)
  {
  }

  lemma {:induction false} ChainFields(header: IpHeader, exts: seq<Extension>, proto: byte)
    requires forall i :: 0 <= i < |exts| ==> IsExtensionHeader(exts[i])
    ensures AllWellFormed(exts)
    ensures ThroughChain(header, exts, proto)
            == var (offset, more) := if HasFragment(exts) then FragmentOf(exts) else (header.fragmentOffset, header.moreFragments);
               header.(proto := proto, fragmentOffset := offset, moreFragments := more)
    decreases |exts|
  {
    hide ThroughOne, IsExtensionHeader, WellFormed;
    forall i | 0 <= i < |exts|
      ensures WellFormed(exts[i])
    {
      ExtensionIff(exts[i]);
    }
    if exts == [] {
    } else {
      ChainFields(ThroughOne(header, exts[0], Announced(exts[1..], proto)), exts[1..], proto);
      OneField(header, exts[0], Announced(exts[1..], proto));
      FragmentCons(exts);
    }
  }

  ghost predicate HasFragment(exts: seq<Extension>) {
    exists i :: 0 <= i < |exts| && exts[i].kind == 44
  }

  lemma OneField(header: IpHeader, e: Extension, next: byte)
    requires IsExtensionHeader(e) && WellFormed(e)
    ensures ThroughOne(header, e, next)
            == if e.kind == 44 then
                 header.(proto := next, fragmentOffset := (e.body[1] as int * 0x100 + e.body[2] as int) / 8,
                         moreFragments := e.body[2] % 2 == 1)
               else header.(proto := next)
  {
  }

  lemma {:induction false} FragmentCons(exts: seq<Extension>)
    requires exts != [] && forall i :: 0 <= i < |exts| ==> IsExtensionHeader(exts[i])
    ensures HasFragment(exts) <==> exts[0].kind == 44 || HasFragment(exts[1..])
    ensures FragmentOf(exts)
            == if HasFragment(exts[1..]) then FragmentOf(exts[1..])
               else if exts[0].kind == 44 then
                 ((exts[0].body[1] as int * 0x100 + exts[0].body[2] as int) / 8, exts[0].body[2] % 2 == 1)
               else (0, false)
    decreases |exts|
  {
    hide IsExtensionHeader;
    var n := |exts| - 1;
    assert forall i :: 0 <= i < n ==> exts[1..][i] == exts[i + 1];
    if exts[0].kind != 44 && HasFragment(exts) {
      var i :| 0 <= i < |exts| && exts[i].kind == 44;
      assert exts[1..][i - 1].kind == 44;
    }
    if HasFragment(exts[1..]) {
      var i :| 0 <= i < n && exts[1..][i].kind == 44;
      assert exts[i + 1].kind == 44;
    }
    if n == 0 {
      assert exts[..0] == [];
    } else {
      FragmentCons(exts[..n]);
      assert exts[..n][1..] == exts[1..][..n - 1] && exts[1..][n - 1] == exts[n];
      LastFragment(exts[1..]);
    }
  }

  lemma LastFragment(exts: seq<Extension>)
    requires exts != []
    ensures HasFragment(exts) <==> exts[|exts| - 1].kind == 44 || HasFragment(exts[..|exts| - 1])
  {
    var n := |exts| - 1;
    assert forall i :: 0 <= i < n ==> exts[..n][i] == exts[i];
    if HasFragment(exts[..n]) {
      var i :| 0 <= i < n && exts[..n][i].kind == 44;
      assert exts[i].kind == 44;
    }
  }
  lemma {:induction false} NoFragment(exts: seq<Extension>)
    requires forall i :: 0 <= i < |exts| ==> IsExtensionHeader(exts[i])
    requires !HasFragment(exts)
    ensures FragmentOf(exts) == (0, false)
  {
    hide IsExtensionHeader;
    if exts == [] {
    } else {
      LastFragment(exts);
      NoFragment(exts[..|exts| - 1]);
    }
  }

  /** The header behind the chain, from the octets of the fixed header. */
  lemma {:induction false} FieldsIff(l3: bytes, ip: IpHeader, exts: seq<Extension>)
    requires |l3| >= 40 && forall i :: 0 <= i < |exts| ==> IsExtensionHeader(exts[i])
    ensures AllWellFormed(exts)
    ensures ip == ThroughChain(FixedHeader(l3), exts, ip.proto) <==>
            && ip.src.V6? && ip.dst.V6? && l3[8..24] == ToBe128(ip.src.v6) && l3[24..40] == ToBe128(ip.dst.v6) && ip.ttl == l3[7]
            && (ip.fragmentOffset, ip.moreFragments) == FragmentOf(exts)
  {
    hide FixedHeader, ToBe128, FragmentOf, ThroughChain, IsExtensionHeader, WellFormed;
    ChainFields(FixedHeader(l3), exts, ip.proto);
    FixedHeaderIff(l3, FixedHeader(l3));
    FixedHeaderIff(l3, ip.(proto := l3[6], fragmentOffset := 0, moreFragments := false));
    if !HasFragment(exts) {
      NoFragment(exts);
    }
  }

  lemma DatagramIff(l3: bytes, ip: IpHeader, payload: bytes, exts: seq<Extension>)
    ensures IsIpv6Datagram(l3, ip, payload, exts) <==> IsChainOf(l3, exts, ip, payload)
  {
    hide ToBe128, FragmentOf, ThroughChain, IsExtensionHeader, WellFormed, EncodeChain;
    forall i | 0 <= i < |exts|
      ensures IsExtensionHeader(exts[i]) <==> WellFormed(exts[i])
    {
      ExtensionIff(exts[i]);
    }
    if |l3| >= 40 && forall i :: 0 <= i < |exts| ==> IsExtensionHeader(exts[i]) {
      FieldsIff(l3, ip, exts);
    }
  }

  /** The IPv6 decoder accepts exactly these datagrams. */
  lemma Ipv6DatagramIff(l3: bytes, ip: IpHeader, payload: bytes)
    ensures DecodeIpv6(l3) == Ok((ip, payload)) <==> exists exts :: IsIpv6Datagram(l3, ip, payload, exts)
  {
    hide DecodeIpv6, IsIpv6Datagram, IsChainOf;
    Ipv6Iff(l3, ip, payload);
    forall exts
      ensures IsIpv6Datagram(l3, ip, payload, exts) <==> IsChainOf(l3, exts, ip, payload)
    {
      DatagramIff(l3, ip, payload, exts);
    }
    if exts :| IsChainOf(l3, exts, ip, payload) {
      assert IsIpv6Datagram(l3, ip, payload, exts);
    }
  }

  // ---------------------------------------------------------------- link and network

  ghost predicate AreVlanTags(tags: seq<Tag>) {
    forall i :: 0 <= i < |tags| ==> tags[i].tpid in {0x8100, 0x88A8}
  }

  /** Two addresses, at most two VLAN tags, and an ethertype in front of the payload. */
  ghost predicate IsEthernetFrame(data: bytes, ethertype: u16, l3: bytes, tags: seq<Tag>) {
    && |data| >= 12 && |tags| <= 2 && AreVlanTags(tags) && ethertype !in {0x8100, 0x88A8}
    && data[12..] == EncodeTags(tags) + (ToBe16(ethertype) + l3)
  }

  /** What each link type puts in front of the network header. */
  ghost predicate IsLinkFrame(link: LinkType, data: bytes, ethertype: Option<u16>, l3: bytes) {
    match link
    case Ethernet => ethertype.Some? && exists tags :: IsEthernetFrame(data, ethertype.value, l3, tags)
    case NullLink => ethertype.None? && |data| >= 4 && l3 == data[4..]
    case Raw => ethertype.None? && l3 == data
  }

  ghost predicate IsIpv4With(l3: bytes, ip: IpHeader, transport: Transport, app: App) {
    exists l4, ihl, totalLen, x :: IsIpv4Datagram(l3, ip, l4, ihl, totalLen, x) && IsTransport(ip, l4, transport, app)
  }

  ghost predicate IsIpv6With(l3: bytes, ip: IpHeader, transport: Transport, app: App) {
    exists l4, exts :: IsIpv6Datagram(l3, ip, l4, exts) && IsTransport(ip, l4, transport, app)
  }

  /** The network layer, told by the ethertype or, without one, by the version in the first octet. */
  ghost predicate IsNetwork(ethertype: Option<u16>, l3: bytes, ip: Option<IpHeader>, transport: Transport, app: App) {
    match ethertype
    case Some(e) =>
      if e == 0x0800 then ip.Some? && IsIpv4With(l3, ip.value, transport, app)
      else if e == 0x86DD then ip.Some? && IsIpv6With(l3, ip.value, transport, app)
      else ip == None && transport == NoTransport && app == NoApp
    case None =>
      && l3 != [] && ip.Some?
      && (if l3[0] / 0x10 == 4 then IsIpv4With(l3, ip.value, transport, app)
          else l3[0] / 0x10 == 6 && IsIpv6With(l3, ip.value, transport, app))
  }

  ghost predicate IsPacketOf(link: LinkType, frame: Frame, p: Packet, l3: bytes) {
    && p.ts == frame.ts && p.wireLen == frame.wireLen
    && IsLinkFrame(link, frame.data, p.ethertype, l3) && IsNetwork(p.ethertype, l3, p.ip, p.transport, p.app)
  }

  lemma Ipv4WithIff(l3: bytes, ip: IpHeader, blank: Packet, p: Packet)
    requires blank.app == NoApp && blank.ip == Some(ip) && p == blank.(transport := p.transport, app := p.app)
    ensures IsIpv4With(l3, ip, p.transport, p.app) <==>
            DecodeIpv4(l3).Ok? && DecodeIpv4(l3).value.0 == ip && DecodeTransport(blank, ip, DecodeIpv4(l3).value.1) == Ok(p)
  {
    hide DecodeIpv4, DecodeTransport, IsIpv4Datagram, IsTransport;
    if IsIpv4With(l3, ip, p.transport, p.app) {
      var l4, ihl, totalLen, x :|
        IsIpv4Datagram(l3, ip, l4, ihl, totalLen, x) && IsTransport(ip, l4, p.transport, p.app);
      Ipv4Iff(l3, ip, l4);
      TransportIff(blank, ip, l4, p);
    }
    if DecodeIpv4(l3).Ok? && DecodeIpv4(l3).value.0 == ip && DecodeTransport(blank, ip, DecodeIpv4(l3).value.1) == Ok(p) {
      var l4 := DecodeIpv4(l3).value.1;
      Ipv4Iff(l3, ip, l4);
      TransportIff(blank, ip, l4, p);
      var ihl, totalLen, x :| IsIpv4Datagram(l3, ip, l4, ihl, totalLen, x);
    }
  }

  lemma Ipv6WithIff(l3: bytes, ip: IpHeader, blank: Packet, p: Packet)
    requires blank.app == NoApp && blank.ip == Some(ip) && p == blank.(transport := p.transport, app := p.app)
    ensures IsIpv6With(l3, ip, p.transport, p.app) <==>
            DecodeIpv6(l3).Ok? && DecodeIpv6(l3).value.0 == ip && DecodeTransport(blank, ip, DecodeIpv6(l3).value.1) == Ok(p)
  {
    hide DecodeIpv6, DecodeTransport, IsIpv6Datagram, IsTransport;
    if IsIpv6With(l3, ip, p.transport, p.app) {
      var l4, exts :| IsIpv6Datagram(l3, ip, l4, exts) && IsTransport(ip, l4, p.transport, p.app);
      Ipv6DatagramIff(l3, ip, l4);
      TransportIff(blank, ip, l4, p);
    }
    if DecodeIpv6(l3).Ok? && DecodeIpv6(l3).value.0 == ip && DecodeTransport(blank, ip, DecodeIpv6(l3).value.1) == Ok(p) {
      var l4 := DecodeIpv6(l3).value.1;
      Ipv6DatagramIff(l3, ip, l4);
      TransportIff(blank, ip, l4, p);
      var exts :| IsIpv6Datagram(l3, ip, l4, exts);
    }
  }

  lemma TransportFrame(blank: Packet, ip: IpHeader, l4: bytes, p: Packet)
    requires blank.app == NoApp && DecodeTransport(blank, ip, l4) == Ok(p)
    ensures p == blank.(transport := p.transport, app := p.app)
  {
    TransportIff(blank, ip, l4, p);
  }

  /** The two versions, as told apart by the caller. */
  lemma IpIff(blank: Packet, version: nat, l3: bytes, p: Packet)
    requires blank.app == NoApp
    ensures DecodeIp(blank, version, l3) == Ok(p) <==>
            && (version == 4 || version == 6) && p.ip.Some?
            && p == blank.(ip := p.ip, transport := p.transport, app := p.app)
            && (if version == 4 then IsIpv4With(l3, p.ip.value, p.transport, p.app)
                else IsIpv6With(l3, p.ip.value, p.transport, p.app))
  {
    hide DecodeIpv4, DecodeIpv6, DecodeTransport, IsIpv4With, IsIpv6With;
    if p.ip.Some? && p == blank.(ip := p.ip, transport := p.transport, app := p.app) {
      Ipv4WithIff(l3, p.ip.value, blank.(ip := p.ip), p);
      Ipv6WithIff(l3, p.ip.value, blank.(ip := p.ip), p);
    }
    if DecodeIp(blank, version, l3) == Ok(p) {
      var (ip, l4) := if version == 4 then DecodeIpv4(l3).value else DecodeIpv6(l3).value;
      TransportFrame(blank.(ip := Some(ip)), ip, l4, p);
    }
  }

  lemma NetworkIff(blank: Packet, l3: bytes, p: Packet)
    requires blank == Packet(blank.ts, blank.wireLen, blank.ethertype, None, NoTransport, NoApp)
    ensures DecodeNetwork(blank, l3) == Ok(p) <==>
            && p == blank.(ip := p.ip, transport := p.transport, app := p.app)
            && IsNetwork(blank.ethertype, l3, p.ip, p.transport, p.app)
  {
    hide DecodeIp, IsIpv4With, IsIpv6With;
    IpIff(blank, 4, l3, p);
    IpIff(blank, 6, l3, p);
    if l3 != [] {
      IpIff(blank, l3[0] / 0x10, l3, p);
    }
  }

  lemma {:induction false} NoTags(tail: bytes)
    ensures EncodeTags([]) + tail == tail
  {
  }

  lemma {:induction false} TagFirst(tag: Tag, rest: seq<Tag>, tail: bytes)
    ensures EncodeTags([tag] + rest) + tail == ToBe16(tag.tpid) + ToBe16(tag.tci) + (EncodeTags(rest) + tail)
  {
    hide ToBe16;
    assert ([tag] + rest)[1..] == rest;
  }

  lemma {:induction false} SkippedAreTags(buf: bytes, offset: nat, seen: nat) returns (tags: seq<Tag>)
    requires 2 <= offset <= |buf| && seen <= 2 && SkipTags(buf, Be16(buf, offset - 2), offset, seen).Ok?
    ensures var (inner, end, n) := SkipTags(buf, Be16(buf, offset - 2), offset, seen).value;
            && AreVlanTags(tags) && seen + |tags| <= 2 && inner !in {0x8100, 0x88A8}
            && buf[offset - 2..] == EncodeTags(tags) + (ToBe16(inner) + buf[end..])
    decreases 2 - seen
  {
    hide Be16, ToBe16, EncodeTags;
    var ethertype := Be16(buf, offset - 2);
    Respell16(buf, offset - 2);
    if !IsTag(ethertype) {
      tags := [];
      assert buf[offset - 2..] == ToBe16(ethertype) + buf[offset..];
      NoTags(buf[offset - 2..]);
    } else {
      var rest := SkippedAreTags(buf, offset + 4, seen + 1);
      Respell16(buf, offset);
      tags := [Tag(ethertype, Be16(buf, offset))] + rest;
      var (inner, end, n) := SkipTags(buf, Be16(buf, offset + 2), offset + 4, seen + 1).value;
      assert buf[offset - 2..] == ToBe16(ethertype) + ToBe16(Be16(buf, offset)) + buf[offset + 2..];
      TagFirst(Tag(ethertype, Be16(buf, offset)), rest, ToBe16(inner) + buf[end..]);
    }
  }

  lemma {:induction false} TaggedIsSkipped(data: bytes, ethertype: u16, l3: bytes, tags: seq<Tag>)
    requires IsEthernetFrame(data, ethertype, l3, tags)
    ensures |data| >= 14
    ensures SkipTags(data, Be16(data, 12), 14, 0) == Ok((ethertype, 14 + 4 * |tags|, |tags|)) && data[14 + 4 * |tags|..] == l3
  {
    hide EncodeTags, SkipTags, Be16, ToBe16;
    var tail := ToBe16(ethertype) + l3;
    SpelledType(ethertype, l3);
    assert data == data[..12] + (EncodeTags(tags) + tail);
    SkipsEncodedTags(data[..12], tags, tail, 0);
    assert data[12 + 4 * |tags|..] == tail;
    assert data[14 + 4 * |tags|..] == tail[2..];
  }

  lemma SpelledType(ethertype: u16, l3: bytes)
    ensures Be16(ToBe16(ethertype) + l3, 0) == ethertype && (ToBe16(ethertype) + l3)[2..] == l3
  {
  }

  /** A frame is accepted exactly when at most two tags stand between its addresses and its ethertype. */
  lemma EthernetIff(data: bytes, h: EthernetHeader, l3: bytes)
    ensures DecodeEthernet(data) == Ok((h, l3)) <==>
            exists tags :: IsEthernetFrame(data, h.ethertype, l3, tags)
                           && h == EthernetHeader(data[0..6], data[6..12], h.ethertype, |tags|)
  {
    if DecodeEthernet(data) == Ok((h, l3)) {
      var tags := SkippedAreTags(data, 14, 0);
      hide SkipTags;
      var (inner, end, n) := SkipTags(data, Be16(data, 12), 14, 0).value;
      TagsSpell(data, inner, data[end..], tags);
      TaggedIsSkipped(data, inner, l3, tags);
    }
    forall tags | IsEthernetFrame(data, h.ethertype, l3, tags) && h == EthernetHeader(data[0..6], data[6..12], h.ethertype, |tags|)
      ensures DecodeEthernet(data) == Ok((h, l3))
    {
      hide SkipTags;
      TaggedIsSkipped(data, h.ethertype, l3, tags);
      assert data[0..6] == data[..6];
    }
  }

  lemma {:induction false} TagsSpell(data: bytes, ethertype: u16, l3: bytes, tags: seq<Tag>)
    requires |data| >= 12 && |tags| <= 2 && AreVlanTags(tags) && ethertype !in {0x8100, 0x88A8}
    requires data[12..] == EncodeTags(tags) + (ToBe16(ethertype) + l3)
    ensures IsEthernetFrame(data, ethertype, l3, tags)
  {
  }

  lemma DecodedEthernet(frame: Frame, p: Packet)
    ensures Decode(Ethernet, frame) == Ok(p) <==> exists l3 :: IsPacketOf(Ethernet, frame, p, l3)
  {
    hide DecodeEthernet, DecodeNetwork, IsEthernetFrame, IsNetwork;
    if Decode(Ethernet, frame) == Ok(p) {
      var (eth, l3) := DecodeEthernet(frame.data).value;
      EthernetIff(frame.data, eth, l3);
      NetworkIff(Blank(frame, Some(eth.ethertype)), l3, p);
      assert IsPacketOf(Ethernet, frame, p, l3);
    }
    forall l3 | IsPacketOf(Ethernet, frame, p, l3)
      ensures Decode(Ethernet, frame) == Ok(p)
    {
      var tags :| IsEthernetFrame(frame.data, p.ethertype.value, l3, tags);
      AddressesFit(frame.data, p.ethertype.value, l3, tags);
      EthernetIff(frame.data, EthernetHeader(frame.data[0..6], frame.data[6..12], p.ethertype.value, |tags|), l3);
      NetworkIff(Blank(frame, p.ethertype), l3, p);
    }
  }

  lemma AddressesFit(data: bytes, ethertype: u16, l3: bytes, tags: seq<Tag>)
    requires IsEthernetFrame(data, ethertype, l3, tags)
    ensures |data| >= 12
  {
  }

  lemma DecodedBare(link: LinkType, frame: Frame, p: Packet)
    requires !link.Ethernet?
    ensures Decode(link, frame) == Ok(p) <==> exists l3 :: IsPacketOf(link, frame, p, l3)
  {
    hide DecodeNetwork, IsNetwork;
    var l3 := if link.Raw? then frame.data else if |frame.data| >= 4 then frame.data[4..] else [];
    NetworkIff(Blank(frame, None), l3, p);
    if Decode(link, frame) == Ok(p) {
      assert IsPacketOf(link, frame, p, l3);
    }
  }

  /**
   * The decoder is exact: over every link type, a frame decodes to a packet exactly when it spells that packet, with its
   * addresses, protocol, hop limit and fragment fields, its ports and flags, and its question.
   */
  lemma PacketIff(link: LinkType, frame: Frame, p: Packet)
    ensures Decode(link, frame) == Ok(p) <==> exists l3 :: IsPacketOf(link, frame, p, l3)
  {
    hide Decode, IsPacketOf;
    if link.Ethernet? {
      DecodedEthernet(frame, p);
    } else {
      DecodedBare(link, frame, p);
    }
  }
}
