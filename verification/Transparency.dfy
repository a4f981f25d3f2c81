/**
 * What the layer parsers see through: VLAN tags, link padding and IPv6 extension headers.
 */
module Transparency {
  import opened Ints
  import opened Wrappers
  import opened PacketTypes
  import opened Layers
  import opened Parser

  // ---------------------------------------------------------------- VLAN tags

  datatype Tag = Tag(tpid: u16, tci: u16)

  ghost predicate AreTags(tags: seq<Tag>) {
    forall t :: t in tags ==> IsTag(t.tpid)
  }

  function EncodeTags(tags: seq<Tag>): (b: bytes)
    ensures |b| == VLAN_TAG_LEN * |tags|
  {
    if tags == [] then [] else ToBe16(tags[0].tpid) + ToBe16(tags[0].tci) + EncodeTags(tags[1..])
  }

  /** A frame with tags between its addresses and its ethertype. */
  function InsertTags(data: bytes, tags: seq<Tag>): bytes
    requires |data| >= ETH_HEADER_LEN
  {
    data[..12] + (EncodeTags(tags) + data[12..])
  }

  lemma Be16In(prefix: bytes, b: bytes, at: nat)
    requires at + 2 <= |b|
    ensures Be16(prefix + b, |prefix| + at) == Be16(b, at)
  {
  }

  /** Tags not yet looked at are skipped one by one until the two-tag limit. */
  lemma {:induction false} SkipsEncodedTags(prefix: bytes, tags: seq<Tag>, tail: bytes, seen: nat)
    requires AreTags(tags) && |prefix| >= 12 && seen <= MAX_VLAN_TAGS
    requires |tail| >= 2 && !IsTag(Be16(tail, 0))
    ensures var buf := prefix + (EncodeTags(tags) + tail);
            SkipTags(buf, Be16(buf, |prefix|), |prefix| + 2, seen)
            == if seen + |tags| > MAX_VLAN_TAGS then Err(Malformed(LinkLayer, TooManyVlanTags))
               else Ok((Be16(tail, 0), |prefix| + VLAN_TAG_LEN * |tags| + 2, seen + |tags|))
    decreases |tags|
  {
    var buf := prefix + (EncodeTags(tags) + tail);
    hide Be16, ToBe16, EncodeTags;
    TagsUnfold(tags);
    Be16In(prefix, EncodeTags(tags) + tail, 0);
    if tags == [] {
      assert [] + tail == tail;
    } else {
      var first, rest := ToBe16(tags[0].tpid) + ToBe16(tags[0].tci), EncodeTags(tags[1..]) + tail;
      assert EncodeTags(tags) + tail == first + rest && buf == (prefix + first) + rest;
      FirstTag(tags[0], rest);
      assert tags[0] in tags;
      if seen < MAX_VLAN_TAGS {
        SkipsEncodedTags(prefix + first, tags[1..], tail, seen + 1);
      }
    }
  }

  lemma {:induction false} TagsUnfold(tags: seq<Tag>)
    ensures EncodeTags(tags)
            == if tags == [] then [] else ToBe16(tags[0].tpid) + ToBe16(tags[0].tci) + EncodeTags(tags[1..])
  {
  }

  lemma FirstTag(tag: Tag, rest: bytes)
    ensures Be16(ToBe16(tag.tpid) + ToBe16(tag.tci) + rest, 0) == tag.tpid
  {
  }

  /**
   * Inserting VLAN tags into an untagged frame leaves the decoded packet identical up to two tags, and makes the
   * frame malformed from three on.
   */
  lemma TagsAreTransparent(frame: Frame, tags: seq<Tag>)
    requires |frame.data| >= ETH_HEADER_LEN && !IsTag(Be16(frame.data, 12)) && AreTags(tags)
    ensures Decode(Ethernet, frame.(data := InsertTags(frame.data, tags)))
            == if |tags| <= MAX_VLAN_TAGS then Decode(Ethernet, frame) else Err(Malformed(LinkLayer, TooManyVlanTags))
  {
    hide DecodeNetwork;
    var data, tagged := frame.data, InsertTags(frame.data, tags);
    assert Be16(data[12..], 0) == Be16(data, 12);
    SkipsEncodedTags(data[..12], tags, data[12..], 0);
    if |tags| <= MAX_VLAN_TAGS {
      assert tagged[14 + VLAN_TAG_LEN * |tags|..] == data[14..];
    }
  }

  // ---------------------------------------------------------------- padding

  lemma {:induction false} SkipTagsPadded(buf: bytes, pad: bytes, ethertype: u16, offset: nat, tags: nat)
    requires offset <= |buf| && SkipTags(buf, ethertype, offset, tags).Ok?
    ensures SkipTags(buf + pad, ethertype, offset, tags) == SkipTags(buf, ethertype, offset, tags)
    decreases MAX_VLAN_TAGS - tags
  {
    if !IsTag(ethertype) {
    } else {
      SkipTagsPadded(buf, pad, Be16(buf, offset + 2), offset + VLAN_TAG_LEN, tags + 1);
    }
  }

  /** The IP datagram announces no more bytes than the frame holds. */
  ghost predicate DeclaredFits(packet: Packet, l3: bytes) {
    match packet.ethertype
    case Some(e) =>
      && (e == ETHERTYPE_IPV4 && |l3| >= 4 ==> Be16(l3, 2) <= |l3|)
      && (e == ETHERTYPE_IPV6 && |l3| >= 6 ==> IPV6_HEADER_LEN + Be16(l3, 4) <= |l3|)
    case None => true
  }

  lemma AcceptedIpLength(packet: Packet, l3: bytes)
    requires packet.ethertype.Some? && DecodeNetwork(packet, l3).Ok?
    ensures packet.ethertype.value == ETHERTYPE_IPV4 ==> DecodeIpv4(l3).Ok? && |l3| >= 20
    ensures packet.ethertype.value == ETHERTYPE_IPV6 ==> DecodeIpv6(l3).Ok? && |l3| >= 40
  {
    hide DecodeTransport, Walk;
  }

  lemma NetworkPadded(packet: Packet, l3: bytes, pad: bytes)
    requires packet.ethertype.Some? && DeclaredFits(packet, l3) && DecodeNetwork(packet, l3).Ok?
    ensures DecodeNetwork(packet, l3 + pad) == DecodeNetwork(packet, l3)
  {
    hide DecodeTransport, DecodeIpv4, DecodeIpv6;
    AcceptedIpLength(packet, l3);
    if packet.ethertype.value == ETHERTYPE_IPV4 {
      Ipv4Padded(l3, pad);
    } else if packet.ethertype.value == ETHERTYPE_IPV6 {
      Ipv6Padded(l3, pad);
    }
  }

  lemma Ipv4Padded(l3: bytes, pad: bytes)
    requires DecodeIpv4(l3).Ok? && Be16(l3, 2) <= |l3|
    ensures DecodeIpv4(l3 + pad) == DecodeIpv4(l3)
  {
    assert (l3 + pad)[l3[0] % 0x10 * 4..Be16(l3, 2)] == l3[l3[0] % 0x10 * 4..Be16(l3, 2)];
  }

  lemma Ipv6Padded(l3: bytes, pad: bytes)
    requires DecodeIpv6(l3).Ok? && IPV6_HEADER_LEN + Be16(l3, 4) <= |l3|
    ensures DecodeIpv6(l3 + pad) == DecodeIpv6(l3)
  {
    hide Walk, FixedHeader;
    SameFixedHeader(l3, pad);
    assert (l3 + pad)[..IPV6_HEADER_LEN + Be16(l3, 4)] == l3[..IPV6_HEADER_LEN + Be16(l3, 4)];
  }

  /** Bytes that the link appends behind a complete datagram change nothing. */
  lemma PaddingIsIgnored(frame: Frame, pad: bytes)
    requires Decode(Ethernet, frame).Ok?
    requires var (eth, l3) := DecodeEthernet(frame.data).value;
             DeclaredFits(Blank(frame, Some(eth.ethertype)), l3)
    ensures Decode(Ethernet, frame.(data := frame.data + pad)) == Decode(Ethernet, frame)
  {
    hide DecodeNetwork, SkipTags;
    var data := frame.data;
    SkipTagsPadded(data, pad, Be16(data, 12), ETH_HEADER_LEN, 0);
    var (eth, l3) := DecodeEthernet(data).value;
    var offset := SkipTags(data, Be16(data, 12), ETH_HEADER_LEN, 0).value.1;
    assert (data + pad)[offset..] == l3 + pad && (data + pad)[..6] == data[..6] && (data + pad)[6..12] == data[6..12];
    assert DecodeEthernet(data + pad) == Ok((eth, l3 + pad));
    NetworkPadded(Blank(frame, Some(eth.ethertype)), l3, pad);
  }

  // ---------------------------------------------------------------- IPv6 extension headers

  /** An extension header without its first byte, which names what follows it. */
  datatype Extension = Extension(kind: byte, body: bytes)

  ghost predicate WellFormed(e: Extension) {
    && IsExtension(e.kind)
    && |e.body| >= 1
    && |e.body| + 1 == if e.kind == NH_FRAGMENT then FRAGMENT_HEADER_LEN
                       else if e.kind == NH_AUTH then (e.body[0] as int + 2) * 4
                       else (e.body[0] as int + 1) * 8
  }

  ghost predicate AllWellFormed(exts: seq<Extension>) {
    forall i :: 0 <= i < |exts| ==> WellFormed(exts[i])
  }

  /** What the header in front of a chain announces. */
  ghost function Announced(exts: seq<Extension>, proto: byte): byte {
    if exts == [] then proto else exts[0].kind
  }

  ghost function EncodeChain(exts: seq<Extension>, proto: byte): bytes {
    if exts == [] then []
    else [Announced(exts[1..], proto)] + exts[0].body + EncodeChain(exts[1..], proto)
  }

  /** The header fields after the chain: its last fragment header decides the fragment fields. */
  ghost function ThroughChain(header: IpHeader, exts: seq<Extension>, proto: byte): IpHeader
    requires AllWellFormed(exts)
    decreases |exts|
  {
    if exts == [] then header.(proto := proto)
    else
      assert WellFormed(exts[0]);
      ThroughChain(ThroughOne(header, exts[0], Announced(exts[1..], proto)), exts[1..], proto)
  }

  ghost function ThroughOne(header: IpHeader, e: Extension, next: byte): IpHeader
    requires WellFormed(e)
  {
    if e.kind != NH_FRAGMENT then header.(proto := next)
    else
      header.(proto := next, fragmentOffset := Be16(e.body, 1) / 8, moreFragments := Be16(e.body, 1) % 2 == 1)
  }

  lemma WalkStep(packet: bytes, header: IpHeader, offset: nat, rounds: nat)
    requires IsExtension(header.proto) && offset + ExtensionPrefix(header.proto) <= |packet|
    requires offset + ExtensionLen(packet, header.proto, offset) <= |packet|
    ensures Walk(packet, header, offset, rounds + 1)
            == Walk(packet, AfterExtension(packet, header, offset), offset + ExtensionLen(packet, header.proto, offset), rounds)
  {
  }

  lemma {:induction false} WalkHead(packet: bytes, prefix: bytes, e: Extension, next: byte, rest: bytes,
                                    header: IpHeader, rounds: nat)
    requires packet == prefix + ([next] + e.body) + rest
    requires WellFormed(e) && header.proto == e.kind
    ensures Walk(packet, header, |prefix|, rounds + 1)
            == Walk(packet, ThroughOne(header, e, next), |prefix + ([next] + e.body)|, rounds)
  {
    hide Walk, AfterExtension, ExtensionLen, ThroughOne;
    ChainHead(prefix, [next] + e.body, rest, header, e);
    WalkStep(packet, header, |prefix|, rounds);
  }

  lemma {:induction false} WalksChain(packet: bytes, prefix: bytes, exts: seq<Extension>, proto: byte, payload: bytes,
                                      header: IpHeader, rounds: nat)
    requires packet == prefix + (EncodeChain(exts, proto) + payload)
    requires AllWellFormed(exts) && !IsExtension(proto) && header.proto == Announced(exts, proto)
    ensures Walk(packet, header, |prefix|, rounds) == ChainResult(header, exts, proto, payload, rounds)
    decreases rounds, 1
  {
    hide *;
    if rounds == 0 || exts == [] {
      WalkEnds(packet, prefix, exts, proto, payload, header, rounds);
    } else {
      WalksCons(packet, prefix, exts, proto, payload, header, rounds);
    }
  }

  ghost function ChainResult(header: IpHeader, exts: seq<Extension>, proto: byte, payload: bytes,
                             rounds: nat): Parsed<IpHeader>
    requires AllWellFormed(exts)
  {
    if |exts| < rounds then Ok((ThroughChain(header, exts, proto), payload))
    else Err(Malformed(Ipv6Layer, TooManyExtensionHeaders))
  }

  lemma {:induction false} WalkEnds(packet: bytes, prefix: bytes, exts: seq<Extension>, proto: byte,
                                    payload: bytes, header: IpHeader, rounds: nat)
    requires packet == prefix + (EncodeChain(exts, proto) + payload)
    requires AllWellFormed(exts) && !IsExtension(proto) && header.proto == Announced(exts, proto)
    requires rounds == 0 || exts == []
    ensures Walk(packet, header, |prefix|, rounds) == ChainResult(header, exts, proto, payload, rounds)
  {
    if exts == [] {
      assert packet == prefix + payload;
    }
  }

  lemma {:induction false} WalksCons(packet: bytes, prefix: bytes, exts: seq<Extension>, proto: byte, payload: bytes,
                                     header: IpHeader, rounds: nat)
    requires packet == prefix + (EncodeChain(exts, proto) + payload)
    requires AllWellFormed(exts) && !IsExtension(proto) && header.proto == Announced(exts, proto)
    requires rounds > 0 && exts != []
    ensures Walk(packet, header, |prefix|, rounds) == ChainResult(header, exts, proto, payload, rounds)
    decreases rounds, 0
  {
    hide *;
    ChainUnfolds(header, exts, proto, payload, rounds);
    var e, next := exts[0], Announced(exts[1..], proto);
    var first, chain := [next] + e.body, EncodeChain(exts[1..], proto);
    Reassociate(prefix, first, chain, payload);
    WalkHead(packet, prefix, e, next, chain + payload, header, rounds - 1);
    WalksChain(packet, prefix + first, exts[1..], proto, payload, ThroughOne(header, e, next), rounds - 1);
  }

  lemma {:induction false} ChainUnfolds(header: IpHeader, exts: seq<Extension>, proto: byte, payload: bytes,
                                        rounds: nat)
    requires exts != [] && AllWellFormed(exts) && rounds > 0
    ensures WellFormed(exts[0]) && AllWellFormed(exts[1..]) && Announced(exts, proto) == exts[0].kind
    ensures var e, next := exts[0], Announced(exts[1..], proto);
            && EncodeChain(exts, proto) == [next] + e.body + EncodeChain(exts[1..], proto)
            && ChainResult(header, exts, proto, payload, rounds)
               == ChainResult(ThroughOne(header, e, next), exts[1..], proto, payload, rounds - 1)
            && ThroughOne(header, e, next).proto == next
  {
  }

  lemma Reassociate(a: bytes, b: bytes, c: bytes, d: bytes)
    ensures a + ((b + c) + d) == a + b + (c + d)
  {
  }

  lemma ChainHead(prefix: bytes, first: bytes, rest: bytes, header: IpHeader, e: Extension)
    requires WellFormed(e) && header.proto == e.kind && |first| == |e.body| + 1 && first[1..] == e.body
    ensures var packet, at := prefix + first + rest, |prefix|;
            && at + ExtensionPrefix(e.kind) <= |packet|
            && ExtensionLen(packet, e.kind, at) == |first|
            && AfterExtension(packet, header, at) == ThroughOne(header, e, first[0])
  {
    var packet, at := prefix + first + rest, |prefix|;
    assert forall i :: 0 <= i < |first| ==> packet[at + i] == first[i];
    assert forall i :: 0 <= i < |e.body| ==> first[1 + i] == e.body[i];
  }

  ghost predicate IsWalked(packet: bytes, header: IpHeader, offset: nat, rounds: nat, exts: seq<Extension>)
    requires offset <= |packet| && Walk(packet, header, offset, rounds).Ok?
  {
    var (end, payload) := Walk(packet, header, offset, rounds).value;
    && AllWellFormed(exts) && |exts| < rounds && !IsExtension(end.proto)
    && header.proto == Announced(exts, end.proto)
    && packet[offset..] == EncodeChain(exts, end.proto) + payload
  }

  /** Every accepted walk is a chain of well-formed extension headers, shorter than the round limit. */
  lemma {:induction false} WalkedIsChain(packet: bytes, header: IpHeader, offset: nat, rounds: nat)
    returns (exts: seq<Extension>)
    requires offset <= |packet| && Walk(packet, header, offset, rounds).Ok?
    ensures IsWalked(packet, header, offset, rounds, exts)
    decreases rounds
  {
    hide AfterExtension, ExtensionLen, IsWalked, IsExtension;
    if !IsExtension(header.proto) {
      exts := [];
      WalkedNothing(packet, header, offset, rounds);
    } else {
      var len := ExtensionLen(packet, header.proto, offset);
      var rest := WalkedIsChain(packet, AfterExtension(packet, header, offset), offset + len, rounds - 1);
      exts := WalkedOne(packet, header, offset, rounds, rest);
    }
  }

  lemma {:induction false} WalkedNothing(packet: bytes, header: IpHeader, offset: nat, rounds: nat)
    requires offset <= |packet| && Walk(packet, header, offset, rounds).Ok? && !IsExtension(header.proto)
    ensures IsWalked(packet, header, offset, rounds, [])
  {
    assert EncodeChain([], header.proto) == [];
  }

  lemma {:induction false} WalkedOne(packet: bytes, header: IpHeader, offset: nat, rounds: nat, rest: seq<Extension>)
    returns (exts: seq<Extension>)
    requires rounds > 0 && IsExtension(header.proto) && offset + ExtensionPrefix(header.proto) <= |packet|
    requires offset + ExtensionLen(packet, header.proto, offset) <= |packet|
    requires Walk(packet, header, offset, rounds).Ok?
    requires var next := offset + ExtensionLen(packet, header.proto, offset);
             Walk(packet, AfterExtension(packet, header, offset), next, rounds - 1).Ok?
             && IsWalked(packet, AfterExtension(packet, header, offset), next, rounds - 1, rest)
    ensures IsWalked(packet, header, offset, rounds, exts)
  {
    hide AfterExtension, ExtensionLen, WellFormed, IsExtension, EncodeChain, Walk;
    var len := ExtensionLen(packet, header.proto, offset);
    ExtensionAt(packet, header, offset);
    WalkStep(packet, header, offset, rounds - 1);
    var e := Extension(header.proto, packet[offset + 1..offset + len]);
    exts := [e] + rest;
    var (end, payload) := Walk(packet, header, offset, rounds).value;
    ChainCons(packet, offset, len, e, rest, end.proto, payload);
  }

  lemma ExtensionAt(packet: bytes, header: IpHeader, offset: nat)
    requires IsExtension(header.proto) && offset + ExtensionPrefix(header.proto) <= |packet|
    requires offset + ExtensionLen(packet, header.proto, offset) <= |packet|
    ensures var len := ExtensionLen(packet, header.proto, offset);
            2 <= len && WellFormed(Extension(header.proto, packet[offset + 1..offset + len]))
    ensures AfterExtension(packet, header, offset).proto == packet[offset]
  {
  }

  lemma {:induction false} ChainCons(packet: bytes, offset: nat, len: nat, e: Extension, rest: seq<Extension>,
                                     proto: byte, payload: bytes)
    requires 2 <= len && offset + len <= |packet| && e.body == packet[offset + 1..offset + len]
    requires packet[offset] == Announced(rest, proto)
    requires packet[offset + len..] == EncodeChain(rest, proto) + payload
    ensures packet[offset..] == EncodeChain([e] + rest, proto) + payload
    ensures WellFormed(e) && AllWellFormed(rest) ==> AllWellFormed([e] + rest)
  {
    assert ([e] + rest)[1..] == rest;
    assert packet[offset..] == [packet[offset]] + e.body + packet[offset + len..];
  }

  /** A 40-byte fixed header announcing `next` and `len` bytes behind it. */
  ghost predicate IsFixedHeader(fixed: bytes, next: byte, len: nat) {
    |fixed| == IPV6_HEADER_LEN && fixed[0] / 0x10 == 6 && fixed[6] == next && Be16(fixed, 4) == len
  }

  /**
   * An IPv6 datagram with a chain of well-formed extension headers decodes to the protocol and payload behind the
   * chain if the chain has at most seven headers, and is malformed otherwise.
   */
  lemma {:induction false} ChainsAreTransparent(fixed: bytes, exts: seq<Extension>, proto: byte, payload: bytes)
    requires AllWellFormed(exts) && !IsExtension(proto)
    requires IsFixedHeader(fixed, Announced(exts, proto), |EncodeChain(exts, proto)| + |payload|)
    ensures DecodeIpv6(fixed + (EncodeChain(exts, proto) + payload))
            == if |exts| <= 7 then Ok((ThroughChain(FixedHeader(fixed), exts, proto), payload))
               else Err(Malformed(Ipv6Layer, TooManyExtensionHeaders))
  {
    hide Walk, EncodeChain, ThroughChain;
    var buf := fixed + (EncodeChain(exts, proto) + payload);
    assert buf[..|buf|] == buf;
    SameFixedHeader(fixed, EncodeChain(exts, proto) + payload);
    hide FixedHeader, Be16;
    WalksChain(buf, fixed, exts, proto, payload, FixedHeader(fixed), MAX_EXTENSION_HEADERS);
  }

  lemma SameFixedHeader(fixed: bytes, rest: bytes)
    requires |fixed| >= IPV6_HEADER_LEN
    ensures var buf := fixed + rest;
            FixedHeader(buf) == FixedHeader(fixed) && Be16(buf, 4) == Be16(fixed, 4) && buf[0] == fixed[0]
  {
  }

  /** The part of the datagram behind its fixed header, cut at its announced length, is this chain and payload. */
  ghost predicate IsChainOf(buf: bytes, exts: seq<Extension>, end: IpHeader, payload: bytes) {
    && |buf| >= IPV6_HEADER_LEN && buf[0] / 0x10 == 6
    && AllWellFormed(exts) && |exts| <= 7 && !IsExtension(end.proto)
    && buf[6] == Announced(exts, end.proto)
    && buf[IPV6_HEADER_LEN..Min(IPV6_HEADER_LEN + Be16(buf, 4), |buf|)] == EncodeChain(exts, end.proto) + payload
    && end == ThroughChain(FixedHeader(buf), exts, end.proto)
  }

  lemma {:induction false} ChainDecides(buf: bytes, exts: seq<Extension>, proto: byte, payload: bytes)
    requires |buf| >= IPV6_HEADER_LEN && buf[0] / 0x10 == 6
    requires AllWellFormed(exts) && |exts| <= 7 && !IsExtension(proto) && buf[6] == Announced(exts, proto)
    requires buf[IPV6_HEADER_LEN..Min(IPV6_HEADER_LEN + Be16(buf, 4), |buf|)] == EncodeChain(exts, proto) + payload
    ensures DecodeIpv6(buf) == Ok((ThroughChain(FixedHeader(buf), exts, proto), payload))
  {
    hide Walk, EncodeChain, ThroughChain;
    var packet := buf[..Min(IPV6_HEADER_LEN + Be16(buf, 4), |buf|)];
    assert packet == buf[..IPV6_HEADER_LEN] + (EncodeChain(exts, proto) + payload);
    WalksChain(packet, buf[..IPV6_HEADER_LEN], exts, proto, payload, FixedHeader(buf), MAX_EXTENSION_HEADERS);
  }

  /** The IPv6 parser accepts exactly the chains of at most seven well-formed extension headers. */
  lemma Ipv6Iff(buf: bytes, end: IpHeader, payload: bytes)
    ensures DecodeIpv6(buf) == Ok((end, payload)) <==> exists exts :: IsChainOf(buf, exts, end, payload)
  {
    if DecodeIpv6(buf) == Ok((end, payload)) {
      var packet := buf[..Min(IPV6_HEADER_LEN + Be16(buf, 4), |buf|)];
      var exts := WalkedIsChain(packet, FixedHeader(buf), IPV6_HEADER_LEN, MAX_EXTENSION_HEADERS);
      ChainDecides(buf, exts, end.proto, payload);
      assert IsChainOf(buf, exts, end, payload);
    }
    forall exts | IsChainOf(buf, exts, end, payload)
      ensures DecodeIpv6(buf) == Ok((end, payload))
    {
      ChainDecides(buf, exts, end.proto, payload);
    }
  }
}
