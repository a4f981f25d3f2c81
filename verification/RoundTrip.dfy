/** Decoding what the encoders of `synth.rs` build, from frame bytes to the decoded packet. */
module RoundTrip {
  import opened Ints
  import opened Wrappers
  import opened PacketTypes
  import opened Names
  import opened Layers
  import opened DnsParser
  import opened Parser
  import Synth

  function SynthIp(src: u32, dst: u32, proto: byte): IpHeader {
    IpHeader(V4(src), V4(dst), proto, 64, false, 0)
  }

  function SynthFrame(ts: u64, wireLen: u32, src: u32, dst: u32, proto: byte, l4: bytes): Frame
    requires Synth.FitsIpv4(l4)
  {
    Frame(ts, wireLen, Synth.EthernetIpv4(src, dst, proto, l4))
  }

  function SynthPacket(ts: u64, wireLen: u32, src: u32, dst: u32, proto: byte): Packet {
    Packet(ts, wireLen, Some(ETHERTYPE_IPV4), Some(SynthIp(src, dst, proto)), NoTransport, NoApp)
  }

  lemma HeaderRoundTrip(src: u32, dst: u32, proto: byte, l4: bytes)
    requires Synth.FitsIpv4(l4)
    ensures DecodeIpv4(Synth.Ipv4Header(src, dst, proto, Synth.IPV4_HEADER_LEN + |l4|) + l4)
            == Ok((SynthIp(src, dst, proto), l4))
  {
    var h := Synth.Ipv4Header(src, dst, proto, Synth.IPV4_HEADER_LEN + |l4|);
    HeaderFields(src, dst, proto, Synth.IPV4_HEADER_LEN + |l4|);
    var buf := h + l4;
    assert buf[20..|buf|] == l4;
    assert forall i :: 0 <= i < 20 ==> buf[i] == h[i];
  }

  lemma HeaderFields(src: u32, dst: u32, proto: byte, totalLen: u16)
    ensures var h := Synth.Ipv4Header(src, dst, proto, totalLen);
            && h[0] == 0x45 && Be16(h, 2) == totalLen && Be16(h, 6) == 0 && h[8] == 64 && h[9] == proto
            && Be32(h, 12) == src && Be32(h, 16) == dst
  {
    hide Synth.Checksum;
    var start, end := Synth.HeaderStart(totalLen, proto), ToBe32(src) + ToBe32(dst);
    var h := Synth.Ipv4Header(src, dst, proto, totalLen);
    assert forall i :: 0 <= i < 10 ==> h[i] == start[i];
    assert forall i :: 0 <= i < 4 ==> h[12 + i] == ToBe32(src)[i] && h[16 + i] == ToBe32(dst)[i];
  }

  /** Whatever the transport, an encoded frame reaches the transport parser with its addresses and payload intact. */
  lemma FrameRoundTrip(ts: u64, wireLen: u32, src: u32, dst: u32, proto: byte, l4: bytes)
    requires Synth.FitsIpv4(l4)
    ensures Decode(Ethernet, SynthFrame(ts, wireLen, src, dst, proto, l4))
            == DecodeTransport(SynthPacket(ts, wireLen, src, dst, proto), SynthIp(src, dst, proto), l4)
  {
    hide DecodeTransport, DecodeIpv4, Synth.Ipv4Header;
    var frame := SynthFrame(ts, wireLen, src, dst, proto, l4);
    var l3 := Synth.Ipv4Header(src, dst, proto, Synth.IPV4_HEADER_LEN + |l4|) + l4;
    assert frame.data == Synth.DST_MAC + Synth.SRC_MAC + [0x08, 0x00] + l3;
    assert Be16(frame.data, 12) == ETHERTYPE_IPV4;
    assert frame.data[14..] == l3;
    HeaderRoundTrip(src, dst, proto, l4);
  }

  /** The link header of every encoded frame: two local addresses, IPv4 behind them. */
  lemma LinkHeaderRoundTrip(src: u32, dst: u32, proto: byte, l4: bytes)
    requires Synth.FitsIpv4(l4)
    ensures var frame := Synth.EthernetIpv4(src, dst, proto, l4);
            DecodeEthernet(frame)
            == Ok((EthernetHeader([0x02, 0, 0, 0, 0, 0x02], [0x02, 0, 0, 0, 0, 0x01], 0x0800, 0), frame[14..]))
  {
    hide Synth.Ipv4Header;
    var frame := Synth.EthernetIpv4(src, dst, proto, l4);
    assert frame[..6] == Synth.DST_MAC && frame[6..12] == Synth.SRC_MAC;
    assert frame[12] == 0x08 && frame[13] == 0x00;
    assert Be16(frame, 12) == 0x0800;
  }

  /** TCP segments round-trip: addresses, ports and flags. */
  lemma TcpRoundTrip(ts: u64, wireLen: u32, src: u32, srcPort: u16, dst: u32, dstPort: u16, flags: byte,
                     payloadLen: nat)
    requires Synth.FitsIpv4(Synth.Tcp(srcPort, dstPort, flags, payloadLen))
    ensures Decode(Ethernet, SynthFrame(ts, wireLen, src, dst, PROTO_TCP, Synth.Tcp(srcPort, dstPort, flags, payloadLen)))
            == Ok(SynthPacket(ts, wireLen, src, dst, PROTO_TCP)
                  .(transport := Tcp(TcpHeader(srcPort, dstPort, 0, 0, flags, 64_240))))
  {
    var l4 := Synth.Tcp(srcPort, dstPort, flags, payloadLen);
    FrameRoundTrip(ts, wireLen, src, dst, PROTO_TCP, l4);
    hide Decode;
    TcpFields(srcPort, dstPort, flags, payloadLen);
  }

  lemma TcpFields(srcPort: u16, dstPort: u16, flags: byte, payloadLen: nat)
    ensures var b := Synth.Tcp(srcPort, dstPort, flags, payloadLen);
            DecodeTcp(b) == Ok((TcpHeader(srcPort, dstPort, 0, 0, flags, 64_240), b[20..]))
  {
    var b := Synth.Tcp(srcPort, dstPort, flags, payloadLen);
    assert b[0..2] == ToBe16(srcPort) && b[2..4] == ToBe16(dstPort) && b[14..16] == ToBe16(64_240);
    assert b[12] == 0x50 && b[13] == flags;
  }

  lemma UdpFields(srcPort: u16, dstPort: u16, payload: bytes)
    requires Synth.UDP_HEADER_LEN + |payload| <= 0xFFFF
    ensures DecodeUdp(Synth.Udp(srcPort, dstPort, payload))
            == Ok((UdpHeader(srcPort, dstPort, Synth.UDP_HEADER_LEN + |payload|), payload))
  {
    var b := Synth.Udp(srcPort, dstPort, payload);
    assert b[0..2] == ToBe16(srcPort) && b[2..4] == ToBe16(dstPort) && b[4..6] == ToBe16(Synth.UDP_HEADER_LEN + |payload|);
    assert b[8..|b|] == payload;
  }

  /** UDP datagrams round-trip; the payload reaches the application parser. */
  lemma UdpRoundTrip(ts: u64, wireLen: u32, src: u32, srcPort: u16, dst: u32, dstPort: u16, payload: bytes)
    requires Synth.IPV4_HEADER_LEN + Synth.UDP_HEADER_LEN + |payload| <= 0xFFFF
    ensures var udp := UdpHeader(srcPort, dstPort, Synth.UDP_HEADER_LEN + |payload|);
            Decode(Ethernet, SynthFrame(ts, wireLen, src, dst, PROTO_UDP, Synth.Udp(srcPort, dstPort, payload)))
            == Ok(SynthPacket(ts, wireLen, src, dst, PROTO_UDP).(transport := Udp(udp), app := DecodeApp(udp, payload)))
  {
    FrameRoundTrip(ts, wireLen, src, dst, PROTO_UDP, Synth.Udp(srcPort, dstPort, payload));
    hide Decode, DecodeApp;
    UdpFields(srcPort, dstPort, payload);
  }

  /** Echo requests decode to their type and code. */
  lemma IcmpRoundTrip(ts: u64, wireLen: u32, src: u32, dst: u32, seqNo: u16)
    ensures Decode(Ethernet, SynthFrame(ts, wireLen, src, dst, PROTO_ICMP, Synth.IcmpEcho(seqNo)))
            == Ok(SynthPacket(ts, wireLen, src, dst, PROTO_ICMP).(transport := Icmp(IcmpHeader(8, 0, false))))
  {
    FrameRoundTrip(ts, wireLen, src, dst, PROTO_ICMP, Synth.IcmpEcho(seqNo));
    hide Decode;
  }

  // ---------------------------------------------------------------- DNS queries

  function Normalised(labels: seq<bytes>): (r: seq<bytes>)
    ensures |r| == |labels|
    ensures forall i :: 0 <= i < |labels| ==> r[i] == Normalise(labels[i])
  {
    seq(|labels|, i requires 0 <= i < |labels| => Normalise(labels[i]))
  }

  /** The name a query for `name` asks for: its non-empty parts, normalised. */
  function QueryName(name: bytes): bytes {
    JoinDots(Normalised(Synth.QueryLabels(name)))
  }

  predicate FitsDns(labels: seq<bytes>) {
    (forall i :: 0 <= i < |labels| ==> |labels[i]| <= 63) && |JoinDots(Normalised(labels))| <= MAX_NAME_LEN
  }

  ghost function Literals(labels: seq<bytes>): (steps: seq<Step>)
    ensures |steps| == |labels|
    ensures forall i :: 0 <= i < |labels| ==> steps[i] == Literal(labels[i])
  {
    seq(|labels|, i requires 0 <= i < |labels| => Literal(labels[i]))
  }

  lemma {:induction false} EncodedDerives(prefix: bytes, labels: seq<bytes>, suffix: bytes)
    requires Synth.FitsLengthByte(labels)
    requires forall i :: 0 <= i < |labels| ==> 1 <= |labels[i]| <= 63
    ensures Derives(prefix + (Synth.EncodeLabels(labels) + ([0] + suffix)), |prefix|, Literals(labels))
    ensures EndOf(|prefix|, Literals(labels)) == |prefix| + |Synth.EncodeLabels(labels)| + 1
    decreases |labels|
  {
    hide Derives, EndOf, Synth.EncodeLabels;
    if labels == [] {
      RootDerives(prefix, suffix);
      NoLabelBytes();
      assert [] + ([0] + suffix) == [0] + suffix && Literals(labels) == [];
    } else {
      MessageSplits(prefix, labels, [0] + suffix);
      var first, rest := [|labels[0]|] + labels[0], Synth.EncodeLabels(labels[1..]) + ([0] + suffix);
      EncodedDerives(prefix + first, labels[1..], suffix);
      LabelAt(prefix, labels[0], rest);
      LabelDerives(prefix + first + rest, |prefix|, labels[0], Literals(labels[1..]));
      assert Literals(labels) == [Literal(labels[0])] + Literals(labels[1..]);
    }
  }

  lemma {:induction false} NoLabelBytes()
    ensures Synth.EncodeLabels([]) == []
  {
  }

  lemma {:induction false} MessageSplits(prefix: bytes, labels: seq<bytes>, tail: bytes)
    requires Synth.FitsLengthByte(labels) && labels != []
    ensures var first, rest := [|labels[0]|] + labels[0], Synth.EncodeLabels(labels[1..]);
            && prefix + (Synth.EncodeLabels(labels) + tail) == prefix + first + (rest + tail)
            && |Synth.EncodeLabels(labels)| == |first| + |rest|
  {
    var first, rest := [|labels[0]|] + labels[0], Synth.EncodeLabels(labels[1..]);
    assert Synth.EncodeLabels(labels) == first + rest;
    Regroup(prefix, first, rest, tail);
  }

  lemma Regroup(a: bytes, b: bytes, c: bytes, d: bytes)
    ensures a + ((b + c) + d) == a + b + (c + d)
  {
  }

  lemma {:induction false} RootDerives(prefix: bytes, suffix: bytes)
    ensures Derives(prefix + ([0] + suffix), |prefix|, []) && EndOf(|prefix|, []) == |prefix| + 1
  {
  }

  lemma {:induction false} LabelDerives(msg: bytes, pos: nat, text: bytes, steps: seq<Step>)
    requires 1 <= |text| <= 63 && pos + 1 + |text| <= |msg|
    requires msg[pos] == |text| && msg[pos + 1..pos + 1 + |text|] == text
    requires Derives(msg, pos + 1 + |text|, steps)
    ensures Derives(msg, pos, [Literal(text)] + steps)
    ensures EndOf(pos, [Literal(text)] + steps) == EndOf(pos + 1 + |text|, steps)
  {
    assert ([Literal(text)] + steps)[1..] == steps;
  }

  lemma LabelAt(prefix: bytes, text: bytes, rest: bytes)
    requires 1 <= |text| <= 63
    ensures var msg, at := prefix + ([|text|] + text) + rest, |prefix|;
            at + 1 + |text| <= |msg| && msg[at] == |text| && msg[at + 1..at + 1 + |text|] == text
  {
  }

  lemma {:induction false} LiteralsHaveNoJumps(labels: seq<bytes>)
    ensures Jumps(Literals(labels)) == 0 && LabelsOf(Literals(labels)) == Normalised(labels)
    decreases |labels|
  {
    if labels == [] {
    } else {
      assert Literals(labels)[1..] == Literals(labels[1..]);
      LiteralsHaveNoJumps(labels[1..]);
    }
  }

  function QueryInfo(id: u16, name: bytes, qtype: u16): DnsInfo {
    DnsInfo(id, false, 0, 0, 1, 0, Some(DnsQuestion(QueryName(name), qtype)))
  }

  lemma PayloadParts(id: u16, name: bytes, qtype: u16)
    requires Synth.FitsLengthByte(Synth.QueryLabels(name))
    ensures var msg, encoded := Synth.DnsQueryPayload(id, name, qtype), Synth.EncodeLabels(Synth.QueryLabels(name));
            var end := DNS_HEADER_LEN + |encoded| + 1;
            && |msg| == end + 4 && msg == msg[..DNS_HEADER_LEN] + (encoded + ([0] + msg[end..]))
            && Be16(msg, 0) == id && msg[2] == 1 && msg[3] == 0 && Be16(msg, 4) == 1 && Be16(msg, 6) == 0
            && Be16(msg, end) == qtype && msg[end + 2] == 0 && msg[end + 3] == 1 && msg[8..12] == [0, 0, 0, 0]
  {
    hide Synth.QueryLabels, Synth.EncodeLabels;
    var encoded := Synth.EncodeLabels(Synth.QueryLabels(name));
    var header, tail := ToBe16(id) + ToBe16(0x0100) + ToBe16(1) + Synth.Zeros(6), ToBe16(qtype) + ToBe16(1);
    var msg := Synth.DnsQueryPayload(id, name, qtype);
    assert msg == header + encoded + [0] + tail;
    Sections(header, encoded, tail);
    assert msg[0] == header[0] && msg[1] == header[1] && msg[4] == header[4] && msg[5] == header[5];
  }

  lemma Sections(header: bytes, encoded: bytes, tail: bytes)
    requires |header| == DNS_HEADER_LEN && |tail| == 4
    ensures var msg, end := header + encoded + [0] + tail, DNS_HEADER_LEN + |encoded| + 1;
            && |msg| == end + 4 && msg == msg[..DNS_HEADER_LEN] + (encoded + ([0] + msg[end..]))
            && (forall i :: 0 <= i < DNS_HEADER_LEN ==> msg[i] == header[i])
            && msg[end..] == tail
  {
    var msg, end := header + encoded + [0] + tail, DNS_HEADER_LEN + |encoded| + 1;
    assert msg[end..] == tail && msg[..DNS_HEADER_LEN] == header;
  }

  lemma PayloadDecodes(id: u16, name: bytes, qtype: u16)
    requires Synth.FitsLengthByte(Synth.QueryLabels(name)) && FitsDns(Synth.QueryLabels(name))
    ensures DecodeDns(Synth.DnsQueryPayload(id, name, qtype)) == Ok(QueryInfo(id, name, qtype))
  {
    hide Synth.QueryLabels, Synth.EncodeLabels, Derives, EndOf, ReadFrom, Be16, Synth.DnsQueryPayload, LabelsOf, Jumps;
    var labels, msg := Synth.QueryLabels(name), Synth.DnsQueryPayload(id, name, qtype);
    NamesAreNonEmpty(name);
    PayloadParts(id, name, qtype);
    EncodedDerives(msg[..DNS_HEADER_LEN], labels, msg[DNS_HEADER_LEN + |Synth.EncodeLabels(labels)| + 1..]);
    LiteralsHaveNoJumps(labels);
    var end := DNS_HEADER_LEN + |Synth.EncodeLabels(labels)| + 1;
    assert Admissible(msg, DNS_HEADER_LEN, Literals(labels));
    ReadNameIff(msg, DNS_HEADER_LEN, QueryName(name), end);
  }

  lemma NamesAreNonEmpty(name: bytes)
    ensures forall i :: 0 <= i < |Synth.QueryLabels(name)| ==>
              Synth.QueryLabels(name)[i] != [] && DOT !in Synth.QueryLabels(name)[i]
  {
    var labels := Synth.QueryLabels(name);
    forall i | 0 <= i < |labels|
      ensures labels[i] != [] && DOT !in labels[i]
    {
      assert labels[i] in labels;
    }
  }

  lemma {:induction false} NormaliseJoin(parts: seq<bytes>)
    ensures JoinDots(Normalised(parts)) == Normalise(JoinDots(parts))
    decreases |parts|
  {
    if |parts| <= 1 {
    } else {
      var n := |parts| - 1;
      NormaliseJoin(parts[..n]);
      assert Normalised(parts)[..n] == Normalised(parts[..n]);
    }
  }

  /** For a name without empty labels, what comes back is the name itself, normalised. */
  lemma {:induction false} CleanNameReturns(name: bytes)
    requires forall i :: 0 <= i < |SplitDots(name)| ==> SplitDots(name)[i] != []
    ensures QueryName(name) == Normalise(name)
  {
    AllNonEmpty(SplitDots(name));
    NormaliseJoin(SplitDots(name));
    JoinSplit(name);
  }

  // ---------------------------------------------------------------- and only those names

  /** The offset of label `k` in the joined text. */
  ghost function LabelStart(labels: seq<bytes>, k: nat): nat
    requires k < |labels|
    decreases |labels|
  {
    var n := |labels| - 1;
    if k < n then LabelStart(labels[..n], k)
    else if n == 0 then 0 else |JoinDots(labels[..n])| + 1
  }

  lemma {:induction false} LabelInJoin(labels: seq<bytes>, k: nat)
    requires k < |labels|
    ensures var at := LabelStart(labels, k);
            at + |labels[k]| <= |JoinDots(labels)| && JoinDots(labels)[at..at + |labels[k]|] == labels[k]
    decreases |labels|
  {
    var n := |labels| - 1;
    if k == n {
    } else {
      LabelInJoin(labels[..n], k);
      var at := LabelStart(labels, k);
      assert JoinDots(labels)[at..at + |labels[k]|] == JoinDots(labels[..n])[at..at + |labels[k]|];
    }
  }

  /** Labels of at most 63 bytes leave no 64 joined bytes without a dot. */
  lemma {:induction false} RunsHaveDots(labels: seq<bytes>, at: nat)
    requires forall i :: 0 <= i < |labels| ==> |labels[i]| <= 63
    requires at + 64 <= |JoinDots(labels)|
    ensures DOT in JoinDots(labels)[at..at + 64]
    decreases |labels|
  {
    var n := |labels| - 1;
    assert |labels| > 1;
    var front := JoinDots(labels[..n]);
    var text := JoinDots(labels);
    assert text == front + [DOT] + labels[n];
    if at + 64 <= |front| {
      RunsHaveDots(labels[..n], at);
      assert text[at..at + 64] == front[at..at + 64];
    } else {
      assert at <= |front| && text[at..at + 64][|front| - at] == DOT;
    }
  }

  lemma {:induction false} DerivedLabelLengths(msg: bytes, pos: nat, steps: seq<Step>)
    requires Derives(msg, pos, steps)
    ensures forall i :: 0 <= i < |LabelsOf(steps)| ==> |LabelsOf(steps)[i]| <= 63
    decreases |steps|
  {
    if steps == [] {
    } else {
      DerivedLabelLengths(msg, if steps[0].Jump? then steps[0].target else pos + 1 + |steps[0].text|, steps[1..]);
    }
  }

  lemma {:induction false} DecodedNamesFit(msg: bytes, start: nat, labels: seq<bytes>, end: nat)
    requires forall i :: 0 <= i < |labels| ==> DOT !in labels[i]
    requires ReadFrom(msg, start, [], None, 0) == Ok((JoinDots(Normalised(labels)), end))
    ensures FitsDns(labels)
  {
    hide ReadFrom, JoinDots, LabelsOf, Derives, EndOf, Jumps;
    var text := JoinDots(Normalised(labels));
    ReadNameIff(msg, start, text, end);
    var steps :| Admissible(msg, start, steps) && text == JoinDots(LabelsOf(steps)) && end == EndOf(start, steps);
    DerivedLabelLengths(msg, start, steps);
    forall k | 0 <= k < |labels|
      ensures |labels[k]| <= 63
    {
      if |labels[k]| > 63 {
        var at := LabelStart(Normalised(labels), k);
        LabelInJoin(Normalised(labels), k);
        RunsHaveDots(LabelsOf(steps), at);
        DotlessStaysDotless(labels[k]);
      }
    }
  }

  lemma DotlessStaysDotless(text: bytes)
    requires DOT !in text
    ensures DOT !in Normalise(text)
  {
  }

  /**
   * A query for `name` decodes to its id, type and normalised name exactly when every label has at most 63 bytes and
   * the name at most 253: no other name survives the encoding.
   */
  lemma DnsQueryRoundTripIff(ts: u64, wireLen: u32, src: u32, srcPort: u16, dst: u32, dstPort: u16, id: u16,
                             name: bytes, qtype: u16)
    requires srcPort == DNS_PORT || dstPort == DNS_PORT
    requires Synth.FitsLengthByte(Synth.QueryLabels(name))
    requires Synth.IPV4_HEADER_LEN + Synth.UDP_HEADER_LEN + |Synth.DnsQueryPayload(id, name, qtype)| <= 0xFFFF
    ensures var payload := Synth.DnsQueryPayload(id, name, qtype);
            var udp := UdpHeader(srcPort, dstPort, Synth.UDP_HEADER_LEN + |payload|);
            Decode(Ethernet, SynthFrame(ts, wireLen, src, dst, PROTO_UDP, Synth.Udp(srcPort, dstPort, payload)))
            == Ok(SynthPacket(ts, wireLen, src, dst, PROTO_UDP).(transport := Udp(udp), app := Dns(QueryInfo(id, name, qtype))))
            <==> FitsDns(Synth.QueryLabels(name))
  {
    hide Decode, Synth.DnsQueryPayload, Synth.QueryLabels, FitsDns, QueryInfo, DecodeDns;
    var payload := Synth.DnsQueryPayload(id, name, qtype);
    UdpRoundTrip(ts, wireLen, src, srcPort, dst, dstPort, payload);
    PayloadParts(id, name, qtype);
    assert payload != [];
    if FitsDns(Synth.QueryLabels(name)) {
      PayloadDecodes(id, name, qtype);
    }
    if DecodeDns(payload) == Ok(QueryInfo(id, name, qtype)) {
      DecodedPayloadFits(id, name, qtype);
    }
  }

  lemma DecodedPayloadFits(id: u16, name: bytes, qtype: u16)
    requires Synth.FitsLengthByte(Synth.QueryLabels(name))
    requires DecodeDns(Synth.DnsQueryPayload(id, name, qtype)) == Ok(QueryInfo(id, name, qtype))
    ensures FitsDns(Synth.QueryLabels(name))
  {
    hide ReadFrom, Synth.DnsQueryPayload, Synth.QueryLabels, FitsDns, Be16, JoinDots;
    var msg := Synth.DnsQueryPayload(id, name, qtype);
    PayloadParts(id, name, qtype);
    NamesAreNonEmpty(name);
    DecodedNamesFit(msg, DNS_HEADER_LEN, Synth.QueryLabels(name), ReadFrom(msg, DNS_HEADER_LEN, [], None, 0).value.1);
  }
}
