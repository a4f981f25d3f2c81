/** What generated frames decode to, and what the names in generated queries come back as. */
module GeneratedPackets {
  import opened Ints
  import opened Wrappers
  import opened PacketTypes
  import opened Names
  import opened Parser
  import opened RoundTrip
  import Synth
  import G = Generator

  function PacketOf(ts: u64, t: G.Traffic): Packet
    requires G.Encodable(t)
  {
    var wireLen := |G.Encode(t)|;
    match t
    case Segment(src, dst, flags, payloadLen) =>
      SynthPacket(ts, wireLen, src.ip, dst.ip, PROTO_TCP)
        .(transport := Tcp(TcpHeader(src.port, dst.port, 0, 0, flags, 64_240)))
    case Query(src, dst, id, name, qtype) =>
      G.ShortNamesFit(id, name, qtype);
      var payload := Synth.DnsQueryPayload(id, name, qtype);
      var udp := UdpHeader(src.port, dst.port, Synth.UDP_HEADER_LEN + |payload|);
      SynthPacket(ts, wireLen, src.ip, dst.ip, PROTO_UDP).(transport := Udp(udp), app := DecodeApp(udp, payload))
    case Echo(src, dst, seqNo) =>
      SynthPacket(ts, wireLen, src, dst, PROTO_ICMP).(transport := Icmp(IcmpHeader(8, 0, false)))
  }

  /** Every generated frame, of any scenario, decodes. */
  lemma TrafficDecodes(ts: u64, t: G.Traffic)
    requires G.Encodable(t)
    ensures Decode(Ethernet, Frame(ts, |G.Encode(t)|, G.Encode(t))) == Ok(PacketOf(ts, t))
  {
    hide Decode, Synth.EthernetIpv4, DecodeApp;
    match t
    case Segment(src, dst, flags, payloadLen) =>
      TcpRoundTrip(ts, |G.Encode(t)|, src.ip, src.port, dst.ip, dst.port, flags, payloadLen);
    case Query(src, dst, id, name, qtype) =>
      G.ShortNamesFit(id, name, qtype);
      UdpRoundTrip(ts, |G.Encode(t)|, src.ip, src.port, dst.ip, dst.port, Synth.DnsQueryPayload(id, name, qtype));
    case Echo(src, dst, seqNo) =>
      IcmpRoundTrip(ts, |G.Encode(t)|, src, dst, seqNo);
  }

  lemma PacketTime(ts: u64, t: G.Traffic)
    requires G.Encodable(t)
    ensures PacketOf(ts, t).ts == ts
  {
  }

  lemma WireLenFits(t: G.Traffic)
    requires G.Encodable(t)
    ensures |G.Encode(t)| <= 0xFFFF_FFFF
  {
  }

  function Destination(t: G.Traffic): u32 {
    match t
    case Segment(_, dst, _, _) => dst.ip
    case Query(_, dst, _, _, _) => dst.ip
    case Echo(_, dst, _) => dst
  }

  lemma PacketFacts(ts: u64, t: G.Traffic)
    requires G.Encodable(t)
    ensures var p := PacketOf(ts, t);
            && p.ip.Some? && p.ip.value.dst == V4(Destination(t))
            && (!t.Query? ==> p.app == NoApp)
  {
    hide G.Encode, DecodeApp, Synth.DnsQueryPayload;
  }

  /** The packets a generated run decodes to. */
  ghost function PacketsOf(frames: seq<G.Timed>, plan: seq<G.Traffic>): (packets: seq<Packet>)
    requires G.Follows(frames, plan)
    ensures |packets| == |frames|
    ensures forall i :: 0 <= i < |frames| ==> packets[i] == PacketOf(frames[i].0, plan[i])
  {
    seq(|frames|, i requires 0 <= i < |frames| => PacketOf(frames[i].0, plan[i]))
  }

  // ---------------------------------------------------------------- names

  lemma {:induction false} JoinWithoutEmpty(parts: seq<bytes>)
    ensures |JoinDots(NonEmpty(parts))| <= |JoinDots(parts)|
  {
    if parts == [] {
    } else {
      var first, rest := parts[0], parts[1..];
      JoinWithoutEmpty(rest);
      assert parts == [first] + rest;
      if rest == [] {
        assert NonEmpty(rest) == [];
      } else {
        JoinCons(first, rest);
      }
      if first != [] && NonEmpty(rest) != [] {
        JoinCons(first, NonEmpty(rest));
      }
      assert first == [] ==> NonEmpty(parts) == NonEmpty(rest);
      assert NonEmpty(rest) == [] && first != [] ==> NonEmpty(parts) == [first];
    }
  }

  /** A query for a short name fits DNS, and no label of the name it asks for is longer than the name. */
  lemma {:induction false} ShortNames(name: bytes)
    requires |name| <= 63
    ensures FitsDns(Synth.QueryLabels(name))
    ensures forall part :: part in SplitDots(QueryName(name)) ==> |part| <= |name|
  {
    var parts := SplitDots(name);
    G.PartsAreShort(name);
    JoinSplit(name);
    JoinWithoutEmpty(parts);
    NormaliseJoin(NonEmpty(parts));
    forall i | 0 <= i < |NonEmpty(parts)|
      ensures |NonEmpty(parts)[i]| <= 63
    {
      assert NonEmpty(parts)[i] in parts;
    }
    G.PartsAreShort(QueryName(name));
  }

  lemma {:induction false} FirstDotAfter(text: bytes, rest: bytes)
    requires DOT !in text
    ensures DOT in text + [DOT] + rest && FirstDot(text + [DOT] + rest) == |text|
  {
    assert (text + [DOT] + rest)[|text|] == DOT;
    var first := FirstDot(text + [DOT] + rest);
    assert forall i :: 0 <= i < |text| ==> (text + [DOT] + rest)[i] == text[i];
  }

  /** A part without dots in front is the first part. */
  lemma {:induction false} SplitFront(text: bytes, rest: bytes)
    requires DOT !in text
    ensures SplitDots(text + [DOT] + rest) == [text] + SplitDots(rest)
  {
    FirstDotAfter(text, rest);
    var name := text + [DOT] + rest;
    assert name[..|text|] == text && name[|text| + 1..] == rest;
  }

  /** The 32 characters are digits and lower-case letters. */
  lemma Base32IsPlain(b: byte)
    requires b in G.Ascii(G.BASE32)
    ensures b != DOT && PrintableLower(b) == b
  {
    var k :| 0 <= k < |G.BASE32| && G.Ascii(G.BASE32)[k] == b;
    PlainAt(k);
  }

  lemma PlainAt(k: nat)
    requires k < |G.BASE32|
    ensures var b := G.Ascii(G.BASE32)[k];
            97 <= b <= 122 || 50 <= b <= 55
  {
    CharAt(k);
    assert G.Ascii(G.BASE32)[k] == G.BASE32[k] as int % 0x100;
  }

  lemma CharAt(k: nat)
    requires k < |G.BASE32|
    ensures 'a' <= G.BASE32[k] <= 'z' || '2' <= G.BASE32[k] <= '7'
  {
  }

  lemma LabelIsPlain(text: bytes)
    requires G.IsTunnelLabel(text)
    ensures DOT !in text && Normalise(text) == text && |text| == 48
  {
    hide PrintableLower, G.Ascii;
    forall k | 0 <= k < |text|
      ensures text[k] != DOT && PrintableLower(text[k]) == text[k]
    {
      Base32IsPlain(text[k]);
    }
  }

  lemma NormaliseDotted(text: bytes, rest: bytes)
    requires Normalise(text) == text
    ensures Normalise(text + [DOT] + rest) == text + [DOT] + Normalise(rest)
  {
    var whole := text + [DOT] + rest;
    forall i | 0 <= i < |text|
      ensures PrintableLower(whole[i]) == text[i]
    {
      assert Normalise(text)[i] == PrintableLower(text[i]);
    }
  }

  lemma {:induction false} ShortParts(parts: seq<bytes>, limit: nat)
    requires forall i :: 0 <= i < |parts| ==> |parts[i]| <= limit
    ensures forall i :: 0 <= i < |NonEmpty(parts)| ==> |NonEmpty(parts)[i]| <= limit
  {
    forall i | 0 <= i < |NonEmpty(parts)|
      ensures |NonEmpty(parts)[i]| <= limit
    {
      assert NonEmpty(parts)[i] in parts;
    }
  }

  /** The labels of a tunnel query: the long one, then short ones. */
  lemma {:induction false} TunnelLabels(text: bytes)
    requires G.IsTunnelLabel(text)
    ensures var rest := NonEmpty(SplitDots(G.Ascii(G.TUNNEL_DOMAIN)));
            && Synth.QueryLabels(G.TunnelName(text)) == [text] + rest
            && (forall i :: 0 <= i < |rest| ==> |rest[i]| <= 19)
            && |JoinDots(rest)| <= 19
  {
    hide G.Ascii, SplitDots, JoinDots;
    var domain := G.Ascii(G.TUNNEL_DOMAIN);
    var parts := SplitDots(domain);
    LabelIsPlain(text);
    SplitFront(text, domain);
    assert ([text] + parts)[1..] == parts;
    G.PartsAreShort(domain);
    ShortParts(parts, 19);
    JoinSplit(domain);
    JoinWithoutEmpty(parts);
  }

  lemma {:induction false} OnePart(text: bytes, rest: seq<bytes>)
    requires DOT !in text && Normalise(text) == text && rest == []
    ensures JoinDots(Normalised([text] + rest)) == text && SplitDots(text) == [text]
  {
    assert [text] + rest == [text] && Normalised([text]) == [text];
  }

  /** What comes back for the labels of a tunnel query. */
  lemma {:induction false} LongPartReturns(text: bytes, rest: seq<bytes>)
    requires DOT !in text && Normalise(text) == text && |JoinDots(rest)| <= 19
    ensures var name := JoinDots(Normalised([text] + rest));
            && |name| <= |text| + 20 && text in SplitDots(name)
            && forall part :: part in SplitDots(name) ==> part == text || |part| <= 19
  {
    hide JoinDots, SplitDots, Normalise;
    if rest == [] {
      OnePart(text, rest);
    } else {
      NormaliseJoin([text] + rest);
      JoinCons(text, rest);
      NormaliseDotted(text, JoinDots(rest));
      var tail := Normalise(JoinDots(rest));
      SplitFront(text, tail);
      G.PartsAreShort(tail);
      assert forall part :: part in [text] + SplitDots(tail) ==> part == text || part in SplitDots(tail);
      assert ([text] + SplitDots(tail))[0] == text;
    }
  }

  /** A tunnel query's name fits DNS, and comes back with one label that is not short: the random one. */
  lemma {:induction false} TunnelNameReturns(text: bytes)
    requires G.IsTunnelLabel(text)
    ensures FitsDns(Synth.QueryLabels(G.TunnelName(text)))
    ensures var parts := SplitDots(QueryName(G.TunnelName(text)));
            text in parts && forall part :: part in parts ==> part == text || |part| <= 19
  {
    hide G.Ascii, SplitDots, JoinDots, G.TunnelName, Synth.QueryLabels, Normalise;
    TunnelLabels(text);
    LabelIsPlain(text);
    LongPartReturns(text, NonEmpty(SplitDots(G.Ascii(G.TUNNEL_DOMAIN))));
  }
}
