/**
 * The fixed headers as they stand on the wire: which byte strings the IPv4 (section 3.1 of RFC 791), TCP (section 3.1 of
 * RFC 9293) and UDP (RFC 768) parsers accept, what they make of them, and what the IPv6 and DNS headers report.
 */
module WireFormats {
  import opened Ints
  import opened Wrappers
  import opened PacketTypes
  import opened Names
  import opened Layers
  import opened DnsParser

  // ---------------------------------------------------------------- numbers

  lemma Slice16(b: bytes, at: nat, v: u16)
    requires at + 2 <= |b| && b[at..at + 2] == ToBe16(v)
    ensures Be16(b, at) == v
  {
    assert b[at] == b[at..at + 2][0] && b[at + 1] == b[at..at + 2][1];
  }

  lemma Slice32(b: bytes, at: nat, v: u32)
    requires at + 4 <= |b| && b[at..at + 4] == ToBe32(v)
    ensures Be32(b, at) == v
  {
    hide Be16, ToBe16;
    assert b[at..at + 2] == ToBe32(v)[..2] == ToBe16(v / 0x1_0000) && b[at + 2..at + 4] == ToBe32(v)[2..] == ToBe16(v % 0x1_0000);
    Slice16(b, at, v / 0x1_0000);
    Slice16(b, at + 2, v % 0x1_0000);
  }

  lemma SubSlice(b: bytes, from: nat, end: nat, i: nat, j: nat)
    requires from <= end <= |b| && i <= j <= end - from
    ensures b[from..end][i..j] == b[from + i..from + j]
  {
    var x, y := b[from..end][i..j], b[from + i..from + j];
    assert |x| == |y| && forall k :: 0 <= k < |x| ==> x[k] == b[from + i + k] == y[k];
  }

  // ---------------------------------------------------------------- TCP

  /** Ports, numbers, data offset, flags and window; `tail` is checksum, urgent pointer and options. */
  function TcpWire(h: TcpHeader, offset: byte, tail: bytes): bytes {
    ToBe16(h.srcPort) + ToBe16(h.dstPort) + ToBe32(h.seqNo) + ToBe32(h.ackNo) + [offset] + [h.flags] + ToBe16(h.window) + tail
  }

  ghost predicate IsTcpSegment(buf: bytes, h: TcpHeader, payload: bytes, offset: byte, tail: bytes) {
    offset / 0x10 >= 5 && |tail| == offset / 0x10 * 4 - 16 && buf == TcpWire(h, offset, tail) + payload
  }

  lemma TcpParts(s: bytes, d: bytes, q: bytes, a: bytes, o: byte, f: byte, w: bytes, tail: bytes, payload: bytes)
    requires |s| == |d| == |w| == 2 && |q| == |a| == 4
    ensures var b := s + d + q + a + [o] + [f] + w + tail + payload;
            && b[0..2] == s && b[2..4] == d && b[4..8] == q && b[8..12] == a && b[12] == o && b[13] == f && b[14..16] == w
            && b[16..16 + |tail|] == tail && b[16 + |tail|..] == payload
  {
  }

  lemma TcpReads(buf: bytes, h: TcpHeader, payload: bytes, offset: byte, tail: bytes)
    requires IsTcpSegment(buf, h, payload, offset, tail)
    ensures DecodeTcp(buf) == Ok((h, payload))
  {
    hide Be16, Be32, ToBe16, ToBe32;
    TcpParts(ToBe16(h.srcPort), ToBe16(h.dstPort), ToBe32(h.seqNo), ToBe32(h.ackNo), offset, h.flags, ToBe16(h.window), tail, payload);
    Slice16(buf, 0, h.srcPort);
    Slice16(buf, 2, h.dstPort);
    Slice32(buf, 4, h.seqNo);
    Slice32(buf, 8, h.ackNo);
    Slice16(buf, 14, h.window);
  }

  lemma TcpRebuilds(buf: bytes, headerLen: nat)
    requires 20 <= headerLen <= |buf|
    ensures buf == buf[0..2] + buf[2..4] + buf[4..8] + buf[8..12] + [buf[12]] + [buf[13]] + buf[14..16] + buf[16..headerLen]
                   + buf[headerLen..]
  {
  }

  lemma TcpRereads(buf: bytes, h: TcpHeader, payload: bytes)
    requires DecodeTcp(buf) == Ok((h, payload))
    ensures buf[12] / 0x10 * 4 <= |buf| && IsTcpSegment(buf, h, payload, buf[12], buf[16..buf[12] / 0x10 * 4])
  {
    hide Be16, Be32, ToBe16, ToBe32;
    TcpRebuilds(buf, buf[12] / 0x10 * 4);
    Respell16(buf, 0);
    Respell16(buf, 2);
    Respell32(buf, 4);
    Respell32(buf, 8);
    Respell16(buf, 14);
  }

  /** A segment is accepted exactly when it is a TCP header of the announced length followed by its payload. */
  lemma TcpIff(buf: bytes, h: TcpHeader, payload: bytes)
    ensures DecodeTcp(buf) == Ok((h, payload)) <==> exists offset, tail :: IsTcpSegment(buf, h, payload, offset, tail)
  {
    if DecodeTcp(buf) == Ok((h, payload)) {
      TcpRereads(buf, h, payload);
    }
    forall offset, tail | IsTcpSegment(buf, h, payload, offset, tail)
      ensures DecodeTcp(buf) == Ok((h, payload))
    {
      TcpReads(buf, h, payload, offset, tail);
    }
  }

  /** Of the flag bits only SYN and ACK decide whether a segment opens a connection. */
  lemma SynOnlyBits(h: TcpHeader, high: nat, ack: nat, middle: nat, syn: nat, fin: nat)
    requires high < 8 && ack < 2 && middle < 4 && syn < 2 && fin < 2
    requires h.flags == high * 0x20 + ack * 0x10 + middle * 4 + syn * 2 + fin
    ensures h.IsSynOnly() <==> syn == 1 && ack == 0
  {
    assert h.flags / 0x10 == high * 2 + ack;
    assert h.flags / 2 == high * 0x10 + ack * 8 + middle * 2 + syn;
  }

  // ---------------------------------------------------------------- UDP

  ghost predicate IsUdpDatagram(buf: bytes, h: UdpHeader, payload: bytes, checksum: bytes, body: bytes) {
    && |checksum| == 2
    && buf == ToBe16(h.srcPort) + ToBe16(h.dstPort) + ToBe16(h.length) + checksum + body
    && (h.length == 0 || h.length >= 8)
    && payload == body[..if h.length == 0 then |body| else Min(h.length - 8, |body|)]
  }

  lemma UdpParts(s: bytes, d: bytes, n: bytes, c: bytes, body: bytes)
    requires |s| == |d| == |n| == |c| == 2
    ensures var b := s + d + n + c + body; b[0..2] == s && b[2..4] == d && b[4..6] == n && b[6..8] == c && b[8..] == body
  {
  }

  lemma BodyOf(buf: bytes, from: nat, end: nat)
    requires from <= end <= |buf|
    ensures buf[from..end] == buf[from..][..end - from]
  {
  }

  lemma UdpReads(buf: bytes, h: UdpHeader, payload: bytes, checksum: bytes, body: bytes)
    requires IsUdpDatagram(buf, h, payload, checksum, body)
    ensures DecodeUdp(buf) == Ok((h, payload))
  {
    hide Be16, ToBe16;
    UdpParts(ToBe16(h.srcPort), ToBe16(h.dstPort), ToBe16(h.length), checksum, body);
    Slice16(buf, 0, h.srcPort);
    Slice16(buf, 2, h.dstPort);
    Slice16(buf, 4, h.length);
    BodyOf(buf, UDP_HEADER_LEN, if h.length == 0 then |buf| else Min(h.length, |buf|));
  }

  lemma UdpRebuilds(buf: bytes)
    requires |buf| >= 8
    ensures buf == buf[0..2] + buf[2..4] + buf[4..6] + buf[6..8] + buf[8..]
  {
  }

  /**
   * A datagram is accepted exactly when its length field is zero or covers its header; the payload is then what the
   * field announces, or all that was captured of it.
   */
  lemma UdpIff(buf: bytes, h: UdpHeader, payload: bytes)
    ensures DecodeUdp(buf) == Ok((h, payload)) <==> exists checksum, body :: IsUdpDatagram(buf, h, payload, checksum, body)
  {
    if DecodeUdp(buf) == Ok((h, payload)) {
      hide Be16, ToBe16;
      UdpRebuilds(buf);
      Respell16(buf, 0);
      Respell16(buf, 2);
      Respell16(buf, 4);
      BodyOf(buf, UDP_HEADER_LEN, if h.length == 0 then |buf| else Min(h.length, |buf|));
      assert IsUdpDatagram(buf, h, payload, buf[6..8], buf[8..]);
    }
    forall checksum, body | IsUdpDatagram(buf, h, payload, checksum, body)
      ensures DecodeUdp(buf) == Ok((h, payload))
    {
      UdpReads(buf, h, payload, checksum, body);
    }
  }

  // ---------------------------------------------------------------- IPv4

  /** The header fields a decoder ignores: service, identification, two flag bits, checksum and options. */
  datatype Ignored = Ignored(service: byte, id: bytes, topBits: nat, checksum: bytes, options: bytes)

  /** Two ignored bits, the more-fragments bit, and thirteen bits of fragment offset. */
  function FragmentField(h: IpHeader, topBits: nat): nat {
    topBits * 0x4000 + (if h.moreFragments then 0x2000 else 0) + h.fragmentOffset
  }

  ghost predicate IsIpv4Header(b: bytes, h: IpHeader, ihl: nat, totalLen: u16, x: Ignored) {
    && h.src.V4? && h.dst.V4? && h.fragmentOffset < 0x2000 && x.topBits < 4 && |x.id| == |x.checksum| == 2
    && 5 <= ihl <= 15 && |x.options| == ihl * 4 - 20
    && b == [0x40 + ihl] + [x.service] + ToBe16(totalLen) + x.id + ToBe16(FragmentField(h, x.topBits)) + [h.ttl] + [h.proto]
            + x.checksum + ToBe32(h.src.v4) + ToBe32(h.dst.v4) + x.options
  }

  ghost predicate IsIpv4Datagram(buf: bytes, h: IpHeader, payload: bytes, ihl: nat, totalLen: u16, x: Ignored) {
    && ihl * 4 <= totalLen && ihl * 4 <= |buf|
    && IsIpv4Header(buf[..ihl * 4], h, ihl, totalLen, x)
    && payload == buf[ihl * 4..Min(totalLen, |buf|)]
  }

  lemma Ipv4Parts(v: byte, t: byte, n: bytes, id: bytes, f: bytes, ttl: byte, p: byte, c: bytes, s: bytes,
                  d: bytes, o: bytes)
    requires |n| == |id| == |f| == |c| == 2 && |s| == |d| == 4
    ensures var b := [v] + [t] + n + id + f + [ttl] + [p] + c + s + d + o;
            && b[0] == v && b[2..4] == n && b[6..8] == f && b[8] == ttl && b[9] == p && b[12..16] == s && b[16..20] == d
            && |b| == 20 + |o|
  {
    var b, head := [v] + [t] + n + id + f + [ttl] + [p] + c + s + d + o, [v] + [t] + n + id + f + [ttl] + [p] + c;
    assert b == head + (s + d + o) && |head| == 12;
    assert b[12..] == s + d + o;
    assert b[12..16] == b[12..][..4] && b[16..20] == b[12..][4..8];
  }

  lemma FragmentBits(h: IpHeader, topBits: nat)
    requires h.fragmentOffset < 0x2000 && topBits < 4
    ensures var f := FragmentField(h, topBits);
            f < 0x1_0000 && (f / 0x2000 % 2 == 1 <==> h.moreFragments) && f % 0x2000 == h.fragmentOffset
  {
  }

  /** What the decoder reads from a well-formed header. */
  lemma Ipv4Fields(b: bytes, h: IpHeader, ihl: nat, totalLen: u16, x: Ignored)
    requires IsIpv4Header(b, h, ihl, totalLen, x)
    ensures |b| == ihl * 4 && b[0] == 0x40 + ihl && Be16(b, 2) == totalLen && Be16(b, 6) == FragmentField(h, x.topBits)
    ensures b[8] == h.ttl && b[9] == h.proto && Be32(b, 12) == h.src.v4 && Be32(b, 16) == h.dst.v4
  {
    hide Be16, Be32, ToBe16, ToBe32, FragmentField;
    Ipv4Parts(0x40 + ihl, x.service, ToBe16(totalLen), x.id, ToBe16(FragmentField(h, x.topBits)), h.ttl, h.proto, x.checksum,
              ToBe32(h.src.v4), ToBe32(h.dst.v4), x.options);
    Slice16(b, 2, totalLen);
    Slice16(b, 6, FragmentField(h, x.topBits));
    Slice32(b, 12, h.src.v4);
    Slice32(b, 16, h.dst.v4);
  }

  lemma Ipv4Reads(buf: bytes, h: IpHeader, payload: bytes, ihl: nat, totalLen: u16, x: Ignored)
    requires IsIpv4Datagram(buf, h, payload, ihl, totalLen, x)
    ensures DecodeIpv4(buf) == Ok((h, payload))
  {
    var b := buf[..ihl * 4];
    Ipv4Fields(b, h, ihl, totalLen, x);
    FragmentBits(h, x.topBits);
    assert forall i :: 0 <= i < 20 ==> b[i] == buf[i];
    hide IsIpv4Datagram, FragmentField;
  }

  lemma Ipv4Rebuilds(b: bytes)
    requires |b| >= 20
    ensures b == [b[0]] + [b[1]] + b[2..4] + b[4..6] + b[6..8] + [b[8]] + [b[9]] + b[10..12] + b[12..16] + b[16..20] + b[20..]
  {
  }

  lemma FieldSplits(field: u16)
    ensures field == field / 0x4000 * 0x4000 + (if field / 0x2000 % 2 == 1 then 0x2000 else 0) + field % 0x2000
    ensures field / 0x4000 < 4
  {
  }

  lemma SameHeaderWords(buf: bytes, n: nat)
    requires 20 <= n <= |buf|
    ensures var b := buf[..n];
            && Be16(b, 2) == Be16(buf, 2) && Be16(b, 6) == Be16(buf, 6) && Be32(b, 12) == Be32(buf, 12)
            && Be32(b, 16) == Be32(buf, 16) && b[0] == buf[0] && b[8] == buf[8] && b[9] == buf[9]
  {
  }

  lemma FieldReturns(h: IpHeader, field: u16)
    requires h.moreFragments == (field / 0x2000 % 2 == 1) && h.fragmentOffset == field % 0x2000
    ensures field / 0x4000 < 4 && FragmentField(h, field / 0x4000) == field
  {
    FieldSplits(field);
  }

  lemma HeaderRereads(b: bytes, h: IpHeader, ihl: nat) returns (x: Ignored)
    requires 5 <= ihl <= 15 && |b| == ihl * 4 && b[0] == 0x40 + ihl
    requires h.src == V4(Be32(b, 12)) && h.dst == V4(Be32(b, 16)) && h.ttl == b[8] && h.proto == b[9]
    requires h.moreFragments == (Be16(b, 6) / 0x2000 % 2 == 1) && h.fragmentOffset == Be16(b, 6) % 0x2000
    ensures IsIpv4Header(b, h, ihl, Be16(b, 2), x)
  {
    hide Be16, Be32, ToBe16, ToBe32, FragmentField;
    x := Ignored(b[1], b[4..6], Be16(b, 6) / 0x4000, b[10..12], b[20..]);
    FieldReturns(h, Be16(b, 6));
    Respell16(b, 2);
    Respell16(b, 6);
    Respell32(b, 12);
    Respell32(b, 16);
    Ipv4Rebuilds(b);
  }

  lemma Ipv4Rereads(buf: bytes, h: IpHeader, payload: bytes) returns (ihl: nat, totalLen: u16, x: Ignored)
    requires DecodeIpv4(buf) == Ok((h, payload))
    ensures IsIpv4Datagram(buf, h, payload, ihl, totalLen, x)
  {
    hide Be16, Be32, IsIpv4Header, FragmentField;
    ihl, totalLen := buf[0] % 0x10, Be16(buf, 2);
    var b := buf[..ihl * 4];
    SameHeaderWords(buf, ihl * 4);
    FieldSplits(Be16(b, 6));
    x := HeaderRereads(b, h, ihl);
  }

  /**
   * A datagram is accepted exactly when it starts with a version 4 header of at least 20 bytes whose announced total
   * covers the header; checksum, identification, service and options play no part.
   */
  lemma Ipv4Iff(buf: bytes, h: IpHeader, payload: bytes)
    ensures DecodeIpv4(buf) == Ok((h, payload)) <==>
            exists ihl, totalLen, x :: IsIpv4Datagram(buf, h, payload, ihl, totalLen, x)
  {
    if DecodeIpv4(buf) == Ok((h, payload)) {
      var ihl, totalLen, x := Ipv4Rereads(buf, h, payload);
    }
    forall ihl: nat, totalLen: u16, x | IsIpv4Datagram(buf, h, payload, ihl, totalLen, x)
      ensures DecodeIpv4(buf) == Ok((h, payload))
    {
      Ipv4Reads(buf, h, payload, ihl, totalLen, x);
    }
  }

  // ---------------------------------------------------------------- IPv6

  function ToBe128(v: u128): (b: bytes)
    ensures |b| == 16
  {
    var hi, lo := v / 0x1_0000_0000_0000_0000, v % 0x1_0000_0000_0000_0000;
    ToBe32(hi / 0x1_0000_0000) + ToBe32(hi % 0x1_0000_0000) + ToBe32(lo / 0x1_0000_0000) + ToBe32(lo % 0x1_0000_0000)
  }

  lemma Quarters(a: u32, b: u32, c: u32, d: u32)
    ensures var v: u128 := ((a * 0x1_0000_0000 + b) * 0x1_0000_0000 + c) * 0x1_0000_0000 + d;
            var hi, lo := v / 0x1_0000_0000_0000_0000, v % 0x1_0000_0000_0000_0000;
            && hi / 0x1_0000_0000 == a && hi % 0x1_0000_0000 == b && lo / 0x1_0000_0000 == c && lo % 0x1_0000_0000 == d
  {
    var v := ((a * 0x1_0000_0000 + b) * 0x1_0000_0000 + c) * 0x1_0000_0000 + d;
    assert v == (a * 0x1_0000_0000 + b) * 0x1_0000_0000_0000_0000 + (c * 0x1_0000_0000 + d);
    assert v / 0x1_0000_0000_0000_0000 == a * 0x1_0000_0000 + b;
  }

  lemma Respell128(b: bytes, at: nat)
    requires at + 16 <= |b|
    ensures ToBe128(Be128(b, at)) == b[at..at + 16]
  {
    hide Be32, ToBe32;
    Quarters(Be32(b, at), Be32(b, at + 4), Be32(b, at + 8), Be32(b, at + 12));
    Respell32(b, at);
    Respell32(b, at + 4);
    Respell32(b, at + 8);
    Respell32(b, at + 12);
    assert b[at..at + 16] == b[at..at + 4] + b[at + 4..at + 8] + b[at + 8..at + 12] + b[at + 12..at + 16];
  }

  lemma FourParts(a: bytes, b: bytes, c: bytes, d: bytes)
    requires |a| == |b| == |c| == |d| == 4
    ensures var w := a + b + c + d; w[0..4] == a && w[4..8] == b && w[8..12] == c && w[12..16] == d
  {
  }

  lemma Slice128(b: bytes, at: nat, v: u128)
    requires at + 16 <= |b| && b[at..at + 16] == ToBe128(v)
    ensures Be128(b, at) == v
  {
    hide Be32, ToBe32;
    var hi, lo := v / 0x1_0000_0000_0000_0000, v % 0x1_0000_0000_0000_0000;
    FourParts(ToBe32(hi / 0x1_0000_0000), ToBe32(hi % 0x1_0000_0000), ToBe32(lo / 0x1_0000_0000), ToBe32(lo % 0x1_0000_0000));
    SubSlice(b, at, at + 16, 0, 4);
    SubSlice(b, at, at + 16, 4, 8);
    SubSlice(b, at, at + 16, 8, 12);
    SubSlice(b, at, at + 16, 12, 16);
    Slice32(b, at, hi / 0x1_0000_0000);
    Slice32(b, at + 4, hi % 0x1_0000_0000);
    Slice32(b, at + 8, lo / 0x1_0000_0000);
    Slice32(b, at + 12, lo % 0x1_0000_0000);
  }

  /** The fixed header gives next header, hop limit and the two addresses, in that order on the wire. */
  lemma FixedHeaderIff(buf: bytes, h: IpHeader)
    requires |buf| >= IPV6_HEADER_LEN
    ensures FixedHeader(buf) == h <==>
            && h.src.V6? && h.dst.V6? && !h.moreFragments && h.fragmentOffset == 0
            && buf[6] == h.proto && buf[7] == h.ttl && buf[8..24] == ToBe128(h.src.v6) && buf[24..40] == ToBe128(h.dst.v6)
  {
    hide Be128, ToBe128;
    Respell128(buf, 8);
    Respell128(buf, 24);
    if h.src.V6? && h.dst.V6? && buf[8..24] == ToBe128(h.src.v6) && buf[24..40] == ToBe128(h.dst.v6) {
      Slice128(buf, 8, h.src.v6);
      Slice128(buf, 24, h.dst.v6);
    }
  }

  // ---------------------------------------------------------------- DNS

  /** Id, flags with two ignored groups of bits, and the first two counts (section 4.1.1 of RFC 1035). */
  ghost predicate IsDnsHeader(b: bytes, info: DnsInfo, low: nat, high: nat) {
    && info.opcode < 16 && info.rcode < 16 && low < 8 && high < 16
    && b == ToBe16(info.id) + [(if info.isResponse then 0x80 else 0) + info.opcode * 8 + low] + [high * 16 + info.rcode]
            + ToBe16(info.questionCount) + ToBe16(info.answerCount)
  }

  lemma DnsParts(id: bytes, f: byte, g: byte, q: bytes, a: bytes)
    requires |id| == |q| == |a| == 2
    ensures var b := id + [f] + [g] + q + a; |b| == 8 && b[0..2] == id && b[2] == f && b[3] == g && b[4..6] == q && b[6..8] == a
  {
  }

  lemma FlagBits(info: DnsInfo, low: nat, high: nat)
    requires info.opcode < 16 && info.rcode < 16 && low < 8 && high < 16
    ensures var first, second := (if info.isResponse then 0x80 else 0) + info.opcode * 8 + low, high * 16 + info.rcode;
            && first < 0x100 && second < 0x100 && (first >= 0x80 <==> info.isResponse)
            && first / 8 % 16 == info.opcode && second % 16 == info.rcode
  {
    var first := (if info.isResponse then 0x80 else 0) + info.opcode * 8 + low;
    assert first / 8 == (if info.isResponse then 16 else 0) + info.opcode;
  }

  lemma DnsHeaderReads(msg: bytes, info: DnsInfo, low: nat, high: nat)
    requires |msg| >= DNS_HEADER_LEN && IsDnsHeader(msg[..8], info, low, high)
    ensures Info(msg, info.question) == info
  {
    hide Be16, ToBe16;
    FlagBits(info, low, high);
    DnsParts(ToBe16(info.id), (if info.isResponse then 0x80 else 0) + info.opcode * 8 + low, high * 16 + info.rcode,
             ToBe16(info.questionCount), ToBe16(info.answerCount));
    assert msg[0..2] == msg[..8][0..2] && msg[4..6] == msg[..8][4..6] && msg[6..8] == msg[..8][6..8];
    Slice16(msg, 0, info.id);
    Slice16(msg, 4, info.questionCount);
    Slice16(msg, 6, info.answerCount);
  }

  lemma DnsHeaderRereads(msg: bytes, question: Option<DnsQuestion>) returns (low: nat, high: nat)
    requires |msg| >= DNS_HEADER_LEN
    ensures IsDnsHeader(msg[..8], Info(msg, question), low, high)
  {
    hide Be16, ToBe16;
    low, high := msg[2] % 8, msg[3] / 16;
    Respell16(msg, 0);
    Respell16(msg, 4);
    Respell16(msg, 6);
    assert msg[..8] == msg[0..2] + [msg[2]] + [msg[3]] + msg[4..6] + msg[6..8];
  }

  /** The header of a message reports exactly what stands on the wire. */
  lemma DnsHeaderIff(msg: bytes, info: DnsInfo)
    requires |msg| >= DNS_HEADER_LEN
    ensures Info(msg, info.question) == info <==> exists low, high :: IsDnsHeader(msg[..8], info, low, high)
  {
    if Info(msg, info.question) == info {
      var low, high := DnsHeaderRereads(msg, info.question);
    }
    forall low: nat, high: nat | IsDnsHeader(msg[..8], info, low, high)
      ensures Info(msg, info.question) == info
    {
      DnsHeaderReads(msg, info, low, high);
    }
  }
  /** The question, if any: a name in the message from octet 12 on, then a type. */
  ghost predicate IsQuestion(msg: bytes, count: u16, question: Option<DnsQuestion>, steps: seq<Step>) {
    match question
    case None => count == 0
    case Some(q) =>
      && count != 0 && Admissible(msg, 12, steps) && EndOf(12, steps) + 2 <= |msg|
      && q.name == JoinDots(LabelsOf(steps))
      && q.qtype == msg[EndOf(12, steps)] as int * 0x100 + msg[EndOf(12, steps) + 1] as int
  }

  /** A query or response as it stands on the wire; counts, answers and what follows the first question do not matter. */
  ghost predicate IsDnsMessage(msg: bytes, info: DnsInfo, low: nat, high: nat, steps: seq<Step>) {
    |msg| >= 12 && IsDnsHeader(msg[..8], info, low, high) && IsQuestion(msg, info.questionCount, info.question, steps)
  }

  lemma DecodedMessage(msg: bytes, info: DnsInfo) returns (low: nat, high: nat, steps: seq<Step>)
    requires DecodeDns(msg) == Ok(info)
    ensures IsDnsMessage(msg, info, low, high, steps)
  {
    hide IsDnsHeader, ReadFrom, Admissible, LabelsOf, EndOf;
    low, high := DnsHeaderRereads(msg, info.question);
    steps := [];
    if info.question.Some? {
      var (name, end) := ReadFrom(msg, 12, [], None, 0).value;
      ReadNameIff(msg, 12, name, end);
      steps :| Admissible(msg, 12, steps) && name == JoinDots(LabelsOf(steps)) && end == EndOf(12, steps);
    }
  }

  lemma MessageDecodes(msg: bytes, info: DnsInfo, low: nat, high: nat, steps: seq<Step>)
    requires IsDnsMessage(msg, info, low, high, steps)
    ensures DecodeDns(msg) == Ok(info)
  {
    hide IsDnsHeader, ReadFrom, Admissible, LabelsOf, EndOf, Info;
    DnsHeaderReads(msg, info, low, high);
    CountOf(msg, info.question);
    if info.question.Some? {
      ReadNameIff(msg, 12, info.question.value.name, EndOf(12, steps));
    }
  }

  lemma CountOf(msg: bytes, question: Option<DnsQuestion>)
    requires |msg| >= DNS_HEADER_LEN
    ensures Info(msg, question).questionCount == Be16(msg, 4)
  {
  }

  /**
   * A message decodes exactly when it has a header and, if it announces questions, a first question with a readable name;
   * whether it is a query or a response, the decoder reports its header and that question.
   */
  lemma DnsIff(msg: bytes, info: DnsInfo)
    ensures DecodeDns(msg) == Ok(info) <==> exists low, high, steps :: IsDnsMessage(msg, info, low, high, steps)
  {
    hide IsDnsMessage, DecodeDns;
    if DecodeDns(msg) == Ok(info) {
      var low, high, steps := DecodedMessage(msg, info);
    }
    forall low: nat, high: nat, steps | IsDnsMessage(msg, info, low, high, steps)
      ensures DecodeDns(msg) == Ok(info)
    {
      MessageDecodes(msg, info, low, high, steps);
    }
  }
}
