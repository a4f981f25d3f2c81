/** The synthetic frame encoders (`synth.rs`). */
module Synth {
  import opened Ints
  import opened Names

  const DST_MAC: bytes := [0x02, 0, 0, 0, 0, 0x02]
  const SRC_MAC: bytes := [0x02, 0, 0, 0, 0, 0x01]
  const IPV4_HEADER_LEN: nat := 20
  const TCP_HEADER_LEN: nat := 20
  const UDP_HEADER_LEN: nat := 8
  const DEFAULT_TTL: byte := 64
  const TCP_WINDOW: u16 := 64_240
  const ICMP_ECHO_REQUEST: byte := 8
  const PROTO_ICMP: byte := 1
  const PROTO_TCP: byte := 6
  const PROTO_UDP: byte := 17

  // ---------------------------------------------------------------- internet checksum

  /** The sum of the 16-bit big-endian words, an odd last byte padded with zero. */
  function WordSum(b: bytes): nat {
    if |b| == 0 then 0
    else if |b| == 1 then b[0] as int * 0x100
    else Be16(b, 0) + WordSum(b[2..])
  }

  /** Carries folded back in until 16 bits remain. */
  function Fold(sum: nat): u16 {
    if sum > 0xFFFF then Fold(sum % 0x1_0000 + sum / 0x1_0000) else sum
  }

  function Checksum(b: bytes): u16 {
    0xFFFF - Fold(WordSum(b))
  }

  /** Folding is the remainder modulo 65,535, represented in 1..65,535 unless the sum is zero. */
  lemma {:induction false} FoldIsResidue(sum: nat)
    ensures Fold(sum) == if sum == 0 then 0 else 1 + (sum - 1) % 0xFFFF
  {
    if sum <= 0xFFFF {
    } else {
      var next := sum % 0x1_0000 + sum / 0x1_0000;
      FoldIsResidue(next);
      SameResidue(sum - 1, next - 1, sum / 0x1_0000);
    }
  }

  lemma SameResidue(a: nat, b: nat, q: nat)
    requires a == b + q * 0xFFFF
    ensures a % 0xFFFF == b % 0xFFFF
    decreases q
  {
    if q == 0 {
    } else {
      SameResidue(a - 0xFFFF, b, q - 1);
    }
  }

  lemma {:induction false} WordSumAppend(a: bytes, b: bytes)
    requires |a| % 2 == 0
    ensures WordSum(a + b) == WordSum(a) + WordSum(b)
  {
    if a == [] {
      assert a + b == b;
    } else {
      assert (a + b)[2..] == a[2..] + b;
      WordSumAppend(a[2..], b);
    }
  }

  lemma {:induction false} WordSumOfPair(b: bytes)
    requires |b| == 2
    ensures WordSum(b) == Be16(b, 0)
  {
    assert WordSum(b[2..]) == 0;
  }

  /** A header whose zero checksum field is filled in sums to all ones, which is what a receiver checks. */
  lemma {:induction false} ChecksumVerifies(before: bytes, after: bytes)
    requires |before| % 2 == 0
    ensures var c := Checksum(before + [0, 0] + after);
            Fold(WordSum(before + ToBe16(c) + after)) == 0xFFFF
  {
    hide Fold, WordSum;
    var zeroed := before + [0, 0] + after;
    var c := Checksum(zeroed);
    WordSumAppend(before + [0, 0], after);
    WordSumAppend(before, [0, 0]);
    WordSumAppend(before + ToBe16(c), after);
    WordSumAppend(before, ToBe16(c));
    WordSumOfPair([0, 0]);
    WordSumOfPair(ToBe16(c));
    var sum := WordSum(zeroed);
    assert WordSum(before + ToBe16(c) + after) == sum + c;
    FoldIsResidue(sum);
    FoldIsResidue(sum + c);
    if sum > 0 {
      assert sum - 1 == (sum - 1) / 0xFFFF * 0xFFFF + (sum - 1) % 0xFFFF;
      SameResidue(sum + c - 1, 0xFFFE, (sum - 1) / 0xFFFF);
    }
  }

  method InternetChecksum(b: bytes) returns (checksum: u16)
    ensures checksum == Checksum(b)
  {
    var sum: nat, i: nat := 0, 0;
    while i < |b|
      invariant i <= |b| + 1 && (i <= |b| ==> sum + WordSum(b[i..]) == WordSum(b)) && (i > |b| ==> sum == WordSum(b))
    {
      assert i + 1 < |b| ==> b[i..][2..] == b[i + 2..];
      sum := sum + b[i] as int * 0x100 + (if i + 1 < |b| then b[i + 1] as int else 0);
      i := i + 2;
    }
    while sum > 0xFFFF
      invariant Fold(sum) == Fold(WordSum(b))
    {
      sum := sum % 0x1_0000 + sum / 0x1_0000;
    }
    checksum := 0xFFFF - sum;
  }

  // ---------------------------------------------------------------- frames

  function Zeros(n: nat): (b: bytes)
    ensures |b| == n && forall i :: 0 <= i < n ==> b[i] == 0
  {
    seq(n, _ => 0)
  }

  function HeaderStart(totalLen: u16, proto: byte): bytes {
    [0x45, 0] + ToBe16(totalLen) + [0, 0, 0, 0, DEFAULT_TTL, proto]
  }

  function Ipv4Header(src: u32, dst: u32, proto: byte, totalLen: u16): (h: bytes)
    ensures |h| == IPV4_HEADER_LEN
  {
    var start, end := HeaderStart(totalLen, proto), ToBe32(src) + ToBe32(dst);
    start + ToBe16(Checksum(start + [0, 0] + end)) + end
  }

  predicate FitsIpv4(l4: bytes) {
    IPV4_HEADER_LEN + |l4| <= 0xFFFF
  }

  function EthernetIpv4(src: u32, dst: u32, proto: byte, l4: bytes): (frame: bytes)
    requires FitsIpv4(l4)
    ensures |frame| == 34 + |l4|
  {
    DST_MAC + SRC_MAC + [0x08, 0x00] + Ipv4Header(src, dst, proto, IPV4_HEADER_LEN + |l4|) + l4
  }

  /** The header of every encoded frame passes the checksum test. */
  lemma HeaderChecksumVerifies(src: u32, dst: u32, proto: byte, totalLen: u16)
    ensures Fold(WordSum(Ipv4Header(src, dst, proto, totalLen))) == 0xFFFF
  {
    ChecksumVerifies(HeaderStart(totalLen, proto), ToBe32(src) + ToBe32(dst));
  }

  function Tcp(srcPort: u16, dstPort: u16, flags: byte, payloadLen: nat): (b: bytes)
    ensures |b| == TCP_HEADER_LEN + payloadLen
  {
    ToBe16(srcPort) + ToBe16(dstPort) + Zeros(8) + [0x50, flags] + ToBe16(TCP_WINDOW) + Zeros(4 + payloadLen)
  }

  function Udp(srcPort: u16, dstPort: u16, payload: bytes): (b: bytes)
    requires UDP_HEADER_LEN + |payload| <= 0xFFFF
    ensures |b| == UDP_HEADER_LEN + |payload|
  {
    ToBe16(srcPort) + ToBe16(dstPort) + ToBe16(UDP_HEADER_LEN + |payload|) + [0, 0] + payload
  }

  function IcmpEcho(seqNo: u16): (b: bytes)
    ensures |b| == 8
  {
    [ICMP_ECHO_REQUEST, 0] + ToBe16(Checksum([ICMP_ECHO_REQUEST, 0] + [0, 0] + ([0, 0] + ToBe16(seqNo)))) + ([0, 0] + ToBe16(seqNo))
  }

  /** An echo request passes its checksum test, has no identifier, and carries its sequence number last. */
  lemma IcmpChecksumVerifies(seqNo: u16)
    ensures Fold(WordSum(IcmpEcho(seqNo))) == 0xFFFF
    ensures var b := IcmpEcho(seqNo); b[0] == 8 && b[1] == 0 && b[4..6] == [0, 0] && b[6..8] == ToBe16(seqNo)
  {
    hide Fold, WordSum, ToBe16;
    ChecksumVerifies([8, 0], [0, 0] + ToBe16(seqNo));
    var b := IcmpEcho(seqNo);
    assert [ICMP_ECHO_REQUEST, 0] == [8, 0];
  }

  predicate FitsLengthByte(labels: seq<bytes>) {
    forall i :: 0 <= i < |labels| ==> |labels[i]| <= 0xFF
  }

  function EncodeLabels(labels: seq<bytes>): bytes
    requires FitsLengthByte(labels)
  {
    if labels == [] then [] else [|labels[0]|] + labels[0] + EncodeLabels(labels[1..])
  }

  /** The labels a dotted name stands for: its non-empty parts. */
  function QueryLabels(name: bytes): seq<bytes> {
    NonEmpty(SplitDots(name))
  }

  function DnsQueryPayload(id: u16, name: bytes, qtype: u16): bytes
    requires FitsLengthByte(QueryLabels(name))
  {
    ToBe16(id) + ToBe16(0x0100) + ToBe16(1) + Zeros(6) + EncodeLabels(QueryLabels(name)) + [0] + ToBe16(qtype) + ToBe16(1)
  }

  // ---------------------------------------------------------------- the encoders as they run

  lemma HeaderOctets(h: bytes, n: bytes, src: bytes, dst: bytes, proto: byte)
    requires |h| == IPV4_HEADER_LEN && |n| == 2 && |src| == |dst| == 4
    requires h[0] == 0x45 && h[1] == 0 && h[2] == n[0] && h[3] == n[1] && h[4] == h[5] == h[6] == h[7] == 0
    requires h[8] == DEFAULT_TTL && h[9] == proto && h[10] == h[11] == 0
    requires h[12] == src[0] && h[13] == src[1] && h[14] == src[2] && h[15] == src[3]
    requires h[16] == dst[0] && h[17] == dst[1] && h[18] == dst[2] && h[19] == dst[3]
    ensures h == [0x45, 0] + n + [0, 0, 0, 0, DEFAULT_TTL, proto] + [0, 0] + (src + dst)
  {
  }

  /** Fills in everything but the checksum. */
  method FillHeader(ip: array<byte>, src: u32, dst: u32, proto: byte, totalLen: u16)
    requires ip.Length == IPV4_HEADER_LEN && forall i :: 0 <= i < ip.Length ==> ip[i] == 0
    modifies ip
    ensures ip[..] == HeaderStart(totalLen, proto) + [0, 0] + (ToBe32(src) + ToBe32(dst))
  {
    hide Be16, Be32, ToBe16, ToBe32;
    var lenOctets, srcOctets, dstOctets := ToBe16(totalLen), ToBe32(src), ToBe32(dst);
    ip[0] := 0x45;
    ip[2], ip[3] := lenOctets[0], lenOctets[1];
    ip[8] := DEFAULT_TTL;
    ip[9] := proto;
    ip[12], ip[13], ip[14], ip[15] := srcOctets[0], srcOctets[1], srcOctets[2], srcOctets[3];
    ip[16], ip[17], ip[18], ip[19] := dstOctets[0], dstOctets[1], dstOctets[2], dstOctets[3];
    HeaderOctets(ip[..], lenOctets, srcOctets, dstOctets, proto);
  }

  method Ipv4HeaderBytes(src: u32, dst: u32, proto: byte, totalLen: u16) returns (header: bytes)
    ensures header == Ipv4Header(src, dst, proto, totalLen)
  {
    hide Checksum, HeaderStart, Be16, Be32, ToBe32;
    var ip := new byte[IPV4_HEADER_LEN](_ => 0);
    FillHeader(ip, src, dst, proto, totalLen);
    ghost var filled := ip[..];
    var checksum := InternetChecksum(ip[..]);
    ip[10], ip[11] := ToBe16(checksum)[0], ToBe16(checksum)[1];
    assert ip[..] == filled[..10] + ToBe16(checksum) + filled[12..];
    header := ip[..];
  }

  method EthernetIpv4Frame(src: u32, dst: u32, proto: byte, l4: bytes) returns (frame: bytes)
    requires FitsIpv4(l4)
    ensures frame == EthernetIpv4(src, dst, proto, l4)
  {
    hide Ipv4Header;
    var ip := Ipv4HeaderBytes(src, dst, proto, IPV4_HEADER_LEN + |l4|);
    frame := DST_MAC + SRC_MAC + [0x08, 0x00];
    frame := frame + ip;
    frame := frame + l4;
  }

  method TcpSegment(src: u32, srcPort: u16, dst: u32, dstPort: u16, flags: byte, payloadLen: nat) returns (frame: bytes)
    requires IPV4_HEADER_LEN + TCP_HEADER_LEN + payloadLen <= 0xFFFF
    ensures frame == EthernetIpv4(src, dst, PROTO_TCP, Tcp(srcPort, dstPort, flags, payloadLen))
  {
    var seg := new byte[TCP_HEADER_LEN + payloadLen](_ => 0);
    seg[0], seg[1] := ToBe16(srcPort)[0], ToBe16(srcPort)[1];
    seg[2], seg[3] := ToBe16(dstPort)[0], ToBe16(dstPort)[1];
    seg[12] := 0x50;
    seg[13] := flags;
    seg[14], seg[15] := ToBe16(TCP_WINDOW)[0], ToBe16(TCP_WINDOW)[1];
    assert seg[..] == Tcp(srcPort, dstPort, flags, payloadLen);
    frame := EthernetIpv4Frame(src, dst, PROTO_TCP, seg[..]);
  }

  method UdpDatagram(src: u32, srcPort: u16, dst: u32, dstPort: u16, payload: bytes) returns (frame: bytes)
    requires IPV4_HEADER_LEN + UDP_HEADER_LEN + |payload| <= 0xFFFF
    ensures frame == EthernetIpv4(src, dst, PROTO_UDP, Udp(srcPort, dstPort, payload))
  {
    var dgram: bytes := ToBe16(srcPort);
    dgram := dgram + ToBe16(dstPort);
    dgram := dgram + ToBe16(UDP_HEADER_LEN + |payload|);
    dgram := dgram + [0, 0];
    dgram := dgram + payload;
    frame := EthernetIpv4Frame(src, dst, PROTO_UDP, dgram);
  }

  method IcmpEchoFrame(src: u32, dst: u32, seqNo: u16) returns (frame: bytes)
    ensures frame == EthernetIpv4(src, dst, PROTO_ICMP, IcmpEcho(seqNo))
  {
    hide Checksum, WordSum, Be16;
    var msg := new byte[8](_ => 0);
    msg[0] := ICMP_ECHO_REQUEST;
    msg[6], msg[7] := ToBe16(seqNo)[0], ToBe16(seqNo)[1];
    assert msg[..] == [ICMP_ECHO_REQUEST, 0] + [0, 0] + ([0, 0] + ToBe16(seqNo));
    var checksum := InternetChecksum(msg[..]);
    msg[2], msg[3] := ToBe16(checksum)[0], ToBe16(checksum)[1];
    assert msg[..] == [ICMP_ECHO_REQUEST, 0] + ToBe16(checksum) + ([0, 0] + ToBe16(seqNo));
    frame := EthernetIpv4Frame(src, dst, PROTO_ICMP, msg[..]);
  }

  lemma {:induction false} NoLabelsLeft(labels: seq<bytes>)
    requires FitsLengthByte(labels)
    ensures [] + EncodeLabels(labels[0..]) == EncodeLabels(labels)
    ensures EncodeLabels(labels[|labels|..]) == []
  {
    assert labels[0..] == labels && labels[|labels|..] == [];
  }

  lemma {:induction false} NextLabel(labels: seq<bytes>, i: nat)
    requires FitsLengthByte(labels) && i < |labels|
    ensures EncodeLabels(labels[i..]) == ([|labels[i]|] + labels[i]) + EncodeLabels(labels[i + 1..])
  {
    var rest := labels[i..];
    assert rest[0] == labels[i] && rest[1..] == labels[i + 1..];
  }

  method LabelBytes(labels: seq<bytes>) returns (b: bytes)
    requires FitsLengthByte(labels)
    ensures b == EncodeLabels(labels)
  {
    hide EncodeLabels;
    b := [];
    NoLabelsLeft(labels);
    for i := 0 to |labels|
      invariant b + EncodeLabels(labels[i..]) == EncodeLabels(labels)
    {
      NextLabel(labels, i);
      b := b + ([|labels[i]|] + labels[i]);
    }
  }

  method DnsQuery(src: u32, srcPort: u16, dst: u32, dstPort: u16, id: u16, name: bytes, qtype: u16)
    returns (frame: bytes)
    requires FitsLengthByte(QueryLabels(name))
    requires IPV4_HEADER_LEN + UDP_HEADER_LEN + |DnsQueryPayload(id, name, qtype)| <= 0xFFFF
    ensures frame == EthernetIpv4(src, dst, PROTO_UDP, Udp(srcPort, dstPort, DnsQueryPayload(id, name, qtype)))
  {
    hide EncodeLabels, QueryLabels, EthernetIpv4, Udp, ToBe16;
    var msg: bytes := ToBe16(id) + ToBe16(0x0100) + ToBe16(1) + Zeros(6);
    var labels := LabelBytes(QueryLabels(name));
    msg := msg + labels;
    msg := msg + [0] + ToBe16(qtype) + ToBe16(1);
    frame := UdpDatagram(src, srcPort, dst, dstPort, msg);
  }
}
