/** The synthetic traffic generator (`synth.rs`): a pseudo-random walk over four scenarios. */
module Generator {
  import opened Ints
  import opened Names
  import Synth

  // ---------------------------------------------------------------- the random source

  /** One xorshift step. */
  function NextState(s: bv64): bv64 {
    var a := s ^ (s << 13);
    var b := a ^ (a >> 7);
    b ^ (b << 17)
  }

  /** The walk never falls into the one state that it could not leave, and enters it from nowhere else. */
  lemma ZeroIsApart(s: bv64)
    ensures NextState(s) == 0 <==> s == 0
  {
  }

  /** The first step from the smallest seed. */
  lemma FirstStep()
    ensures NextState(1) == 0x4082_2041
  {
  }

  /** The first state: a seed of zero would be stuck. */
  function Seeded(seed: bv64): (s: bv64)
    ensures s != 0 && (seed != 0 ==> s == seed)
  {
    if seed == 0 then 1 else seed
  }

  function Draw(s: bv64, bound: nat): (r: nat)
    requires bound > 0
    ensures r < bound
  {
    s as int % bound
  }

  class Rng {
    var state: bv64

    constructor (seed: bv64)
      ensures state == Seeded(seed) && state != 0
    {
      state := if seed == 0 then 1 else seed;
    }

    method NextU64() returns (x: bv64)
      modifies this
      ensures x == state == NextState(old(state))
      ensures old(state) != 0 ==> state != 0
    {
      hide NextState;
      ZeroIsApart(state);
      x := NextState(state);
      state := x;
    }

    method Below(bound: nat) returns (r: nat)
      requires bound > 0
      modifies this
      ensures state == NextState(old(state)) && r == Draw(state, bound)
      ensures old(state) != 0 ==> state != 0
    {
      hide NextState;
      var x := NextU64();
      r := x as int % bound;
    }
  }

  // ---------------------------------------------------------------- what is sent

  datatype Socket = Socket(ip: u32, port: u16)

  /** One synthetic frame by its content. */
  datatype Traffic =
    | Segment(src: Socket, dst: Socket, flags: byte, payloadLen: nat)
    | Query(src: Socket, dst: Socket, id: u16, name: bytes, qtype: u16)
    | Echo(srcIp: u32, dstIp: u32, seqNo: u16)

  predicate Encodable(t: Traffic) {
    match t
    case Segment(_, _, _, payloadLen) => payloadLen <= 1_400
    case Query(_, _, _, name, _) => |name| <= 0xFF
    case Echo(_, _, _) => true
  }

  function Encode(t: Traffic): bytes
    requires Encodable(t)
  {
    match t
    case Segment(src, dst, flags, payloadLen) =>
      Synth.EthernetIpv4(src.ip, dst.ip, Synth.PROTO_TCP, Synth.Tcp(src.port, dst.port, flags, payloadLen))
    case Query(src, dst, id, name, qtype) =>
      ShortNamesFit(id, name, qtype);
      Synth.EthernetIpv4(src.ip, dst.ip, Synth.PROTO_UDP, Synth.Udp(src.port, dst.port, Synth.DnsQueryPayload(id, name, qtype)))
    case Echo(src, dst, seqNo) =>
      Synth.EthernetIpv4(src, dst, Synth.PROTO_ICMP, Synth.IcmpEcho(seqNo))
  }

  /** The encoded size of a label list: one length byte each. */
  lemma {:induction false} EncodedParts(parts: seq<bytes>)
    requires forall i :: 0 <= i < |parts| ==> |parts[i]| <= 0xFF
    ensures Synth.FitsLengthByte(NonEmpty(parts))
    ensures |Synth.EncodeLabels(NonEmpty(parts))| <= |JoinDots(parts)| + 1
    decreases |parts|
  {
    if parts == [] {
    } else {
      EncodedParts(parts[1..]);
      if parts[1..] == [] {
        assert Synth.EncodeLabels(NonEmpty(parts[1..])) == [];
        assert JoinDots(parts) == parts[0];
      } else {
        JoinCons(parts[0], parts[1..]);
        assert parts == [parts[0]] + parts[1..];
      }
      var rest := NonEmpty(parts[1..]);
      assert NonEmpty(parts) == if parts[0] == [] then rest else [parts[0]] + rest;
    }
  }

  lemma {:induction false} PartsAreShort(text: bytes)
    ensures forall i :: 0 <= i < |SplitDots(text)| ==> |SplitDots(text)[i]| <= |text|
    decreases |text|
  {
    if DOT !in text {
    } else {
      PartsAreShort(text[FirstDot(text) + 1..]);
    }
  }

  lemma ShortNamesFit(id: u16, name: bytes, qtype: u16)
    requires |name| <= 0xFF
    ensures Synth.FitsLengthByte(Synth.QueryLabels(name))
    ensures |Synth.DnsQueryPayload(id, name, qtype)| <= |name| + 18
  {
    PartsAreShort(name);
    EncodedParts(SplitDots(name));
    JoinSplit(name);
  }

  // ---------------------------------------------------------------- constants

  function Ip(a: byte, b: byte, c: byte, d: byte): u32 {
    (a as int * 0x100 + b as int) * 0x1_0000 + (c as int * 0x100 + d as int)
  }

  function Ascii(s: string): (b: bytes)
    ensures |b| == |s|
  {
    seq(|s|, i requires 0 <= i < |s| => s[i] as int % 0x100)
  }

  const START_TS: u64 := 1_700_000_000_000_000
  const MAX_GAP: nat := 2_000
  const INJECT_EVERY: nat := 4
  const CLIENT_COUNT: nat := 50
  const CLIENT_BASE: byte := 10
  const MAX_TCP_PAYLOAD: nat := 1_400
  const EPHEMERAL_BASE: u16 := 49_152
  const SCAN_FIRST_PORT: u16 := 1
  const FLAG_SYN: byte := 0x02
  const FLAG_PSH_ACK: byte := 0x18
  const RESOLVER: Socket := Socket(Ip(10, 0, 0, 1), 53)
  const SCANNER: u32 := Ip(10, 0, 0, 66)
  const SCAN_TARGET: u32 := Ip(10, 0, 0, 5)
  const TUNNEL_CLIENT: Socket := Socket(Ip(10, 0, 0, 77), 53_001)
  const TUNNEL_LABEL_LEN: nat := 48
  const FLOOD_NET: u32 := Ip(172, 0, 0, 0)
  const FLOOD_TARGET: Socket := Socket(Ip(10, 0, 0, 5), 80)
  const SERVERS: seq<Socket> := [
    Socket(Ip(93, 184, 216, 34), 443),
    Socket(Ip(140, 82, 121, 4), 443),
    Socket(Ip(151, 101, 1, 69), 80),
    Socket(Ip(198, 51, 100, 7), 22)
  ]
  const DOMAINS: seq<string> := ["example.com", "github.com", "api.github.com", "crates.io", "nuget.org"]
  const TUNNEL_DOMAIN: string := "t.exfil-example.net"
  const BASE32: string := "abcdefghijklmnopqrstuvwxyz234567"

  // ---------------------------------------------------------------- the generator

  datatype Scenario = Mixed | PortScan | DnsTunnel | Flood

  function Client(c: nat): u32
    requires c < CLIENT_COUNT
  {
    Ip(10, 0, 0, CLIENT_BASE + c)
  }

  /** The socket from which client `c` talks to server `s`. */
  function Session(c: nat, s: nat): Socket
    requires c < CLIENT_COUNT && s < |SERVERS|
  {
    Socket(Client(c), EPHEMERAL_BASE + (c * 4 + s))
  }

  /**
   * Everyday traffic: acknowledged segments between one of 50 clients and one of four servers, queries for one of five
   * domains to the resolver, and echo requests to it.
   */
  ghost predicate IsBackground(i: nat, t: Traffic) {
    match t
    case Segment(src, dst, flags, payloadLen) =>
      && flags == FLAG_PSH_ACK && payloadLen < MAX_TCP_PAYLOAD
      && exists c: nat, s: nat | c < CLIENT_COUNT && s < |SERVERS| ::
           (src, dst) == (Session(c, s), SERVERS[s]) || (src, dst) == (SERVERS[s], Session(c, s))
    case Query(src, dst, id, name, qtype) =>
      && dst == RESOLVER && id == i % 0x1_0000 && qtype == 1 && IsDomain(name)
      && exists c: nat | c < CLIENT_COUNT :: src == Socket(Client(c), EPHEMERAL_BASE + c)
    case Echo(src, dst, seqNo) =>
      && dst == RESOLVER.ip && seqNo == i % 0x1_0000
      && exists c: nat | c < CLIENT_COUNT :: src == Client(c)
  }

  ghost predicate IsDomain(name: bytes) {
    exists d: nat | d < |DOMAINS| :: name == Ascii(DOMAINS[d])
  }

  lemma DomainsAreShort(name: bytes)
    requires IsDomain(name)
    ensures |name| <= 14
  {
  }

  /** A tunnel query's label: 48 base32 characters. */
  ghost predicate IsTunnelLabel(text: bytes) {
    |text| == TUNNEL_LABEL_LEN && forall k :: 0 <= k < TUNNEL_LABEL_LEN ==> text[k] in Ascii(BASE32)
  }

  function TunnelName(text: bytes): (name: bytes)
    ensures |name| == |text| + 20 && name[..|text|] == text
  {
    text + [DOT] + Ascii(TUNNEL_DOMAIN)
  }

  /** The probe sent by the `j`-th injection: ports count up from 1 and start over after 65,535. */
  function ScanPort(j: nat): u16 {
    1 + j % 0xFFFF
  }

  function Probe(j: nat): Traffic {
    Segment(Socket(SCANNER, EPHEMERAL_BASE), Socket(SCAN_TARGET, ScanPort(j)), FLAG_SYN, 0)
  }

  /** What the scenario sends at index `i`. */
  ghost predicate Scripted(scenario: Scenario, i: nat, t: Traffic) {
    match scenario
    case Mixed => IsBackground(i, t)
    case PortScan => if i % INJECT_EVERY == 0 then t == Probe(i / INJECT_EVERY) else IsBackground(i, t)
    case DnsTunnel => if i % INJECT_EVERY == 0 then IsTunnelQuery(i, t) else IsBackground(i, t)
    case Flood => IsFloodSyn(t)
  }

  ghost predicate IsTunnelQuery(i: nat, t: Traffic) {
    && t.Query? && t.src == TUNNEL_CLIENT && t.dst == RESOLVER && t.id == i % 0x1_0000 && t.qtype == 16
    && exists text :: IsTunnelLabel(text) && t.name == TunnelName(text)
  }

  /** A bare SYN to the target from somewhere in the flooding network. */
  ghost predicate IsFloodSyn(t: Traffic) {
    && t.Segment? && t.dst == FLOOD_TARGET && t.flags == FLAG_SYN && t.payloadLen == 0
    && FLOOD_NET <= t.src.ip < FLOOD_NET + 0x100_0000 && EPHEMERAL_BASE <= t.src.port < EPHEMERAL_BASE + 1_024
  }

  // ---------------------------------------------------------------- what each random number decides

  /** A segment of client `c`'s session, in one of the two directions. */
  function SegmentFrom(s: bv64, c: nat): (Traffic, bv64)
    requires c < CLIENT_COUNT
  {
    var s1 := NextState(s);
    var s2 := NextState(s1);
    var s3 := NextState(s2);
    var serverIdx := Draw(s1, |SERVERS|);
    var client, server := Session(c, serverIdx), SERVERS[serverIdx];
    if Draw(s3, 2) == 0 then (Segment(client, server, FLAG_PSH_ACK, Draw(s2, MAX_TCP_PAYLOAD)), s3)
    else (Segment(server, client, FLAG_PSH_ACK, Draw(s2, MAX_TCP_PAYLOAD)), s3)
  }

  /** Seventy in a hundred are segments, twenty are queries, ten are echo requests. */
  function BackgroundFrom(s: bv64, i: nat): (Traffic, bv64) {
    var s1 := NextState(s);
    var s2 := NextState(s1);
    var c, dice := Draw(s1, CLIENT_COUNT), Draw(s2, 100);
    if dice < 70 then SegmentFrom(s2, c)
    else if dice < 90 then
      var s3 := NextState(s2);
      (Query(Socket(Client(c), EPHEMERAL_BASE + c), RESOLVER, i % 0x1_0000, Ascii(DOMAINS[Draw(s3, |DOMAINS|)]), 1), s3)
    else (Echo(Client(c), RESOLVER.ip, i % 0x1_0000), s2)
  }

  function FloodFrom(s: bv64): (Traffic, bv64) {
    var s1 := NextState(s);
    var s2 := NextState(s1);
    (Segment(Socket(FLOOD_NET + Draw(s1, 0x100_0000), EPHEMERAL_BASE + Draw(s2, 1_024)), FLOOD_TARGET, FLAG_SYN, 0), s2)
  }

  /** One random number for each of `n` base32 characters. */
  function TextFrom(s: bv64, n: nat): (r: (bytes, bv64))
    ensures |r.0| == n && forall k :: 0 <= k < n ==> r.0[k] in Ascii(BASE32)
  {
    if n == 0 then ([], s)
    else
      var (text, s1) := TextFrom(s, n - 1);
      var s2 := NextState(s1);
      (text + [Ascii(BASE32)[Draw(s2, |BASE32|)]], s2)
  }

  function TunnelFrom(s: bv64, i: nat): (Traffic, bv64) {
    var (text, s1) := TextFrom(s, TUNNEL_LABEL_LEN);
    (Query(TUNNEL_CLIENT, RESOLVER, i % 0x1_0000, TunnelName(text), 16), s1)
  }

  /** The frame at index `i`. */
  function TrafficFrom(scenario: Scenario, s: bv64, i: nat): (Traffic, bv64) {
    if scenario.Flood? then FloodFrom(s)
    else if scenario.Mixed? || i % INJECT_EVERY != 0 then BackgroundFrom(s, i)
    else if scenario.PortScan? then (Probe(i / INJECT_EVERY), s)
    else TunnelFrom(s, i)
  }

  datatype Walk = Walk(times: seq<nat>, plan: seq<Traffic>, state: bv64) {
    /** The clock after these frames. */
    function Now(): nat {
      if times == [] then START_TS else times[|times| - 1]
    }
  }

  /** One more frame: its gap is drawn before its content. */
  function WalkStep(scenario: Scenario, w: Walk): Walk {
    var s := NextState(w.state);
    var (t, after) := TrafficFrom(scenario, s, |w.plan|);
    Walk(w.times + [w.Now() + 1 + Draw(s, MAX_GAP)], w.plan + [t], after)
  }

  /** The first `n` frames of a scenario and their times. */
  function WalkFrom(scenario: Scenario, s: bv64, n: nat): (w: Walk)
    ensures |w.times| == |w.plan| == n
  {
    if n == 0 then Walk([], [], s) else WalkStep(scenario, WalkFrom(scenario, s, n - 1))
  }

  /** 10.0.0.10 and up for the clients, and the four servers with their ports. */
  lemma Addresses(c: nat)
    requires c < 50
    ensures Client(c) == 0x0A00_000A + c
    ensures SERVERS == [Socket(0x5DB8_D822, 443), Socket(0x8C52_7904, 443), Socket(0x9765_0145, 80), Socket(0xC633_6407, 22)]
    ensures RESOLVER == Socket(0x0A00_0001, 53)
  {
  }

  /** The kind of a background frame, its client, and what else is drawn, by successive states of the random source. */
  lemma BackgroundDraws(s: bv64, i: nat)
    ensures var s1 := NextState(s);
            var s2 := NextState(s1);
            var s3 := NextState(s2);
            var s4 := NextState(s3);
            var c, dice, t := s1 as int % 50, s2 as int % 100, BackgroundFrom(s, i).0;
            && (dice < 70 ==>
                  var n := s3 as int % 4;
                  var client, server := Socket(Client(c), 49_152 + 4 * c + n), SERVERS[n];
                  t == if NextState(s4) as int % 2 == 0 then Segment(client, server, 0x18, s4 as int % 1_400)
                       else Segment(server, client, 0x18, s4 as int % 1_400))
            && (70 <= dice < 90 ==>
                  t == Query(Socket(Client(c), 49_152 + c), RESOLVER, i % 0x1_0000, Ascii(DOMAINS[s3 as int % 5]), 1))
            && (90 <= dice ==> t == Echo(Client(c), RESOLVER.ip, i % 0x1_0000))
  {
    hide NextState, Ip, Ascii;
  }

  /** Probes come from 10.0.0.66, floods from 172.0.0.0/8, both to 10.0.0.5; tunnel queries from 10.0.0.77 to the resolver. */
  lemma {:induction false} AttackDraws(s: bv64, i: nat)
    ensures Probe(i) == Segment(Socket(0x0A00_0042, 49_152), Socket(0x0A00_0005, 1 + i % 65_535), 2, 0)
    ensures var s1 := NextState(s);
            var s2 := NextState(s1);
            FloodFrom(s).0
            == Segment(Socket(0xAC00_0000 + s1 as int % 0x100_0000, 49_152 + s2 as int % 1_024), Socket(0x0A00_0005, 80), 2, 0)
    ensures TunnelFrom(s, i).0
            == Query(Socket(0x0A00_004D, 53_001), Socket(0x0A00_0001, 53), i % 0x1_0000, TunnelName(TextFrom(s, 48).0), 16)
  {
    hide NextState, TextFrom, Ascii;
  }

  /** No two clients talk to a server from the same socket, nor one to two servers. */
  lemma SessionsDiffer(c: nat, n: nat, c': nat, n': nat)
    requires c < CLIENT_COUNT && c' < CLIENT_COUNT && n < |SERVERS| && n' < |SERVERS|
    ensures Session(c, n) == Session(c', n') <==> c == c' && n == n'
  {
  }

  lemma SegmentIsBackground(s: bv64, c: nat, i: nat)
    requires c < CLIENT_COUNT
    ensures IsBackground(i, SegmentFrom(s, c).0) && Encodable(SegmentFrom(s, c).0)
  {
    hide NextState, Client, Session;
    var serverIdx := Draw(NextState(s), |SERVERS|);
    assert Session(c, serverIdx) == Session(c, serverIdx);
  }

  lemma BackgroundIsBackground(s: bv64, i: nat)
    ensures IsBackground(i, BackgroundFrom(s, i).0) && Encodable(BackgroundFrom(s, i).0)
  {
    hide NextState, Ip, Ascii, SegmentFrom;
    var s2 := NextState(NextState(s));
    var c, d := Draw(NextState(s), CLIENT_COUNT), Draw(NextState(s2), |DOMAINS|);
    if Draw(s2, 100) < 70 {
      SegmentIsBackground(s2, c, i);
    } else {
      assert IsDomain(Ascii(DOMAINS[d]));
      DomainsAreShort(Ascii(DOMAINS[d]));
    }
  }

  lemma {:induction false} TunnelIsTunnel(s: bv64, i: nat)
    ensures IsTunnelQuery(i, TunnelFrom(s, i).0) && Encodable(TunnelFrom(s, i).0)
  {
    hide NextState, TextFrom, Ip;
    assert IsTunnelLabel(TextFrom(s, TUNNEL_LABEL_LEN).0);
  }

  /** Whatever the random numbers, each frame is of the kind that the scenario sends at its index. */
  lemma TrafficIsScripted(scenario: Scenario, s: bv64, i: nat)
    ensures Scripted(scenario, i, TrafficFrom(scenario, s, i).0) && Encodable(TrafficFrom(scenario, s, i).0)
  {
    hide NextState, BackgroundFrom, TunnelFrom, IsBackground, IsTunnelQuery, Ip, ScanPort;
    BackgroundIsBackground(s, i);
    TunnelIsTunnel(s, i);
  }

  ghost predicate FitsScript(scenario: Scenario, w: Walk, i: nat)
    requires i < |w.plan| == |w.times|
  {
    var previous: nat := if i == 0 then 1_700_000_000_000_000 else w.times[i - 1];
    Scripted(scenario, i, w.plan[i]) && Encodable(w.plan[i]) && previous < w.times[i] <= previous + 2_000
  }

  lemma StepFitsScript(scenario: Scenario, w: Walk, i: nat)
    requires i <= |w.plan| == |w.times| && (i < |w.plan| ==> FitsScript(scenario, w, i))
    ensures |WalkStep(scenario, w).plan| == |WalkStep(scenario, w).times| == |w.plan| + 1
    ensures FitsScript(scenario, WalkStep(scenario, w), i)
  {
    hide NextState, TrafficFrom, Scripted, Encodable;
    TrafficIsScripted(scenario, NextState(w.state), |w.plan|);
  }

  /** For every seed and length, all frames are as scripted and 1 to 2,000 microseconds apart. */
  lemma {:induction false} WalkIsScripted(scenario: Scenario, s: bv64, n: nat)
    ensures forall i :: 0 <= i < n ==> FitsScript(scenario, WalkFrom(scenario, s, n), i)
  {
    hide WalkStep, FitsScript;
    if n == 0 {
    } else {
      WalkIsScripted(scenario, s, n - 1);
      forall i | 0 <= i < n
        ensures FitsScript(scenario, WalkFrom(scenario, s, n), i)
      {
        StepFitsScript(scenario, WalkFrom(scenario, s, n - 1), i);
      }
    }
  }

  // ---------------------------------------------------------------- frames

  type Timed = (u64, bytes)

  /** Frames carry their plan, and each comes 1 to 2,000 microseconds after the one before. */
  ghost predicate Follows(frames: seq<Timed>, plan: seq<Traffic>) {
    && |frames| == |plan|
    && (forall i :: 0 <= i < |plan| ==> Encodable(plan[i]) && frames[i].1 == Encode(plan[i]))
    && (forall i :: 0 <= i < |frames| ==> Spaced(frames, i))
  }

  ghost predicate Spaced(frames: seq<Timed>, i: nat)
    requires i < |frames|
  {
    var previous: nat := if i == 0 then 1_700_000_000_000_000 else frames[i - 1].0;
    previous < frames[i].0 <= previous + 2_000
  }

  predicate FitsClock(packets: nat) {
    START_TS + packets * MAX_GAP <= U64_MAX
  }

  /** The walk's frames so far: its times, and its traffic encoded. */
  ghost predicate Spells(frames: seq<Timed>, w: Walk) {
    && |frames| == |w.plan| == |w.times|
    && forall i :: 0 <= i < |frames| ==> Encodable(w.plan[i]) && frames[i] == (w.times[i], Encode(w.plan[i]))
  }

  /** The frames of a walk, for every scenario, length and seed. */
  method Generate(scenario: Scenario, packets: nat, seed: bv64) returns (frames: seq<Timed>)
    requires FitsClock(packets)
    ensures Spells(frames, WalkFrom(scenario, Seeded(seed), packets))
  {
    hide Encode, Encodable, NextState, Spells, ScanPort, ProbesBefore, TrafficFrom, WalkStep;
    var rng := new Rng(seed);
    ghost var s := rng.state;
    var ts: u64 := START_TS;
    var scanPort: u16 := SCAN_FIRST_PORT;
    frames := [];
    NothingSpelled(s);
    ScanStarts();
    for i: nat := 0 to packets
      invariant fresh(rng) && Spells(frames, WalkFrom(scenario, s, i)) && rng.state == WalkFrom(scenario, s, i).state
      invariant ts == WalkFrom(scenario, s, i).Now() <= START_TS + i * MAX_GAP
      invariant scenario == PortScan ==> scanPort == ScanPort(ProbesBefore(i))
    {
      ghost var walk := WalkFrom(scenario, s, i);
      var gap := rng.Below(MAX_GAP);
      ClockFits(i, packets);
      var data, t := NextFrame(scenario, rng, i, scanPort);
      NextPort(i);
      if scenario == PortScan && i % INJECT_EVERY == 0 {
        scanPort := if scanPort == 0xFFFF then SCAN_FIRST_PORT else scanPort + 1;
      }
      ts := ts + 1 + gap;
      StepSpells(scenario, frames, walk, ts, data);
      frames := frames + [(ts, data)];
    }
  }

  lemma NothingSpelled(s: bv64)
    ensures Spells([], Walk([], [], s))
  {
  }

  lemma StepSpells(scenario: Scenario, frames: seq<Timed>, w: Walk, ts: u64, data: bytes)
    requires Spells(frames, w) && ts == w.Now() + 1 + Draw(NextState(w.state), MAX_GAP)
    requires var t := TrafficFrom(scenario, NextState(w.state), |w.plan|).0;
             Encodable(t) && data == Encode(t)
    ensures var after := WalkStep(scenario, w);
            && Spells(frames + [(ts, data)], after) && after.Now() == ts && |after.plan| == |w.plan| + 1
            && after.state == TrafficFrom(scenario, NextState(w.state), |w.plan|).1
  {
    hide Encode, Encodable, NextState, TrafficFrom;
  }

  /** What is known of a run's frames when its random numbers are not looked at. */
  lemma {:induction false} WalkFollows(scenario: Scenario, s: bv64, n: nat, frames: seq<Timed>)
    requires Spells(frames, WalkFrom(scenario, s, n))
    ensures Follows(frames, WalkFrom(scenario, s, n).plan)
    ensures forall i :: 0 <= i < n ==> Scripted(scenario, i, WalkFrom(scenario, s, n).plan[i])
  {
    hide Encode, Encodable, NextState, WalkFrom, Scripted;
    WalkIsScripted(scenario, s, n);
    var w := WalkFrom(scenario, s, n);
    forall i | 0 <= i < |frames|
      ensures Spaced(frames, i) && Scripted(scenario, i, w.plan[i])
    {
      assert FitsScript(scenario, w, i);
    }
  }

  method NextFrame(scenario: Scenario, rng: Rng, i: nat, scanPort: u16) returns (data: bytes, ghost t: Traffic)
    requires scenario == PortScan ==> scanPort == ScanPort(ProbesBefore(i))
    modifies rng
    ensures (t, rng.state) == TrafficFrom(scenario, old(rng.state), i)
    ensures Encodable(t) && data == Encode(t)
  {
    hide NextState, BackgroundFrom, TunnelFrom, FloodFrom, Encode, Encodable, ScanPort, ProbesBefore;
    NextPort(i);
    var inject := scenario != Mixed && i % INJECT_EVERY == 0;
    if scenario == Flood {
      data, t := FloodSyn(rng);
    } else if !inject {
      data, t := BackgroundPacket(rng, i);
    } else if scenario == PortScan {
      data, t := ScanProbe(scanPort, i / INJECT_EVERY);
    } else {
      data, t := TunnelQuery(rng, i);
    }
  }

  /** Probes sent before index `i`. */
  function ProbesBefore(i: nat): nat {
    (i + INJECT_EVERY - 1) / INJECT_EVERY
  }

  lemma ScanStarts()
    ensures ScanPort(ProbesBefore(0)) == SCAN_FIRST_PORT
  {
  }

  lemma ClockFits(i: nat, packets: nat)
    requires FitsClock(packets) && i < packets
    ensures START_TS + (i + 1) * MAX_GAP <= U64_MAX
  {
    assert (i + 1) * MAX_GAP <= packets * MAX_GAP;
  }

  lemma NextPort(i: nat)
    ensures ProbesBefore(i + 1) == ProbesBefore(i) + if i % INJECT_EVERY == 0 then 1 else 0
    ensures i % INJECT_EVERY == 0 ==> ProbesBefore(i) == i / INJECT_EVERY
    ensures ScanPort(ProbesBefore(i) + 1)
            == if ScanPort(ProbesBefore(i)) == 0xFFFF then SCAN_FIRST_PORT else ScanPort(ProbesBefore(i)) + 1
  {
    hide ScanPort;
    var q, r := i / 4, i % 4;
    assert i == 4 * q + r;
    if r == 0 {
      assert (i + 3) / 4 == q && (i + 4) / 4 == q + 1;
    } else {
      assert (i + 3) / 4 == q + 1 && (i + 4) / 4 == q + 1;
    }
    PortAfter(ProbesBefore(i));
  }

  lemma PortAfter(n: nat)
    ensures ScanPort(n + 1) == if ScanPort(n) == 0xFFFF then SCAN_FIRST_PORT else ScanPort(n) + 1
  {
    var q, r := n / 0xFFFF, n % 0xFFFF;
    assert n + 1 == 0xFFFF * q + (r + 1);
  }

  // ---------------------------------------------------------------- one frame

  method SendSegment(src: Socket, dst: Socket, flags: byte, payloadLen: nat) returns (data: bytes, ghost t: Traffic)
    requires payloadLen <= MAX_TCP_PAYLOAD
    ensures t == Segment(src, dst, flags, payloadLen) && data == Encode(t)
  {
    t := Segment(src, dst, flags, payloadLen);
    data := Synth.TcpSegment(src.ip, src.port, dst.ip, dst.port, flags, payloadLen);
  }

  method SendQuery(src: Socket, id: u16, name: bytes, qtype: u16) returns (data: bytes, ghost t: Traffic)
    requires |name| <= 0xFF
    ensures t == Query(src, RESOLVER, id, name, qtype) && data == Encode(t)
  {
    t := Query(src, RESOLVER, id, name, qtype);
    ShortNamesFit(id, name, qtype);
    data := Synth.DnsQuery(src.ip, src.port, RESOLVER.ip, RESOLVER.port, id, name, qtype);
  }

  method BackgroundPacket(rng: Rng, i: nat) returns (data: bytes, ghost t: Traffic)
    modifies rng
    ensures (t, rng.state) == BackgroundFrom(old(rng.state), i)
    ensures Encodable(t) && data == Encode(t)
  {
    hide NextState, Encode, Ip, SegmentFrom;
    var clientIdx := rng.Below(CLIENT_COUNT);
    var dice := rng.Below(100);
    if dice < 70 {
      data, t := BackgroundSegment(rng, clientIdx);
    } else if dice < 90 {
      var domainIdx := rng.Below(|DOMAINS|);
      assert IsDomain(Ascii(DOMAINS[domainIdx]));
      DomainsAreShort(Ascii(DOMAINS[domainIdx]));
      data, t := SendQuery(Socket(Client(clientIdx), EPHEMERAL_BASE + clientIdx), i % 0x1_0000, Ascii(DOMAINS[domainIdx]), 1);
    } else {
      data, t := SendEcho(Client(clientIdx), RESOLVER.ip, i % 0x1_0000);
    }
  }

  method BackgroundSegment(rng: Rng, clientIdx: nat) returns (data: bytes, ghost t: Traffic)
    requires clientIdx < CLIENT_COUNT
    modifies rng
    ensures (t, rng.state) == SegmentFrom(old(rng.state), clientIdx)
    ensures Encodable(t) && data == Encode(t)
  {
    hide NextState, Encode, Ip;
    var serverIdx := rng.Below(|SERVERS|);
    var client, server := Session(clientIdx, serverIdx), SERVERS[serverIdx];
    var payload := rng.Below(MAX_TCP_PAYLOAD);
    var coin := rng.Below(2);
    if coin == 0 {
      data, t := SendSegment(client, server, FLAG_PSH_ACK, payload);
    } else {
      data, t := SendSegment(server, client, FLAG_PSH_ACK, payload);
    }
  }

  method SendEcho(src: u32, dst: u32, seqNo: u16) returns (data: bytes, ghost t: Traffic)
    ensures t == Echo(src, dst, seqNo) && data == Encode(t)
  {
    t := Echo(src, dst, seqNo);
    data := Synth.IcmpEchoFrame(src, dst, seqNo);
  }

  method ScanProbe(port: u16, ghost j: nat) returns (data: bytes, ghost t: Traffic)
    requires port == ScanPort(j)
    ensures t == Probe(j) && Encodable(t) && data == Encode(t)
  {
    data, t := SendSegment(Socket(SCANNER, EPHEMERAL_BASE), Socket(SCAN_TARGET, port), FLAG_SYN, 0);
  }

  method FloodSyn(rng: Rng) returns (data: bytes, ghost t: Traffic)
    modifies rng
    ensures (t, rng.state) == FloodFrom(old(rng.state))
    ensures Encodable(t) && data == Encode(t)
  {
    hide NextState, Encode;
    var x := rng.NextU64();
    var srcIp := FLOOD_NET + x as int % 0x100_0000;
    var offset := rng.Below(1_024);
    data, t := SendSegment(Socket(srcIp, EPHEMERAL_BASE + offset), FLOOD_TARGET, FLAG_SYN, 0);
  }

  method TunnelQuery(rng: Rng, i: nat) returns (data: bytes, ghost t: Traffic)
    modifies rng
    ensures (t, rng.state) == TunnelFrom(old(rng.state), i)
    ensures Encodable(t) && data == Encode(t)
  {
    hide NextState, Encode;
    var text: bytes := [];
    ghost var s := rng.state;
    for k: nat := 0 to TUNNEL_LABEL_LEN
      invariant (text, rng.state) == TextFrom(s, k)
    {
      var at := rng.Below(|BASE32|);
      text := text + [Ascii(BASE32)[at]];
    }
    data, t := SendQuery(TUNNEL_CLIENT, i % 0x1_0000, TunnelName(text), 16);
  }
}
