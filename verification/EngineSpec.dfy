/** The packet engine (`engine.rs`) as a function on values, and what every run of it keeps. */
module EngineSpec {
  import opened Ints
  import opened Wrappers
  import opened PacketTypes
  import opened Layers
  import opened Parser
  import opened FlowSpec
  import opened RuleSpec

  const EXPIRY_INTERVAL: nat := 1_000_000

  datatype Config = Config(link: LinkType, limits: Limits)

  datatype Counters = Counters(
    packets: nat,
    bytes: nat,
    ipv4: nat,
    ipv6: nat,
    tcp: nat,
    udp: nat,
    icmp: nat,
    otherL4: nat,
    nonIp: nat,
    fragments: nat,
    dns: nat,
    dnsErrors: nat,
    parseErrors: nat
  )

  const NO_COUNTS: Counters := Counters(0, 0, 0, 0, 0, 0, 0, 0, 0, 0, 0, 0, 0)

  datatype EngineState = EngineState(
    counters: Counters,
    flows: FlowState,
    lastTs: u64,
    nextExpiry: nat,
    rules: RuleStates,
    alerts: seq<Alert>
  )

  function Initial(rules: RuleStates): EngineState {
    EngineState(NO_COUNTS, FlowState([], 0, 0), 0, 0, rules, [])
  }

  /** Every rule with no source seen yet. */
  function Fresh(specs: seq<Rule>): RuleStates {
    seq(|specs|, i requires 0 <= i < |specs| => (specs[i], []))
  }

  // ---------------------------------------------------------------- one frame

  function CountTransport(c: Counters, t: Transport): Counters {
    match t
    case Tcp(_) => c.(tcp := c.tcp + 1)
    case Udp(_) => c.(udp := c.udp + 1)
    case Icmp(_) => c.(icmp := c.icmp + 1)
    case Other(_) => c.(otherL4 := c.otherL4 + 1)
    case NoTransport => c
    case LaterFragment => c
  }

  function CountApp(c: Counters, app: App): Counters {
    match app
    case Dns(_) => c.(dns := c.dns + 1)
    case DnsError(_) => c.(dnsErrors := c.dnsErrors + 1)
    case NoApp => c
  }

  function Count(c: Counters, p: Packet): Counters {
    match p.ip
    case None => c.(nonIp := c.nonIp + 1)
    case Some(ip) =>
      var family := if ip.src.V4? then c.(ipv4 := c.ipv4 + 1) else c.(ipv6 := c.ipv6 + 1);
      var whole := if ip.IsFragment() then family.(fragments := family.fragments + 1) else family;
      CountApp(CountTransport(whole, p.transport), p.app)
  }

  /** The flow update of a packet; later fragments carry no ports and touch no flow. */
  function UpdateOf(p: Packet): Option<FlowUpdate> {
    if p.ip.None? || p.transport == LaterFragment then None
    else
      var ip, (sport, dport) := p.ip.value, p.transport.Ports();
      var (key, direction) := Canonical(Endpoint(ip.src, sport), Endpoint(ip.dst, dport), ip.proto);
      Some(FlowUpdate(key, direction, p.ts, p.wireLen, if p.transport.Tcp? then p.transport.tcp.flags else 0))
  }

  /** The clock after a frame: the latest time seen. */
  function Clock(st: EngineState, frame: Frame): u64 {
    Max(st.lastTs, frame.ts)
  }

  /** Advances the clock and, at most once per second of packet time, sweeps the flow table. */
  function AdvanceClock(cfg: Config, st: EngineState, frame: Frame): EngineState {
    var now := Clock(st, frame);
    if now >= st.nextExpiry then
      st.(lastTs := now, flows := Expire(cfg.limits, st.flows, now), nextExpiry := now + EXPIRY_INTERVAL)
    else st.(lastTs := now)
  }

  function TrackFlow(cfg: Config, flows: FlowState, p: Packet): FlowState
    requires cfg.limits.capacity > 0
  {
    var u := UpdateOf(p);
    if u.None? then flows else Update(cfg.limits, flows, u.value).0
  }

  function Accept(cfg: Config, st: EngineState, p: Packet): EngineState
    requires cfg.limits.capacity > 0
  {
    var (rules, alerts) := EvaluateAll(st.rules, p);
    st.(counters := Count(st.counters, p), flows := TrackFlow(cfg, st.flows, p), rules := rules, alerts := st.alerts + alerts)
  }

  function Process(cfg: Config, st: EngineState, frame: Frame): (EngineState, Decoded)
    requires cfg.limits.capacity > 0
  {
    var c := st.counters;
    var counted := AdvanceClock(cfg, st.(counters := c.(packets := c.packets + 1, bytes := c.bytes + frame.wireLen)), frame);
    var decoded := Decode(cfg.link, frame);
    match decoded
    case Err(_) => (counted.(counters := counted.counters.(parseErrors := counted.counters.parseErrors + 1)), decoded)
    case Ok(p) => (Accept(cfg, counted, p), decoded)
  }

  function RunEngine(cfg: Config, rules: RuleStates, frames: seq<Frame>): EngineState
    requires cfg.limits.capacity > 0
  {
    if frames == [] then Initial(rules)
    else Process(cfg, RunEngine(cfg, rules, frames[..|frames| - 1]), frames[|frames| - 1]).0
  }

  // ---------------------------------------------------------------- counters

  /** What decoding guarantees about a packet's shape. */
  ghost predicate IsShaped(p: Packet) {
    && (p.ip.None? <==> p.transport == NoTransport)
    && (p.app != NoApp ==> p.transport.Udp?)
    && (p.transport == LaterFragment ==> p.ip.value.IsFragment())
  }

  lemma DecodedIsShaped(link: LinkType, frame: Frame)
    requires Decode(link, frame).Ok?
    ensures IsShaped(Decode(link, frame).value) && Decode(link, frame).value.ts == frame.ts
  {
    hide DecodeEthernet, DecodeIpv4, DecodeIpv6, DecodeTcp, DecodeUdp, DecodeIcmp, DecodeApp;
  }

  /** Frames of a run that decode to later fragments. */
  function LaterFragments(cfg: Config, frames: seq<Frame>): nat {
    if frames == [] then 0
    else
      var decoded := Decode(cfg.link, frames[|frames| - 1]);
      LaterFragments(cfg, frames[..|frames| - 1]) + if decoded.Ok? && decoded.value.transport == LaterFragment then 1 else 0
  }

  ghost predicate Partitions(c: Counters, laterFragments: nat) {
    && c.packets == c.parseErrors + c.nonIp + c.ipv4 + c.ipv6
    && c.ipv4 + c.ipv6 == c.tcp + c.udp + c.icmp + c.otherL4 + laterFragments
    && laterFragments <= c.fragments <= c.ipv4 + c.ipv6
    && c.dns + c.dnsErrors <= c.udp
  }

  lemma CountTransportFields(c: Counters, t: Transport)
    ensures var d := CountTransport(c, t);
            && d == c.(tcp := d.tcp, udp := d.udp, icmp := d.icmp, otherL4 := d.otherL4)
            && d.udp == c.udp + (if t.Udp? then 1 else 0)
            && d.tcp + d.udp + d.icmp + d.otherL4
               == c.tcp + c.udp + c.icmp + c.otherL4 + if t.NoTransport? || t.LaterFragment? then 0 else 1
  {
  }

  lemma CountAppFields(c: Counters, app: App)
    ensures var d := CountApp(c, app);
            && d == c.(dns := d.dns, dnsErrors := d.dnsErrors)
            && d.dns + d.dnsErrors == c.dns + c.dnsErrors + if app.NoApp? then 0 else 1
  {
  }

  lemma CountPartitions(c: Counters, bytes: nat, laterFragments: nat, p: Packet)
    requires Partitions(c, laterFragments) && IsShaped(p)
    ensures Partitions(Count(c.(packets := c.packets + 1, bytes := bytes), p),
                       laterFragments + if p.transport == LaterFragment then 1 else 0)
    ensures Count(c.(packets := c.packets + 1, bytes := bytes), p).packets == c.packets + 1
  {
    hide CountTransport, CountApp;
    if p.ip.Some? {
      var ip := p.ip.value;
      var d := c.(packets := c.packets + 1, bytes := bytes);
      var family := if ip.src.V4? then d.(ipv4 := d.ipv4 + 1) else d.(ipv6 := d.ipv6 + 1);
      var whole := if ip.IsFragment() then family.(fragments := family.fragments + 1) else family;
      CountTransportFields(whole, p.transport);
      CountAppFields(CountTransport(whole, p.transport), p.app);
    }
  }

  /** In every reachable state each frame is counted exactly once at every level. */
  lemma {:induction false} CountersPartition(cfg: Config, rules: RuleStates, frames: seq<Frame>)
    requires cfg.limits.capacity > 0
    ensures Partitions(RunEngine(cfg, rules, frames).counters, LaterFragments(cfg, frames))
    ensures RunEngine(cfg, rules, frames).counters.packets == |frames|
  {
    hide Decode, EvaluateAll, Expire, Partitions, TrackFlow, Count;
    if frames != [] {
      var before, frame := frames[..|frames| - 1], frames[|frames| - 1];
      CountersPartition(cfg, rules, before);
      var c := RunEngine(cfg, rules, before).counters;
      if Decode(cfg.link, frame).Ok? {
        DecodedIsShaped(cfg.link, frame);
        CountPartitions(c, c.bytes + frame.wireLen, LaterFragments(cfg, before), Decode(cfg.link, frame).value);
      } else {
        ErrorPartitions(c, c.bytes + frame.wireLen, LaterFragments(cfg, before));
      }
    } else {
      NothingPartitions();
    }
  }

  lemma NothingPartitions()
    ensures Partitions(NO_COUNTS, 0)
  {
  }

  lemma ErrorPartitions(c: Counters, bytes: nat, laterFragments: nat)
    requires Partitions(c, laterFragments)
    ensures Partitions(c.(packets := c.packets + 1, bytes := bytes, parseErrors := c.parseErrors + 1), laterFragments)
  {
  }

  // ---------------------------------------------------------------- what each counter counts

  /** How many frames of a run decode to something with a given property. */
  function Tally(cfg: Config, frames: seq<Frame>, has: Decoded -> bool): nat {
    if frames == [] then 0
    else Tally(cfg, frames[..|frames| - 1], has) + if has(Decode(cfg.link, frames[|frames| - 1])) then 1 else 0
  }

  function WireBytes(frames: seq<Frame>): nat {
    if frames == [] then 0 else WireBytes(frames[..|frames| - 1]) + frames[|frames| - 1].wireLen
  }

  predicate IsV4(d: Decoded) { d.Ok? && d.value.ip.Some? && d.value.ip.value.src.V4? }

  predicate IsV6(d: Decoded) { d.Ok? && d.value.ip.Some? && !d.value.ip.value.src.V4? }

  predicate IsTcp(d: Decoded) { d.Ok? && d.value.transport.Tcp? }

  predicate IsUdp(d: Decoded) { d.Ok? && d.value.transport.Udp? }

  predicate IsIcmp(d: Decoded) { d.Ok? && d.value.transport.Icmp? }

  predicate IsOtherL4(d: Decoded) { d.Ok? && d.value.transport.Other? }

  predicate IsNonIp(d: Decoded) { d.Ok? && d.value.ip.None? }

  predicate IsFragmented(d: Decoded) { d.Ok? && d.value.ip.Some? && d.value.ip.value.IsFragment() }

  predicate IsDns(d: Decoded) { d.Ok? && d.value.app.Dns? }

  predicate IsBadDns(d: Decoded) { d.Ok? && d.value.app.DnsError? }

  predicate IsError(d: Decoded) { d.Err? }

  function Tallies(cfg: Config, frames: seq<Frame>): Counters {
    Counters(
      packets := |frames|,
      bytes := WireBytes(frames),
      ipv4 := Tally(cfg, frames, IsV4),
      ipv6 := Tally(cfg, frames, IsV6),
      tcp := Tally(cfg, frames, IsTcp),
      udp := Tally(cfg, frames, IsUdp),
      icmp := Tally(cfg, frames, IsIcmp),
      otherL4 := Tally(cfg, frames, IsOtherL4),
      nonIp := Tally(cfg, frames, IsNonIp),
      fragments := Tally(cfg, frames, IsFragmented),
      dns := Tally(cfg, frames, IsDns),
      dnsErrors := Tally(cfg, frames, IsBadDns),
      parseErrors := Tally(cfg, frames, IsError)
    )
  }

  /** The counters of one more frame, field by field. */
  function Bump(c: Counters, wireLen: nat, d: Decoded): Counters {
    Counters(
      packets := c.packets + 1,
      bytes := c.bytes + wireLen,
      ipv4 := c.ipv4 + if IsV4(d) then 1 else 0,
      ipv6 := c.ipv6 + if IsV6(d) then 1 else 0,
      tcp := c.tcp + if IsTcp(d) then 1 else 0,
      udp := c.udp + if IsUdp(d) then 1 else 0,
      icmp := c.icmp + if IsIcmp(d) then 1 else 0,
      otherL4 := c.otherL4 + if IsOtherL4(d) then 1 else 0,
      nonIp := c.nonIp + if IsNonIp(d) then 1 else 0,
      fragments := c.fragments + if IsFragmented(d) then 1 else 0,
      dns := c.dns + if IsDns(d) then 1 else 0,
      dnsErrors := c.dnsErrors + if IsBadDns(d) then 1 else 0,
      parseErrors := c.parseErrors + if IsError(d) then 1 else 0
    )
  }

  lemma {:induction false} TalliesSnoc(cfg: Config, before: seq<Frame>, frame: Frame)
    ensures Tallies(cfg, before + [frame]) == Bump(Tallies(cfg, before), frame.wireLen, Decode(cfg.link, frame))
  {
    hide Decode;
    assert (before + [frame])[..|before|] == before;
  }

  lemma CountIsBump(c: Counters, wireLen: nat, p: Packet)
    requires IsShaped(p)
    ensures Count(c.(packets := c.packets + 1, bytes := c.bytes + wireLen), p) == Bump(c, wireLen, Ok(p))
  {
  }

  lemma ProcessBumps(cfg: Config, st: EngineState, frame: Frame)
    requires cfg.limits.capacity > 0
    ensures Process(cfg, st, frame).0.counters == Bump(st.counters, frame.wireLen, Decode(cfg.link, frame))
  {
    hide Decode, EvaluateAll, Expire, TrackFlow, Count;
    if Decode(cfg.link, frame).Ok? {
      DecodedIsShaped(cfg.link, frame);
      CountIsBump(st.counters, frame.wireLen, Decode(cfg.link, frame).value);
    }
  }

  /** Every counter of every reachable state is exactly the number of frames that decode to what it is named for. */
  lemma {:induction false} CountersMean(cfg: Config, rules: RuleStates, frames: seq<Frame>)
    requires cfg.limits.capacity > 0
    ensures RunEngine(cfg, rules, frames).counters == Tallies(cfg, frames)
  {
    hide Decode, Process, Tallies, Bump;
    if frames == [] {
      NoTallies(cfg);
    } else {
      var before, frame := frames[..|frames| - 1], frames[|frames| - 1];
      CountersMean(cfg, rules, before);
      ProcessBumps(cfg, RunEngine(cfg, rules, before), frame);
      TalliesSnoc(cfg, before, frame);
      assert frames == before + [frame];
    }
  }

  lemma {:induction false} NoTallies(cfg: Config)
    ensures Tallies(cfg, []) == NO_COUNTS
  {
  }

  // ---------------------------------------------------------------- flows of a run

  /** What a frame does to the flow table: perhaps a sweep, then perhaps an update. */
  function FlowOps(cfg: Config, st: EngineState, frame: Frame): seq<FlowOp> {
    var decoded := Decode(cfg.link, frame);
    var u := if decoded.Ok? then UpdateOf(decoded.value) else None;
    (if Clock(st, frame) >= st.nextExpiry then [Sweep(Clock(st, frame))] else [])
    + (if u.Some? then [Touch(u.value)] else [])
  }

  function RunOps(cfg: Config, rules: RuleStates, frames: seq<Frame>): seq<FlowOp>
    requires cfg.limits.capacity > 0
  {
    if frames == [] then []
    else
      var before := frames[..|frames| - 1];
      RunOps(cfg, rules, before) + FlowOps(cfg, RunEngine(cfg, rules, before), frames[|frames| - 1])
  }

  function Touches(ops: seq<FlowOp>): nat {
    if ops == [] then 0 else Touches(ops[..|ops| - 1]) + if ops[|ops| - 1].Touch? then 1 else 0
  }

  lemma {:induction false} RunsJoin(limits: Limits, ops: seq<FlowOp>, op: FlowOp)
    requires limits.capacity > 0
    ensures RunTable(limits, ops + [op]).state == Apply(limits, RunTable(limits, ops).state, op)
    ensures Touches(ops + [op]) == Touches(ops) + if op.Touch? then 1 else 0
  {
    assert (ops + [op])[..|ops|] == ops;
  }

  lemma {:induction false} FrameOps(cfg: Config, st: EngineState, frame: Frame, ops: seq<FlowOp>)
    requires cfg.limits.capacity > 0 && RunTable(cfg.limits, ops).state == st.flows
    ensures RunTable(cfg.limits, ops + FlowOps(cfg, st, frame)).state == Process(cfg, st, frame).0.flows
    ensures Touches(ops + FlowOps(cfg, st, frame))
            == Touches(ops) + if Decode(cfg.link, frame).Ok? && UpdateOf(Decode(cfg.link, frame).value).Some? then 1 else 0
  {
    hide Decode, EvaluateAll, Expire, Update, UpdateOf, RunTable, Touches;
    var decoded := Decode(cfg.link, frame);
    var u := if decoded.Ok? then UpdateOf(decoded.value) else None;
    var swept := ops;
    if Clock(st, frame) >= st.nextExpiry {
      swept := ops + [Sweep(Clock(st, frame))];
      RunsJoin(cfg.limits, ops, Sweep(Clock(st, frame)));
    }
    assert ops + FlowOps(cfg, st, frame) == if u.Some? then swept + [Touch(u.value)] else swept;
    if u.Some? {
      RunsJoin(cfg.limits, swept, Touch(u.value));
    }
  }

  /** The engine's flow table is a run of the flow table, with one update per counted transport. */
  lemma {:induction false} EngineDrivesFlows(cfg: Config, rules: RuleStates, frames: seq<Frame>)
    requires cfg.limits.capacity > 0
    ensures var st := RunEngine(cfg, rules, frames);
            && st.flows == RunTable(cfg.limits, RunOps(cfg, rules, frames)).state
            && Touches(RunOps(cfg, rules, frames)) == st.counters.tcp + st.counters.udp + st.counters.icmp + st.counters.otherL4
  {
    hide Decode, Process, FlowOps, RunTable, Touches;
    if frames == [] {
      NoOps(cfg.limits);
    } else {
      var before, frame := frames[..|frames| - 1], frames[|frames| - 1];
      EngineDrivesFlows(cfg, rules, before);
      FrameOps(cfg, RunEngine(cfg, rules, before), frame, RunOps(cfg, rules, before));
      CountsTouches(cfg, RunEngine(cfg, rules, before), frame);
    }
  }

  lemma {:induction false} NoOps(limits: Limits)
    requires limits.capacity > 0
    ensures RunTable(limits, []).state == FlowState([], 0, 0) && Touches([]) == 0
  {
  }

  ghost function Transports(c: Counters): nat {
    c.tcp + c.udp + c.icmp + c.otherL4
  }

  lemma CountsTouches(cfg: Config, st: EngineState, frame: Frame)
    requires cfg.limits.capacity > 0
    ensures Transports(Process(cfg, st, frame).0.counters)
            == Transports(st.counters) + if Decode(cfg.link, frame).Ok? && UpdateOf(Decode(cfg.link, frame).value).Some? then 1 else 0
  {
    hide Decode, EvaluateAll, Expire, TrackFlow, CountTransport, CountApp, Canonical;
    if Decode(cfg.link, frame).Ok? {
      DecodedIsShaped(cfg.link, frame);
      CountTransports(st.counters.(packets := st.counters.packets + 1, bytes := st.counters.bytes + frame.wireLen),
                      Decode(cfg.link, frame).value);
    }
  }

  lemma CountTransports(c: Counters, p: Packet)
    requires IsShaped(p)
    ensures Transports(Count(c, p)) == Transports(c) + if UpdateOf(p).Some? then 1 else 0
  {
    hide CountTransport, CountApp, Canonical;
    if p.ip.Some? {
      var ip := p.ip.value;
      var family := if ip.src.V4? then c.(ipv4 := c.ipv4 + 1) else c.(ipv6 := c.ipv6 + 1);
      var whole := if ip.IsFragment() then family.(fragments := family.fragments + 1) else family;
      CountTransportFields(whole, p.transport);
      CountAppFields(CountTransport(whole, p.transport), p.app);
    }
  }

  lemma {:induction false} TouchesAreUpdates(ops: seq<FlowOp>)
    ensures SumUpdates(Packets(AtoB), ops) + SumUpdates(Packets(BtoA), ops) == Touches(ops)
  {
    if ops == [] {
    } else {
      TouchesAreUpdates(ops[..|ops| - 1]);
    }
  }

  /**
   * No packet is lost between parser and flow table: the packets of all live and all removed flows, both directions
   * together, are the TCP, UDP, ICMP and other packets counted.
   */
  lemma {:induction false} EngineConservesPackets(cfg: Config, rules: RuleStates, frames: seq<Frame>)
    requires cfg.limits.capacity > 0
    ensures var c, ledger := RunEngine(cfg, rules, frames).counters, RunTable(cfg.limits, RunOps(cfg, rules, frames));
            && ledger.state == RunEngine(cfg, rules, frames).flows
            && ledger.created == |ledger.state.flows| + ledger.state.evicted + ledger.state.expired
            && Sum(Packets(AtoB), ledger.state.flows + ledger.removed) + Sum(Packets(BtoA), ledger.state.flows + ledger.removed)
               == c.tcp + c.udp + c.icmp + c.otherL4
  {
    hide Sum, RunEngine, RunOps;
    var ops := RunOps(cfg, rules, frames);
    var ledger := RunTable(cfg.limits, ops);
    EngineDrivesFlows(cfg, rules, frames);
    TouchesAreUpdates(ops);
    FlowsAreConserved(cfg.limits, ops, Packets(AtoB));
    FlowsAreConserved(cfg.limits, ops, Packets(BtoA));
    SumAppend(Packets(AtoB), ledger.state.flows, ledger.removed);
    SumAppend(Packets(BtoA), ledger.state.flows, ledger.removed);
  }
}
