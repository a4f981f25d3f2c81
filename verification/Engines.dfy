/** The engine as it runs (`engine.rs`): one object that owns the flow table and the rules, refining `EngineSpec`. */
module Engines {
  import opened Ints
  import opened PacketTypes
  import opened Parser
  import opened FlowSpec
  import opened FlowTables
  import opened RuleSpec
  import opened Rules
  import opened EngineSpec

  datatype Snapshot = Snapshot(
    counters: Counters,
    activeFlows: nat,
    evictedFlows: nat,
    expiredFlows: nat,
    lastTs: u64,
    topFlows: seq<Entry>
  )

  class Engine {
    const config: Config
    const topN: nat
    const flows: FlowTable
    const rules: RuleEngine
    var counters: Counters
    var lastTs: u64
    var nextExpiry: nat
    var alerts: seq<Alert>
    ghost var Repr: set<object>

    ghost predicate Valid()
      reads this, Repr
    {
      && {this, flows, rules} <= Repr && rules.Repr <= Repr && rules in rules.Repr
      && this !in rules.Repr && flows !in rules.Repr
      && flows.Valid() && flows.limits == config.limits
      && rules.Valid()
    }

    ghost function State(): EngineState
      reads this, flows, rules
    {
      EngineState(counters, flows.State(), lastTs, nextExpiry, rules.View, alerts)
    }

    constructor (config: Config, topN: nat, specs: seq<Rule>)
      requires config.limits.capacity > 0
      ensures Valid() && fresh(Repr) && this.config == config && this.topN == topN
      ensures State() == Initial(rules.View)
      ensures |rules.View| == |specs| && forall i :: 0 <= i < |specs| ==> rules.View[i] == (specs[i], [])
    {
      this.config, this.topN := config, topN;
      counters, lastTs, nextExpiry, alerts := NO_COUNTS, 0, 0, [];
      var table := new FlowTable(config.limits);
      var engine := new RuleEngine(specs);
      flows, rules := table, engine;
      Repr := {this, table} + engine.Repr;
    }

    /** One captured frame: counted, timed, decoded, tracked and shown to the rules, as `EngineSpec.Process` says. */
    method Process(frame: Frame) returns (decoded: Decoded)
      requires Valid()
      modifies Repr
      ensures Valid() && fresh(Repr - old(Repr))
      ensures (State(), decoded) == EngineSpec.Process(config, old(State()), frame)
    {
      hide Decode, EvaluateAll, FlowSpec.Expire, FlowSpec.Update, EngineSpec.Count, UpdateOf, RuleEngine.Valid;
      hide EngineSpec.AdvanceClock, EngineSpec.TrackFlow, FlowTable.Valid;
      counters := counters.(packets := counters.packets + 1, bytes := counters.bytes + frame.wireLen);
      AdvanceClock(frame.ts);
      decoded := Parse(config.link, frame);
      if decoded.Err? {
        counters := counters.(parseErrors := counters.parseErrors + 1);
        return;
      }
      Count(decoded.value);
      TrackFlow(decoded.value);
      var raised := rules.Evaluate(decoded.value);
      Repr := Repr + rules.Repr;
      alerts := alerts + raised;
    }

    method AdvanceClock(ts: u64)
      requires Valid()
      modifies this`lastTs, this`nextExpiry, flows
      ensures Valid()
      ensures forall frame: Frame :: frame.ts == ts ==> State() == EngineSpec.AdvanceClock(config, old(State()), frame)
    {
      hide FlowSpec.Expire;
      lastTs := Max(lastTs, ts);
      if lastTs >= nextExpiry {
        var removed := flows.Expire(lastTs);
        nextExpiry := lastTs + EXPIRY_INTERVAL;
      }
    }

    method Count(p: Packet)
      modifies this`counters
      ensures counters == EngineSpec.Count(old(counters), p)
    {
      if p.ip.None? {
        counters := counters.(nonIp := counters.nonIp + 1);
        return;
      }
      if p.ip.value.src.V4? {
        counters := counters.(ipv4 := counters.ipv4 + 1);
      } else {
        counters := counters.(ipv6 := counters.ipv6 + 1);
      }
      if p.ip.value.IsFragment() {
        counters := counters.(fragments := counters.fragments + 1);
      }
      match p.transport {
        case Tcp(_) => counters := counters.(tcp := counters.tcp + 1);
        case Udp(_) => counters := counters.(udp := counters.udp + 1);
        case Icmp(_) => counters := counters.(icmp := counters.icmp + 1);
        case Other(_) => counters := counters.(otherL4 := counters.otherL4 + 1);
        case NoTransport =>
        case LaterFragment =>
      }
      match p.app {
        case Dns(_) => counters := counters.(dns := counters.dns + 1);
        case DnsError(_) => counters := counters.(dnsErrors := counters.dnsErrors + 1);
        case NoApp =>
      }
    }

    method TrackFlow(p: Packet)
      requires Valid()
      modifies flows
      ensures Valid() && flows.State() == EngineSpec.TrackFlow(config, old(flows.State()), p)
    {
      hide FlowSpec.Update, FlowTable.Valid;
      if p.ip.None? || p.transport == LaterFragment {
        return;
      }
      var ip := p.ip.value;
      var (sport, dport) := p.transport.Ports();
      var flags: byte := if p.transport.Tcp? then p.transport.tcp.flags else 0;
      var (key, direction) := Canonical(Endpoint(ip.src, sport), Endpoint(ip.dst, dport), ip.proto);
      var stats := flows.Update(FlowUpdate(key, direction, p.ts, p.wireLen, flags));
    }

    /** Hands the pending alerts over; none is seen twice. */
    method DrainAlerts() returns (drained: seq<Alert>)
      requires Valid()
      modifies this`alerts
      ensures Valid() && drained == old(alerts) && State() == old(State()).(alerts := [])
    {
      drained, alerts := alerts, [];
    }

    method TakeSnapshot() returns (s: Snapshot)
      requires Valid()
      ensures s.(topFlows := []) == Snapshot(counters, |flows.flows|, flows.evicted, flows.expired, lastTs, [])
      ensures IsTop(flows.flows, topN, s.topFlows)
    {
      var top := flows.TopByBytes(topN);
      s := Snapshot(counters, |flows.flows|, flows.evicted, flows.expired, lastTs, top);
    }
  }

  /** Feeds a whole run of frames to one engine: its final state and all alerts are those of `EngineSpec.RunEngine`. */
  method Replay(config: Config, topN: nat, specs: seq<Rule>, frames: seq<Frame>) returns (engine: Engine)
    requires config.limits.capacity > 0
    ensures engine.Valid() && engine.State() == RunEngine(config, Fresh(specs), frames)
  {
    hide EngineSpec.Process, Engine.Valid;
    engine := new Engine(config, topN, specs);
    assert engine.State() == Initial(Fresh(specs));
    for i := 0 to |frames|
      invariant fresh(engine.Repr) && engine.Valid() && engine.config == config
      invariant engine.State() == RunEngine(config, Fresh(specs), frames[..i])
    {
      assert frames[..i + 1][..i] == frames[..i];
      var decoded := engine.Process(frames[i]);
    }
    assert frames[..|frames|] == frames;
  }
}
