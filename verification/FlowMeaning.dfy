/** What packets do to flows: who talked to whom, when, how much, and with which flags. */
module FlowMeaning {
  import opened Ints
  import opened Wrappers
  import opened PacketTypes
  import opened Layers
  import opened Parser
  import opened FlowSpec
  import opened EngineSpec
  import opened RuleSpec

  /** The two ends of a packet; only TCP and UDP have ports. */
  function Ends(p: Packet): (Endpoint, Endpoint)
    requires p.ip.Some?
  {
    var (sport, dport) := match p.transport
                          case Tcp(h) => (h.srcPort, h.dstPort)
                          case Udp(h) => (h.srcPort, h.dstPort)
                          case _ => (0, 0);
    (Endpoint(p.ip.value.src, sport), Endpoint(p.ip.value.dst, dport))
  }

  /**
   * A packet with an address that is no later fragment updates the flow of its two ends and its protocol, in the direction
   * in which it travels, with its time, its length on the wire and its TCP flags; no other packet updates a flow.
   */
  lemma UpdateMeans(p: Packet)
    ensures UpdateOf(p).Some? <==> p.ip.Some? && !p.transport.LaterFragment?
    ensures UpdateOf(p).Some? ==>
              var u := UpdateOf(p).value;
              && u.ts == p.ts && u.bytes == p.wireLen && u.key.proto == p.ip.value.proto
              && (if u.direction == AtoB then (u.key.a, u.key.b) else (u.key.b, u.key.a)) == Ends(p)
              && !EndpointLess(u.key.b, u.key.a)
              && u.tcpFlags == (if p.transport.Tcp? then p.transport.tcp.flags else 0)
  {
  }

  /** The bytes on the wire of the frames that belong to a flow. */
  function FlowBytes(cfg: Config, frames: seq<Frame>): nat {
    if frames == [] then 0
    else
      var frame := frames[|frames| - 1];
      var decoded := Decode(cfg.link, frame);
      FlowBytes(cfg, frames[..|frames| - 1])
      + if decoded.Ok? && decoded.value.ip.Some? && !decoded.value.transport.LaterFragment? then frame.wireLen else 0
  }

  ghost function Volume(ops: seq<FlowOp>): nat {
    SumUpdates(Bytes(AtoB), ops) + SumUpdates(Bytes(BtoA), ops)
  }

  lemma {:induction false} VolumeSnoc(ops: seq<FlowOp>, op: FlowOp)
    ensures Volume(ops + [op]) == Volume(ops) + if op.Touch? then op.update.bytes else 0
  {
    assert (ops + [op])[..|ops|] == ops;
  }

  lemma DecodedLength(link: LinkType, frame: Frame)
    requires Decode(link, frame).Ok?
    ensures Decode(link, frame).value.wireLen == frame.wireLen
  {
    hide DecodeEthernet, DecodeIpv4, DecodeIpv6, DecodeTcp, DecodeUdp, DecodeIcmp, DecodeApp;
  }

  lemma {:induction false} FrameVolume(cfg: Config, st: EngineState, frame: Frame, ops: seq<FlowOp>)
    ensures var decoded := Decode(cfg.link, frame);
            Volume(ops + FlowOps(cfg, st, frame))
            == Volume(ops)
               + if decoded.Ok? && decoded.value.ip.Some? && !decoded.value.transport.LaterFragment? then frame.wireLen else 0
  {
    hide Decode, UpdateOf, Volume;
    var decoded := Decode(cfg.link, frame);
    var swept := if Clock(st, frame) >= st.nextExpiry then ops + [Sweep(Clock(st, frame))] else ops;
    VolumeSnoc(ops, Sweep(Clock(st, frame)));
    if decoded.Ok? {
      UpdateMeans(decoded.value);
      DecodedLength(cfg.link, frame);
    }
    var u := if decoded.Ok? then UpdateOf(decoded.value) else None;
    if u.Some? {
      VolumeSnoc(swept, Touch(u.value));
    }
    assert ops + FlowOps(cfg, st, frame) == if u.Some? then swept + [Touch(u.value)] else swept;
  }

  lemma {:induction false} RunVolume(cfg: Config, rules: RuleStates, frames: seq<Frame>)
    requires cfg.limits.capacity > 0
    ensures Volume(RunOps(cfg, rules, frames)) == FlowBytes(cfg, frames)
  {
    hide Decode, FlowOps, Volume, RunEngine;
    if frames == [] {
      NoVolume();
    } else {
      var before := frames[..|frames| - 1];
      RunVolume(cfg, rules, before);
      FrameVolume(cfg, RunEngine(cfg, rules, before), frames[|frames| - 1], RunOps(cfg, rules, before));
    }
  }

  lemma NoVolume()
    ensures Volume([]) == 0
  {
  }

  /** In every run the bytes of all live and removed flows, both ways, are those of the frames that belong to flows. */
  lemma {:induction false} EngineConservesBytes(cfg: Config, rules: RuleStates, frames: seq<Frame>)
    requires cfg.limits.capacity > 0
    ensures var ledger := RunTable(cfg.limits, RunOps(cfg, rules, frames));
            && ledger.state == RunEngine(cfg, rules, frames).flows
            && Sum(Bytes(AtoB), ledger.state.flows + ledger.removed) + Sum(Bytes(BtoA), ledger.state.flows + ledger.removed)
               == FlowBytes(cfg, frames)
  {
    hide Sum, RunEngine, RunOps, FlowBytes;
    var ops := RunOps(cfg, rules, frames);
    var ledger := RunTable(cfg.limits, ops);
    EngineDrivesFlows(cfg, rules, frames);
    RunVolume(cfg, rules, frames);
    FlowsAreConserved(cfg.limits, ops, Bytes(AtoB));
    FlowsAreConserved(cfg.limits, ops, Bytes(BtoA));
    SumAppend(Bytes(AtoB), ledger.state.flows, ledger.removed);
    SumAppend(Bytes(BtoA), ledger.state.flows, ledger.removed);
  }
}
