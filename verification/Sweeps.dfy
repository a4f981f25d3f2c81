/**
 * When the engine sweeps its flow table, and why a flow leaves it: told from the times of the frames alone.
 */
module Sweeps {
  import opened Ints
  import opened Wrappers
  import opened PacketTypes
  import opened Parser
  import opened FlowSpec
  import opened EngineSpec
  import opened RuleSpec
  import Lru

  /** The latest time of any frame so far. */
  function Latest(frames: seq<Frame>): nat {
    if frames == [] then 0
    else
      var before, ts := Latest(frames[..|frames| - 1]), frames[|frames| - 1].ts;
      if ts > before then ts else before
  }

  /** The time of the last sweep: the first frame sweeps, and then whichever is a second or more later. */
  function LastSweep(frames: seq<Frame>): Option<nat> {
    if frames == [] then None
    else
      var before := LastSweep(frames[..|frames| - 1]);
      if before.None? || Latest(frames) >= before.value + 1_000_000 then Some(Latest(frames)) else before
  }

  /** The next frame finds a sweep due. */
  predicate IsDue(frames: seq<Frame>, next: Frame) {
    LastSweep(frames).None? || Latest(frames + [next]) >= LastSweep(frames).value + 1_000_000
  }

  lemma ProcessClock(cfg: Config, st: EngineState, frame: Frame)
    requires cfg.limits.capacity > 0
    ensures var now, after := Clock(st, frame), Process(cfg, st, frame).0;
            after.lastTs == now && after.nextExpiry == if now >= st.nextExpiry then now + 1_000_000 else st.nextExpiry
  {
    hide Decode, EvaluateAll, Expire, TrackFlow, Count;
  }

  /** In every run the engine's clock is the latest time, and its next sweep is due one second after the last. */
  lemma {:induction false} SweepsOncePerSecond(cfg: Config, rules: RuleStates, frames: seq<Frame>)
    requires cfg.limits.capacity > 0
    ensures var st, swept := RunEngine(cfg, rules, frames), LastSweep(frames);
            && st.lastTs == Latest(frames)
            && st.nextExpiry == (if swept.None? then 0 else swept.value + 1_000_000)
            && (swept.None? <==> frames == [])
  {
    hide Process;
    if frames == [] {
    } else {
      var before := frames[..|frames| - 1];
      SweepsOncePerSecond(cfg, rules, before);
      ProcessClock(cfg, RunEngine(cfg, rules, before), frames[|frames| - 1]);
    }
  }

  lemma {:induction false} KeptByTouch(limits: Limits, st: FlowState, u: FlowUpdate, k: FlowKey)
    requires limits.capacity > 0 && Lru.Distinct(Lru.Keys(st.flows)) && |st.flows| <= limits.capacity
    requires k in Lru.Keys(st.flows)
    ensures var after := Update(limits, st, u).0;
            after.expired == st.expired && (k in Lru.Keys(after.flows) || after.evicted == st.evicted + 1)
  {
    hide NextStats, FirstStats, Lru.Find, Lru.Without, Lru.Remove, Lru.Distinct;
    var found := Lru.Lookup(st.flows, u.key);
    Lru.PutKeys(st.flows, limits.capacity, u.key, if found.Some? then NextStats(found.value, u) else FirstStats(u));
    Lru.FoundIff(st.flows, u.key);
    Lru.WithoutElements(Lru.Keys(st.flows), u.key);
    Lru.WithoutDistinct(Lru.Keys(st.flows), u.key);
  }

  lemma KeptBySweep(limits: Limits, st: FlowState, now: u64, i: nat)
    requires i < |st.flows| && st.flows[i].1.lastSeen + limits.idleTimeout > now
    ensures st.flows[i].0 in Lru.Keys(Expire(limits, st, now).flows)
  {
    ExpireKeepsFresh(limits, st, now, i);
    var kept := Expire(limits, st, now).flows;
    var j :| 0 <= j < |kept| && kept[j] == st.flows[i];
    assert Lru.Keys(kept)[j] == st.flows[i].0;
  }

  lemma AcceptsFlows(cfg: Config, st: EngineState, frame: Frame)
    requires cfg.limits.capacity > 0
    ensures var now := Clock(st, frame);
            var swept := if now >= st.nextExpiry then Expire(cfg.limits, st.flows, now) else st.flows;
            var decoded := Decode(cfg.link, frame);
            Process(cfg, st, frame).0.flows
            == if decoded.Ok? && UpdateOf(decoded.value).Some? then Update(cfg.limits, swept, UpdateOf(decoded.value).value).0
               else swept
  {
    hide Decode, EvaluateAll, Expire, Update, Count, UpdateOf;
  }

  lemma SweepKeepsBooks(limits: Limits, st: FlowState, now: u64)
    requires Lru.Distinct(Lru.Keys(st.flows)) && |st.flows| <= limits.capacity
    ensures var after := Expire(limits, st, now);
            Lru.Distinct(Lru.Keys(after.flows)) && |after.flows| <= limits.capacity && after.evicted == st.evicted
  {
    DropStaleIsSuffix(limits, st.flows, now);
    SuffixDistinct(st.flows, |st.flows| - |DropStale(limits, st.flows, now)|);
  }

  lemma {:induction false} BooksKept(cfg: Config, rules: RuleStates, frames: seq<Frame>)
    requires cfg.limits.capacity > 0
    ensures var flows := RunEngine(cfg, rules, frames).flows.flows;
            Lru.Distinct(Lru.Keys(flows)) && |flows| <= cfg.limits.capacity
  {
    hide RunEngine, RunOps, AllOrdered, Lru.Distinct;
    EngineDrivesFlows(cfg, rules, frames);
    FlowsAreConserved(cfg.limits, RunOps(cfg, rules, frames), Packets(AtoB));
  }

  /**
   * Why a flow leaves the table, in every run: it is evicted, which is counted, or a sweep that is due finds its last
   * packet the idle timeout or more ago. In particular no flow that was seen within the timeout ever expires.
   */
  lemma {:induction false} FlowsLeaveForAReason(cfg: Config, rules: RuleStates, frames: seq<Frame>, next: Frame, i: nat)
    requires cfg.limits.capacity > 0 && i < |RunEngine(cfg, rules, frames).flows.flows|
    ensures var st, after := RunEngine(cfg, rules, frames), RunEngine(cfg, rules, frames + [next]);
            var (key, stats) := st.flows.flows[i];
            || key in Lru.Keys(after.flows.flows)
            || after.flows.evicted == st.flows.evicted + 1
            || (IsDue(frames, next) && stats.lastSeen + cfg.limits.idleTimeout <= Latest(frames + [next]))
  {
    hide Process, Expire, Update, UpdateOf, Lru.Distinct, Decode, RunEngine;
    var st, now := RunEngine(cfg, rules, frames), Latest(frames + [next]);
    NextState(cfg, rules, frames, next);
    BooksKept(cfg, rules, frames);
    AcceptsFlows(cfg, st, next);
    SweepKeepsBooks(cfg.limits, st.flows, now);
    var key, decoded := st.flows.flows[i].0, Decode(cfg.link, next);
    assert Lru.Keys(st.flows.flows)[i] == key;
    var swept := if now >= st.nextExpiry then Expire(cfg.limits, st.flows, now) else st.flows;
    if st.flows.flows[i].1.lastSeen + cfg.limits.idleTimeout > now {
      KeptBySweep(cfg.limits, st.flows, now, i);
    }
    if key in Lru.Keys(swept.flows) && decoded.Ok? && UpdateOf(decoded.value).Some? {
      KeptByTouch(cfg.limits, swept, UpdateOf(decoded.value).value, key);
    }
  }

  lemma {:induction false} NextState(cfg: Config, rules: RuleStates, frames: seq<Frame>, next: Frame)
    requires cfg.limits.capacity > 0
    ensures var st, now := RunEngine(cfg, rules, frames), Latest(frames + [next]);
            && RunEngine(cfg, rules, frames + [next]) == Process(cfg, st, next).0
            && Clock(st, next) == now
            && (now >= st.nextExpiry <==> IsDue(frames, next))
  {
    hide Process;
    assert (frames + [next])[..|frames|] == frames;
    SweepsOncePerSecond(cfg, rules, frames);
  }
}
