/**
 * How stale a live flow can get. The table is ordered by last touch but swept as if it were ordered by age, and only
 * once per second; both cost precision, and late frames cost exactly as much as they are late.
 */
module Staleness {
  import opened Ints
  import opened Wrappers
  import opened PacketTypes
  import opened Parser
  import opened FlowSpec
  import opened EngineSpec
  import opened RuleSpec
  import opened RoundTrip
  import Lru
  import Synth

  /** Recency order agrees with age up to `lateness`, and no flow is ahead of the clock. */
  ghost predicate NearlyOrdered(flows: Flows, lastTs: u64, lateness: nat) {
    && (forall i :: 0 <= i < |flows| ==> flows[i].1.lastSeen <= lastTs)
    && (forall i, j :: 0 <= i < j < |flows| ==> flows[i].1.lastSeen <= flows[j].1.lastSeen + lateness)
  }

  /** The next sweep comes in time for every live flow. */
  ghost predicate SweptInTime(limits: Limits, flows: Flows, nextExpiry: nat, lateness: nat) {
    forall i :: 0 <= i < |flows| ==> nextExpiry <= flows[i].1.lastSeen + limits.idleTimeout + EXPIRY_INTERVAL + lateness
  }

  ghost predicate Invariant(cfg: Config, st: EngineState, lateness: nat) {
    && Lru.Distinct(Lru.Keys(st.flows.flows)) && |st.flows.flows| <= cfg.limits.capacity
    && NearlyOrdered(st.flows.flows, st.lastTs, lateness)
    && SweptInTime(cfg.limits, st.flows.flows, st.nextExpiry, lateness)
    && st.nextExpiry <= st.lastTs + EXPIRY_INTERVAL
  }

  lemma SweepKeeps(cfg: Config, st: EngineState, frame: Frame, lateness: nat)
    requires Invariant(cfg, st, lateness)
    ensures Invariant(cfg, AdvanceClock(cfg, st, frame), lateness)
    ensures AdvanceClock(cfg, st, frame).lastTs < AdvanceClock(cfg, st, frame).nextExpiry
  {
    var now, flows := Clock(st, frame), st.flows.flows;
    if now >= st.nextExpiry {
      DropStaleIsSuffix(cfg.limits, flows, now);
      var kept := DropStale(cfg.limits, flows, now);
      SuffixDistinct(flows, |flows| - |kept|);
      forall j | 0 <= j < |kept|
        ensures now + EXPIRY_INTERVAL <= kept[j].1.lastSeen + cfg.limits.idleTimeout + EXPIRY_INTERVAL + lateness
      {
        assert !IsStale(cfg.limits, kept[0].1, now);
      }
    }
  }

  lemma TouchKeeps(limits: Limits, st: FlowState, u: FlowUpdate, now: u64, nextExpiry: nat, lateness: nat)
    requires limits.capacity > 0 && Lru.Distinct(Lru.Keys(st.flows)) && |st.flows| <= limits.capacity
    requires NearlyOrdered(st.flows, now, lateness) && SweptInTime(limits, st.flows, nextExpiry, lateness)
    requires u.ts <= now <= u.ts + lateness && nextExpiry <= now + EXPIRY_INTERVAL
    ensures var after := Update(limits, st, u).0.flows;
            && Lru.Distinct(Lru.Keys(after)) && |after| <= limits.capacity
            && NearlyOrdered(after, now, lateness) && SweptInTime(limits, after, nextExpiry, lateness)
  {
    hide OrFlags;
    var found := Lru.Lookup(st.flows, u.key);
    var s := if found.Some? then NextStats(found.value, u) else FirstStats(u);
    if found.Some? {
      LookupMember(st.flows, u.key);
    }
    assert u.ts <= s.lastSeen <= now;
    PutSize(st.flows, limits.capacity, u.key, s);
    PutKeeps(limits, st.flows, u.key, s, now, nextExpiry, lateness);
  }

  /** Both properties speak about flows in order only, so they pass to what remains when one is taken out. */
  lemma CutKeeps(limits: Limits, flows: Flows, at: nat, now: u64, nextExpiry: nat, lateness: nat)
    requires NearlyOrdered(flows, now, lateness) && SweptInTime(limits, flows, nextExpiry, lateness) && at < |flows|
    ensures NearlyOrdered(flows[..at] + flows[at + 1..], now, lateness)
    ensures SweptInTime(limits, flows[..at] + flows[at + 1..], nextExpiry, lateness)
  {
  }

  lemma AppendKeeps(limits: Limits, flows: Flows, k: FlowKey, s: FlowStats, now: u64, nextExpiry: nat, lateness: nat)
    requires NearlyOrdered(flows, now, lateness) && SweptInTime(limits, flows, nextExpiry, lateness)
    requires s.lastSeen <= now <= s.lastSeen + lateness && nextExpiry <= now + EXPIRY_INTERVAL
    ensures NearlyOrdered(flows + [(k, s)], now, lateness) && SweptInTime(limits, flows + [(k, s)], nextExpiry, lateness)
  {
  }

  lemma {:induction false} RemoveKeeps(limits: Limits, flows: Flows, k: FlowKey, now: u64, nextExpiry: nat, lateness: nat)
    requires Lru.Distinct(Lru.Keys(flows))
    requires NearlyOrdered(flows, now, lateness) && SweptInTime(limits, flows, nextExpiry, lateness)
    ensures var rest := Lru.Remove(flows, k);
            NearlyOrdered(rest, now, lateness) && SweptInTime(limits, rest, nextExpiry, lateness)
  {
    hide Lru.Remove, Lru.Find, NearlyOrdered, SweptInTime, Lru.Distinct;
    Lru.RemoveIsSlice(flows, k);
    if Lru.Find(flows, k) < |flows| {
      CutKeeps(limits, flows, Lru.Find(flows, k), now, nextExpiry, lateness);
    }
  }

  lemma TailKeeps(limits: Limits, flows: Flows, now: u64, nextExpiry: nat, lateness: nat)
    requires flows != [] && NearlyOrdered(flows, now, lateness) && SweptInTime(limits, flows, nextExpiry, lateness)
    ensures NearlyOrdered(flows[1..], now, lateness) && SweptInTime(limits, flows[1..], nextExpiry, lateness)
  {
  }

  lemma PutKeeps(limits: Limits, flows: Flows, k: FlowKey, s: FlowStats, now: u64, nextExpiry: nat, lateness: nat)
    requires limits.capacity > 0 && Lru.Distinct(Lru.Keys(flows))
    requires NearlyOrdered(flows, now, lateness) && SweptInTime(limits, flows, nextExpiry, lateness)
    requires s.lastSeen <= now <= s.lastSeen + lateness && nextExpiry <= now + EXPIRY_INTERVAL
    ensures NearlyOrdered(Lru.Put(flows, limits.capacity, k, s), now, lateness)
    ensures SweptInTime(limits, Lru.Put(flows, limits.capacity, k, s), nextExpiry, lateness)
  {
    hide Lru.Remove, NearlyOrdered, SweptInTime, Lru.Distinct;
    RemoveKeeps(limits, flows, k, now, nextExpiry, lateness);
    var rest := Lru.Remove(flows, k);
    if |rest| == limits.capacity {
      TailKeeps(limits, rest, now, nextExpiry, lateness);
    }
    AppendKeeps(limits, if |rest| == limits.capacity then rest[1..] else rest, k, s, now, nextExpiry, lateness);
  }

  /** No frame of the run is more than `lateness` behind the engine clock. */
  ghost predicate NeverLater(cfg: Config, rules: RuleStates, frames: seq<Frame>, lateness: nat)
    requires cfg.limits.capacity > 0
  {
    forall i :: 0 <= i < |frames| ==> RunEngine(cfg, rules, frames[..i]).lastTs <= frames[i].ts + lateness
  }

  lemma ProcessKeeps(cfg: Config, st: EngineState, frame: Frame, lateness: nat)
    requires cfg.limits.capacity > 0 && Invariant(cfg, st, lateness) && st.lastTs <= frame.ts + lateness
    ensures var after := Process(cfg, st, frame).0;
            Invariant(cfg, after, lateness) && after.lastTs < after.nextExpiry
  {
    hide Decode, EvaluateAll, AdvanceClock, Update, Count, NearlyOrdered, SweptInTime, UpdateOf;
    var c := st.counters;
    var counting := st.(counters := c.(packets := c.packets + 1, bytes := c.bytes + frame.wireLen));
    SweepKeeps(cfg, counting, frame, lateness);
    var swept := AdvanceClock(cfg, counting, frame);
    ClockAdvances(cfg, counting, frame);
    var decoded := Decode(cfg.link, frame);
    if decoded.Ok? {
      DecodedIsShaped(cfg.link, frame);
      UpdateTime(decoded.value);
      var u := UpdateOf(decoded.value);
      if u.Some? {
        TouchKeeps(cfg.limits, swept.flows, u.value, swept.lastTs, swept.nextExpiry, lateness);
      }
    }
  }

  lemma ClockAdvances(cfg: Config, st: EngineState, frame: Frame)
    ensures AdvanceClock(cfg, st, frame).lastTs == Clock(st, frame)
  {
  }

  lemma UpdateTime(p: Packet)
    ensures UpdateOf(p).Some? ==> UpdateOf(p).value.ts == p.ts
  {
  }

  lemma {:induction false} InvariantHolds(cfg: Config, rules: RuleStates, frames: seq<Frame>, lateness: nat)
    requires cfg.limits.capacity > 0 && NeverLater(cfg, rules, frames, lateness)
    ensures Invariant(cfg, RunEngine(cfg, rules, frames), lateness)
    ensures frames != [] ==> RunEngine(cfg, rules, frames).lastTs < RunEngine(cfg, rules, frames).nextExpiry
  {
    hide Process;
    if frames == [] {
    } else {
      var n := |frames| - 1;
      forall i | 0 <= i < n
        ensures RunEngine(cfg, rules, frames[..n][..i]).lastTs <= frames[..n][i].ts + lateness
      {
        assert frames[..n][..i] == frames[..i];
      }
      InvariantHolds(cfg, rules, frames[..n], lateness);
      ProcessKeeps(cfg, RunEngine(cfg, rules, frames[..n]), frames[n], lateness);
    }
  }

  /**
   * If no frame is more than `lateness` behind the clock, every live flow was seen less than the idle timeout plus one
   * sweep interval plus `lateness` ago, after every frame.
   */
  lemma {:induction false} LiveFlowsAreRecent(cfg: Config, rules: RuleStates, frames: seq<Frame>, lateness: nat, i: nat)
    requires cfg.limits.capacity > 0 && NeverLater(cfg, rules, frames, lateness)
    requires i < |RunEngine(cfg, rules, frames).flows.flows|
    ensures var st := RunEngine(cfg, rules, frames);
            st.lastTs < st.flows.flows[i].1.lastSeen + cfg.limits.idleTimeout + 1_000_000 + lateness
  {
    hide Process;
    InvariantHolds(cfg, rules, frames, lateness);
  }

  // ---------------------------------------------------------------- packets in order

  /** Frame times do not decrease. */
  ghost predicate InOrder(frames: seq<Frame>) {
    forall i, j :: 0 <= i <= j < |frames| ==> frames[i].ts <= frames[j].ts
  }

  lemma {:induction false} ClockIsLastFrame(cfg: Config, rules: RuleStates, frames: seq<Frame>)
    requires cfg.limits.capacity > 0 && InOrder(frames)
    ensures RunEngine(cfg, rules, frames).lastTs == if frames == [] then 0 else frames[|frames| - 1].ts
  {
    hide Decode, EvaluateAll, Expire, TrackFlow, Count;
    if frames == [] {
    } else {
      ClockIsLastFrame(cfg, rules, frames[..|frames| - 1]);
    }
  }

  lemma {:induction false} InOrderIsNeverLate(cfg: Config, rules: RuleStates, frames: seq<Frame>)
    requires cfg.limits.capacity > 0 && InOrder(frames)
    ensures NeverLater(cfg, rules, frames, 0)
  {
    hide RunEngine;
    forall i | 0 <= i < |frames|
      ensures RunEngine(cfg, rules, frames[..i]).lastTs <= frames[i].ts + 0
    {
      ClockIsLastFrame(cfg, rules, frames[..i]);
    }
  }

  lemma OrderedSweepIsComplete(limits: Limits, flows: FlowState, lastTs: u64, now: u64)
    requires NearlyOrdered(flows.flows, lastTs, 0)
    ensures AllFresh(limits, Expire(limits, flows, now).flows, now)
  {
    ExpireIsCompleteIff(limits, flows, now);
  }

  /** When frames come in order, every sweep leaves fresh flows only. */
  lemma {:induction false} InOrderSweepsAreComplete(cfg: Config, rules: RuleStates, frames: seq<Frame>, next: Frame)
    requires cfg.limits.capacity > 0 && InOrder(frames + [next])
    requires var st := RunEngine(cfg, rules, frames);
             Clock(st, next) >= st.nextExpiry
    ensures var st := RunEngine(cfg, rules, frames);
            AllFresh(cfg.limits, AdvanceClock(cfg, st, next).flows.flows, next.ts)
  {
    hide RunEngine, AllFresh, Expire, NearlyOrdered, SweptInTime;
    assert forall i :: 0 <= i < |frames| ==> frames[i] == (frames + [next])[i];
    InOrderIsNeverLate(cfg, rules, frames);
    InvariantHolds(cfg, rules, frames, 0);
    ClockIsLastFrame(cfg, rules, frames);
    assert (frames + [next])[|frames|] == next;
    var st := RunEngine(cfg, rules, frames);
    OrderedSweepIsComplete(cfg.limits, st.flows, st.lastTs, next.ts);
  }

  // ---------------------------------------------------------------- a late packet

  const LATE_LIMITS: Limits := Limits(8, 2_000_000)

  lemma FirstTouches(limits: Limits, u1: FlowUpdate, u2: FlowUpdate)
    requires limits.capacity >= 2 && u1.key != u2.key
    ensures var first := Update(limits, FlowState([], 0, 0), u1).0;
            first == FlowState([(u1.key, FirstStats(u1))], 0, 0)
            && Update(limits, first, u2).0 == FlowState([(u1.key, FirstStats(u1)), (u2.key, FirstStats(u2))], 0, 0)
  {
    var first: Flows := [(u1.key, FirstStats(u1))];
    Lru.FoundIff(first, u2.key);
    Lru.RemoveIsSlice(first, u2.key);
    assert Lru.Find(first, u2.key) == 1;
  }

  lemma AcceptedFrame(cfg: Config, st: EngineState, frame: Frame, u: FlowUpdate)
    requires cfg.limits.capacity > 0 && Decode(cfg.link, frame).Ok? && UpdateOf(Decode(cfg.link, frame).value) == Some(u)
    ensures var swept, after := AdvanceClock(cfg, st, frame), Process(cfg, st, frame).0;
            after.flows == Update(cfg.limits, swept.flows, u).0
            && after.lastTs == swept.lastTs && after.nextExpiry == swept.nextExpiry
  {
    hide Decode, EvaluateAll, Expire, Update, Count, UpdateOf;
  }

  lemma RefusedFrame(cfg: Config, st: EngineState, frame: Frame)
    requires cfg.limits.capacity > 0 && Decode(cfg.link, frame).Err?
    ensures var swept, after := AdvanceClock(cfg, st, frame), Process(cfg, st, frame).0;
            after.flows == swept.flows && after.lastTs == swept.lastTs && after.nextExpiry == swept.nextExpiry
  {
    hide Decode, Expire;
  }

  lemma {:induction false} ThreeFrames(cfg: Config, rules: RuleStates, a: Frame, b: Frame, c: Frame)
    requires cfg.limits.capacity > 0
    ensures RunEngine(cfg, rules, [a, b, c])
            == Process(cfg, Process(cfg, Process(cfg, Initial(rules), a).0, b).0, c).0
  {
    hide Process;
    assert [a, b, c][..2] == [a, b] && [a, b][..1] == [a] && [a][..0] == [];
    assert RunEngine(cfg, rules, [a]) == Process(cfg, Initial(rules), a).0;
  }

  /** A flow at 10 s, another packet five seconds late, and a frame that triggers the sweep a second later. */
  lemma {:induction false} LateRun(rules: RuleStates, a: Frame, b: Frame, c: Frame, u1: FlowUpdate, u2: FlowUpdate)
    requires Decode(Ethernet, a).Ok? && UpdateOf(Decode(Ethernet, a).value) == Some(u1)
    requires Decode(Ethernet, b).Ok? && UpdateOf(Decode(Ethernet, b).value) == Some(u2)
    requires Decode(Ethernet, c).Err? && u1.key != u2.key
    requires a.ts == u1.ts == 10_000_000 && b.ts == u2.ts == 5_000_000 && c.ts == 11_000_000
    ensures var st := RunEngine(Config(Ethernet, LATE_LIMITS), rules, [a, b, c]);
            && st.lastTs == 11_000_000 && st.nextExpiry == 12_000_000
            && st.flows.flows == [(u1.key, FirstStats(u1)), (u2.key, FirstStats(u2))]
  {
    hide Decode, UpdateOf, Process, Update, RunEngine;
    var cfg, st := Config(Ethernet, LATE_LIMITS), Initial(rules);
    ThreeFrames(cfg, rules, a, b, c);
    FirstTouches(LATE_LIMITS, u1, u2);
    AcceptedFrame(cfg, st, a, u1);
    AcceptedFrame(cfg, Process(cfg, st, a).0, b, u2);
    RefusedFrame(cfg, Process(cfg, Process(cfg, st, a).0, b).0, c);
  }

  lemma SegmentUpdate(ts: u64, src: u32, dst: u32)
    requires Synth.FitsIpv4(Synth.Tcp(1, 2, 0, 0))
    ensures var frame := SynthFrame(ts, 54, src, dst, Parser.PROTO_TCP, Synth.Tcp(1, 2, 0, 0));
            && Decode(Ethernet, frame).Ok?
            && UpdateOf(Decode(Ethernet, frame).value).Some?
            && UpdateOf(Decode(Ethernet, frame).value).value.ts == ts
            && UpdateOf(Decode(Ethernet, frame).value).value.key
               == Canonical(Endpoint(V4(src), 1), Endpoint(V4(dst), 2), Parser.PROTO_TCP).0
  {
    TcpRoundTrip(ts, 54, src, 1, dst, 2, 0, 0);
    hide Decode, Canonical;
  }

  lemma EmptyFrameFails(ts: u64)
    ensures Decode(Ethernet, Frame(ts, 0, [])).Err?
  {
  }

  lemma {:induction false} SecondFound(k1: FlowKey, s1: FlowStats, k2: FlowKey, s2: FlowStats)
    requires k1 != k2
    ensures Lru.Lookup([(k1, s1), (k2, s2)], k2) == Some(s2)
  {
    assert [(k1, s1), (k2, s2)][1] == (k2, s2);
    Lru.FoundIff([(k1, s1), (k2, s2)], k2);
    assert Lru.Keys([(k1, s1), (k2, s2)])[1] == k2;
  }

  /**
   * Age alone does not decide: after these frames of three hosts the sweep at 11 s has left a flow that was last seen at
   * 5 s, although the idle timeout is two seconds, because an older but fresher flow stands before it.
   */
  lemma {:induction false} LateFlowSurvives(rules: RuleStates, first: u32, late: u32, target: u32)
    returns (frames: seq<Frame>, key: FlowKey)
    requires |{first, late, target}| == 3
    ensures var st := RunEngine(Config(Ethernet, LATE_LIMITS), rules, frames);
            && st.lastTs == 11_000_000 && st.nextExpiry == 12_000_000
            && Lru.Lookup(st.flows.flows, key).Some?
            && Lru.Lookup(st.flows.flows, key).value.lastSeen + 6_000_000 == st.lastTs && LATE_LIMITS.idleTimeout == 2_000_000
  {
    hide Decode, RunEngine, Canonical, UpdateOf, Lru.Find;
    SegmentUpdate(10_000_000, first, target);
    SegmentUpdate(5_000_000, late, target);
    EmptyFrameFails(11_000_000);
    SameFlowIff(Endpoint(V4(first), 1), Endpoint(V4(target), 2), Parser.PROTO_TCP,
                Endpoint(V4(late), 1), Endpoint(V4(target), 2), Parser.PROTO_TCP);
    var a := SynthFrame(10_000_000, 54, first, target, Parser.PROTO_TCP, Synth.Tcp(1, 2, 0, 0));
    var b := SynthFrame(5_000_000, 54, late, target, Parser.PROTO_TCP, Synth.Tcp(1, 2, 0, 0));
    var c := Frame(11_000_000, 0, []);
    var u1, u2 := UpdateOf(Decode(Ethernet, a).value).value, UpdateOf(Decode(Ethernet, b).value).value;
    LateRun(rules, a, b, c, u1, u2);
    SecondFound(u1.key, FirstStats(u1), u2.key, FirstStats(u2));
    frames, key := [a, b, c], u2.key;
  }
}
