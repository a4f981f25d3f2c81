/**
 * The demonstration scenarios from end to end: generated frames through an engine with the built-in rules
 * (`rules/default.yaml`), for every seed and every length.
 */
module Demonstration {
  import opened Ints
  import opened Wrappers
  import opened PacketTypes
  import opened Parser
  import opened FlowSpec
  import opened RuleSpec
  import opened EngineSpec
  import opened Engines
  import opened Detection
  import opened BuiltinRules
  import opened GeneratedPackets
  import opened QuietTraffic
  import opened Injections
  import G = Generator

  // ---------------------------------------------------------------- alerts by rule

  /** Alerts with the index of the frame that raised them. */
  function At(i: nat, raised: seq<Alert>): (alerts: seq<(nat, Alert)>)
    ensures |alerts| == |raised| && forall k :: 0 <= k < |raised| ==> alerts[k] == (i, raised[k])
  {
    seq(|raised|, k requires 0 <= k < |raised| => (i, raised[k]))
  }

  function OfRule(alerts: seq<(nat, Alert)>, id: string): seq<(nat, Alert)> {
    if alerts == [] then []
    else
      var n := |alerts| - 1;
      OfRule(alerts[..n], id) + if alerts[n].1.ruleId == id then [alerts[n]] else []
  }

  lemma {:induction false} OfRuleSnoc(alerts: seq<(nat, Alert)>, last: (nat, Alert), id: string)
    ensures OfRule(alerts + [last], id) == OfRule(alerts, id) + if last.1.ruleId == id then [last] else []
  {
    assert (alerts + [last])[..|alerts|] == alerts;
  }

  lemma {:induction false} OfRuleIsEmptyIff(alerts: seq<(nat, Alert)>, id: string)
    ensures OfRule(alerts, id) == [] <==> forall a :: a in alerts ==> a.1.ruleId != id
  {
    if alerts == [] {
    } else {
      var n := |alerts| - 1;
      OfRuleIsEmptyIff(alerts[..n], id);
      assert alerts == alerts[..n] + [alerts[n]];
    }
  }

  lemma {:induction false} NoneOfRule(id: string)
    ensures OfRule([], id) == []
  {
  }

  lemma {:induction false} OfRuleAppend(alerts: seq<(nat, Alert)>, more: seq<(nat, Alert)>, id: string)
    ensures OfRule(alerts + more, id) == OfRule(alerts, id) + OfRule(more, id)
  {
    hide OfRule;
    if more == [] {
      NoneOfRule(id);
      assert alerts + more == alerts && OfRule(alerts, id) + [] == OfRule(alerts, id);
    } else {
      var n := |more| - 1;
      OfRuleAppend(alerts, more[..n], id);
      OfRuleSnoc(alerts + more[..n], more[n], id);
      OfRuleSnoc(more[..n], more[n], id);
      assert alerts + more == alerts + more[..n] + [more[n]] && more == more[..n] + [more[n]];
    }
  }

  function Listed(alert: Option<Alert>): seq<Alert> {
    if alert.Some? then [alert.value] else []
  }

  lemma AtAppend(i: nat, a: seq<Alert>, b: seq<Alert>)
    ensures At(i, a + b) == At(i, a) + At(i, b)
  {
  }

  lemma RuleNamesAlert(rule: Rule, packets: seq<Packet>)
    requires packets != []
    ensures LastAlert(rule, packets).Some? ==> LastAlert(rule, packets).value.ruleId == rule.id
  {
  }

  lemma {:induction false} RaisedSplits(specs: seq<Rule>, packets: seq<Packet>)
    requires specs != [] && packets != []
    ensures Raised(specs, packets) == Listed(LastAlert(specs[0], packets)) + Raised(specs[1..], packets)
  {
    hide LastAlert;
  }

  lemma {:induction false} OwnOnly(rule: Rule, packets: seq<Packet>, i: nat, id: string)
    requires packets != []
    ensures OfRule(At(i, Listed(LastAlert(rule, packets))), id)
            == if rule.id == id then At(i, Listed(LastAlert(rule, packets))) else []
  {
    hide LastAlert;
    RuleNamesAlert(rule, packets);
    var alerts := At(i, Listed(LastAlert(rule, packets)));
    if LastAlert(rule, packets).Some? {
      assert alerts == [] + [alerts[0]];
      OfRuleSnoc([], alerts[0], id);
    }
  }

  lemma {:induction false} OfOthers(specs: seq<Rule>, packets: seq<Packet>, i: nat, id: string)
    requires packets != [] && forall k :: 0 <= k < |specs| ==> specs[k].id != id
    ensures OfRule(At(i, Raised(specs, packets)), id) == []
  {
    hide LastAlert, OfRule, Raised;
    if specs == [] {
      NothingOf(packets, i, id);
    } else {
      RaisedSplits(specs, packets);
      OfOthers(specs[1..], packets, i, id);
      AtAppend(i, Listed(LastAlert(specs[0], packets)), Raised(specs[1..], packets));
      OfRuleAppend(At(i, Listed(LastAlert(specs[0], packets))), At(i, Raised(specs[1..], packets)), id);
      OwnOnly(specs[0], packets, i, id);
    }
  }

  lemma {:induction false} NothingOf(packets: seq<Packet>, i: nat, id: string)
    requires packets != []
    ensures OfRule(At(i, Raised([], packets)), id) == []
  {
  }

  ghost predicate DistinctIds(specs: seq<Rule>) {
    forall j, k :: 0 <= j < k < |specs| ==> specs[j].id != specs[k].id
  }

  /** Of what a packet raises, the alerts that carry a rule's name are that rule's own. */
  lemma {:induction false} OfOne(specs: seq<Rule>, k: nat, packets: seq<Packet>, i: nat)
    requires packets != [] && k < |specs| && DistinctIds(specs)
    ensures OfRule(At(i, Raised(specs, packets)), specs[k].id) == At(i, Listed(LastAlert(specs[k], packets)))
  {
    hide LastAlert, OfRule, Raised;
    var first := Listed(LastAlert(specs[0], packets));
    RaisedSplits(specs, packets);
    AtAppend(i, first, Raised(specs[1..], packets));
    OfRuleAppend(At(i, first), At(i, Raised(specs[1..], packets)), specs[k].id);
    OwnOnly(specs[0], packets, i, specs[k].id);
    if k == 0 {
      OfOthers(specs[1..], packets, i, specs[k].id);
      assert At(i, first) + [] == At(i, first);
    } else {
      OfOne(specs[1..], k - 1, packets, i);
    }
  }

  // ---------------------------------------------------------------- the run

  ghost predicate IsNamed(specs: seq<Rule>, alert: Alert) {
    exists rule :: rule in specs && rule.id == alert.ruleId
  }

  /** Every alert carries a rule's name, and those that carry it are the rule's own, frame by frame. */
  ghost predicate SplitsByRule(specs: seq<Rule>, packets: seq<Packet>, alerts: seq<(nat, Alert)>) {
    && (forall a :: a in alerts ==> IsNamed(specs, a.1))
    && (forall k :: 0 <= k < |specs| ==> OfRule(alerts, specs[k].id) == AlertsOf(specs[k], packets))
  }

  lemma {:induction false} AlertsGrow(rule: Rule, packets: seq<Packet>, p: Packet)
    ensures var raised := LastAlert(rule, packets + [p]);
            AlertsOf(rule, packets + [p]) == AlertsOf(rule, packets) + if raised.Some? then [(|packets|, raised.value)] else []
  {
    hide LastAlert;
    assert (packets + [p])[..|packets|] == packets;
  }

  lemma {:induction false} RaisedAreNamed(specs: seq<Rule>, packets: seq<Packet>)
    requires packets != []
    ensures forall a :: a in Raised(specs, packets) ==> IsNamed(specs, a)
  {
    hide LastAlert;
    if specs == [] {
    } else {
      RaisedAreNamed(specs[1..], packets);
      RuleNamesAlert(specs[0], packets);
      assert forall rule :: rule in specs[1..] ==> rule in specs;
    }
  }

  lemma {:induction false} RuleGrows(specs: seq<Rule>, k: nat, packets: seq<Packet>, p: Packet, alerts: seq<(nat, Alert)>)
    requires DistinctIds(specs) && k < |specs| && OfRule(alerts, specs[k].id) == AlertsOf(specs[k], packets)
    ensures OfRule(alerts + At(|packets|, Raised(specs, packets + [p])), specs[k].id) == AlertsOf(specs[k], packets + [p])
  {
    hide LastAlert, OfRule, AlertsOf, Raised, DistinctIds;
    OfRuleAppend(alerts, At(|packets|, Raised(specs, packets + [p])), specs[k].id);
    OfOne(specs, k, packets + [p], |packets|);
    AlertsGrow(specs[k], packets, p);
  }

  /** One more packet, whatever it is: each rule's alerts stay its own. */
  lemma {:induction false} SplitGrows(specs: seq<Rule>, packets: seq<Packet>, p: Packet, alerts: seq<(nat, Alert)>)
    requires DistinctIds(specs) && SplitsByRule(specs, packets, alerts)
    ensures SplitsByRule(specs, packets + [p], alerts + At(|packets|, Raised(specs, packets + [p])))
  {
    hide LastAlert, OfRule, AlertsOf, Raised, DistinctIds, IsNamed;
    RaisedAreNamed(specs, packets + [p]);
    AllNamed(specs, alerts, |packets|, Raised(specs, packets + [p]));
    forall k | 0 <= k < |specs|
      ensures OfRule(alerts + At(|packets|, Raised(specs, packets + [p])), specs[k].id) == AlertsOf(specs[k], packets + [p])
    {
      RuleGrows(specs, k, packets, p, alerts);
    }
  }

  lemma AllNamed(specs: seq<Rule>, alerts: seq<(nat, Alert)>, i: nat, raised: seq<Alert>)
    requires forall a :: a in alerts ==> IsNamed(specs, a.1)
    requires forall a :: a in raised ==> IsNamed(specs, a)
    ensures forall a :: a in alerts + At(i, raised) ==> IsNamed(specs, a.1)
  {
    hide IsNamed;
  }

  lemma {:induction false} SplitStarts(specs: seq<Rule>)
    ensures SplitsByRule(specs, [], [])
  {
  }

  /** One generated frame: an engine whose rules hold the run so far raises what the rules call for. */
  lemma {:induction false} FrameRaises(cfg: Config, specs: seq<Rule>, before: seq<Packet>, st: EngineState, frame: Frame, p: Packet)
    requires cfg.limits.capacity > 0 && st.rules == Held(specs, before) && st.alerts == []
    requires Decode(cfg.link, frame) == Ok(p)
    ensures var after := Process(cfg, st, frame).0;
            after.rules == Held(specs, before + [p]) && after.alerts == Raised(specs, before + [p])
  {
    hide Decode, Expire, TrackFlow, Count, EvaluateAll, Raised, Held;
    RulesAreIndependent(specs, before, p);
    assert [] + Raised(specs, before + [p]) == Raised(specs, before + [p]);
  }

  lemma {:induction false} StartHeld(specs: seq<Rule>)
    ensures Fresh(specs) == Held(specs, [])
  {
  }

  lemma FrameDecodes(frames: seq<G.Timed>, plan: seq<G.Traffic>, i: nat)
    requires G.Follows(frames, plan) && i < |frames|
    ensures |frames[i].1| <= 0xFFFF_FFFF
    ensures Decode(Ethernet, Frame(frames[i].0, |frames[i].1|, frames[i].1)) == Ok(PacketsOf(frames, plan)[i])
  {
    hide Decode, G.Encode, PacketOf;
    TrafficDecodes(frames[i].0, plan[i]);
    WireLenFits(plan[i]);
  }

  // ---------------------------------------------------------------- what each scenario raises

  /** No label in the run has high entropy. */
  ghost predicate NoneSeen(highEntropy: bytes -> bool, plan: seq<G.Traffic>) {
    forall i :: 0 <= i < |plan| && i % 4 == 0 ==> !highEntropy(LongLabel(plan[i]))
  }

  /**
   * The sweep rule never alerts. The scan rule alerts in a port scan only, the tunnel rule in a tunnel only: in order,
   * once per cooldown, and from the hundredth probe or the twentieth query on. For the tunnel that holds if all labels
   * have high entropy; if none has, there is no alert.
   */
  ghost predicate IsReport(highEntropy: bytes -> bool, scenario: G.Scenario, walk: G.Walk, alerts: seq<(nat, Alert)>) {
    && OfRule(alerts, "host-sweep") == []
    && (if scenario.PortScan? then IsTimeline(Probes(highEntropy), walk.times, |walk.times|, OfRule(alerts, "port-scan"))
        else OfRule(alerts, "port-scan") == [])
    && (scenario.DnsTunnel? && AllSeen(Queries(highEntropy), walk.plan) ==>
          IsTimeline(Queries(highEntropy), walk.times, |walk.times|, OfRule(alerts, "dns-tunnel")))
    && (!scenario.DnsTunnel? || NoneSeen(highEntropy, walk.plan) ==> OfRule(alerts, "dns-tunnel") == [])
  }

  lemma {:induction false} UnseenRaiseNothing(highEntropy: bytes -> bool, frames: seq<G.Timed>, plan: seq<G.Traffic>)
    requires IsRunOf(G.DnsTunnel, frames, plan) && NoneSeen(highEntropy, plan)
    ensures AlertsOf(TunnelRule(highEntropy), PacketsOf(frames, plan)) == []
  {
    hide EventOf, PacketOf, G.IsTunnelQuery, G.IsBackground, G.Encode, G.Encodable, G.Spaced, LongLabel, TunnelRule;
    var packets := PacketsOf(frames, plan);
    forall i | 0 <= i < |packets|
      ensures EventOf(TunnelRule(highEntropy), packets[i]).None?
    {
      RunAt(G.DnsTunnel, frames, plan, i);
      if i % 4 == 0 {
        QueryIsSeenIff(highEntropy, frames[i].0, i, plan[i]);
      } else {
        BackgroundIsNoTunnel(highEntropy, frames[i].0, i, plan[i]);
      }
    }
    NoEventsNoAlerts(TunnelRule(highEntropy), packets);
  }

  lemma {:induction false} InjectionsReported(w: Injection, frames: seq<G.Timed>, plan: seq<G.Traffic>)
    requires IsRunOf(ScenarioOf(w), frames, plan) && FitsCooldown(|frames|) && AllSeen(w, plan)
    ensures IsTimeline(w, Times(PacketsOf(frames, plan)), |frames|, AlertsOf(w.Rule(), PacketsOf(frames, plan)))
  {
    hide IsTimeline, AlertsOf, IsInjected, LastFired, AllSeen, G.Scripted, G.Follows, Times, FitsCooldown;
    GeneratedIsInjected(w, frames, plan);
    InjectionTimeline(w, PacketsOf(frames, plan), |frames|);
    assert PacketsOf(frames, plan)[..|frames|] == PacketsOf(frames, plan);
  }

  lemma {:induction false} BuiltinsByName(highEntropy: bytes -> bool, packets: seq<Packet>, alerts: seq<(nat, Alert)>)
    requires SplitsByRule(AllBuiltin(highEntropy), packets, alerts)
    ensures OfRule(alerts, "port-scan") == AlertsOf(ScanRule(highEntropy), packets)
    ensures OfRule(alerts, "host-sweep") == AlertsOf(SweepRule(highEntropy), packets)
    ensures OfRule(alerts, "dns-tunnel") == AlertsOf(TunnelRule(highEntropy), packets)
  {
    hide OfRule, AlertsOf;
    var specs := AllBuiltin(highEntropy);
    assert specs[0].id == "port-scan" && specs[1].id == "host-sweep" && specs[2].id == "dns-tunnel";
  }

  lemma {:induction false} Concludes(highEntropy: bytes -> bool, scenario: G.Scenario, walk: G.Walk, frames: seq<G.Timed>,
                                     alerts: seq<(nat, Alert)>)
    requires G.Follows(frames, walk.plan) && IsRunOf(scenario, frames, walk.plan) && FitsCooldown(|frames|)
    requires Times(PacketsOf(frames, walk.plan)) == walk.times
    requires SplitsByRule(AllBuiltin(highEntropy), PacketsOf(frames, walk.plan), alerts)
    ensures IsReport(highEntropy, scenario, walk, alerts)
    ensures forall a :: a in alerts ==> IsNamed(AllBuiltin(highEntropy), a.1)
  {
    hide IsTimeline, AlertsOf, IsRunOf, AllSeen, NoneSeen, Times, FitsCooldown, ScanRule, SweepRule, TunnelRule, IsNamed;
    hide OfRule, PacketsOf, G.Follows;
    BuiltinsByName(highEntropy, PacketsOf(frames, walk.plan), alerts);
    NoSweeps(highEntropy, scenario, frames, walk.plan);
    if scenario.PortScan? {
      assert AllSeen(Probes(highEntropy), walk.plan) by {
        ProbesAreSeen(highEntropy, walk.plan);
      }
      InjectionsReported(Probes(highEntropy), frames, walk.plan);
    } else {
      NoScans(highEntropy, scenario, frames, walk.plan);
    }
    if !scenario.DnsTunnel? {
      NoTunnels(highEntropy, scenario, frames, walk.plan);
    } else {
      if AllSeen(Queries(highEntropy), walk.plan) {
        InjectionsReported(Queries(highEntropy), frames, walk.plan);
      }
      if NoneSeen(highEntropy, walk.plan) {
        UnseenRaiseNothing(highEntropy, frames, walk.plan);
      }
    }
  }

  /** A name of a built-in rule that is none of the first three is that of the packet-rate rule. */
  lemma {:induction false} OthersAreFloods(highEntropy: bytes -> bool, alerts: seq<(nat, Alert)>)
    requires forall a :: a in alerts ==> IsNamed(AllBuiltin(highEntropy), a.1)
    requires OfRule(alerts, "port-scan") == OfRule(alerts, "host-sweep") == OfRule(alerts, "dns-tunnel") == []
    ensures forall a :: a in alerts ==> a.1.ruleId == "packet-flood"
  {
    hide OfRule;
    OfRuleIsEmptyIff(alerts, "port-scan");
    OfRuleIsEmptyIff(alerts, "host-sweep");
    OfRuleIsEmptyIff(alerts, "dns-tunnel");
    forall a | a in alerts
      ensures a.1.ruleId == "packet-flood"
    {
      var rule :| rule in AllBuiltin(highEntropy) && rule.id == a.1.ruleId;
    }
  }

  lemma ProbesAreSeen(highEntropy: bytes -> bool, plan: seq<G.Traffic>)
    ensures AllSeen(Probes(highEntropy), plan)
  {
  }

  lemma QuietReport(highEntropy: bytes -> bool, scenario: G.Scenario, walk: G.Walk, alerts: seq<(nat, Alert)>)
    requires IsReport(highEntropy, scenario, walk, alerts) && forall a :: a in alerts ==> IsNamed(AllBuiltin(highEntropy), a.1)
    ensures scenario.Mixed? || scenario.Flood? ==> forall a :: a in alerts ==> a.1.ruleId == "packet-flood"
  {
    hide OfRule, IsNamed, AllBuiltin;
    if scenario.Mixed? || scenario.Flood? {
      OthersAreFloods(highEntropy, alerts);
    }
  }

  lemma {:induction false} WalkRuns(scenario: G.Scenario, s: bv64, n: nat, frames: seq<G.Timed>)
    requires G.Spells(frames, G.WalkFrom(scenario, s, n))
    ensures G.Follows(frames, G.WalkFrom(scenario, s, n).plan) && |frames| == n
    ensures IsRunOf(scenario, frames, G.WalkFrom(scenario, s, n).plan)
    ensures Times(PacketsOf(frames, G.WalkFrom(scenario, s, n).plan)) == G.WalkFrom(scenario, s, n).times
  {
    hide G.Scripted, G.Encode, G.Encodable, G.WalkFrom, G.Spaced, PacketOf;
    G.WalkFollows(scenario, s, n, frames);
    var walk := G.WalkFrom(scenario, s, n);
    forall i | 0 <= i < |frames|
      ensures Times(PacketsOf(frames, walk.plan))[i] == walk.times[i]
    {
      PacketTime(frames[i].0, walk.plan[i]);
    }
  }

  lemma BuiltinIds(highEntropy: bytes -> bool)
    ensures DistinctIds(AllBuiltin(highEntropy))
  {
  }

  /**
   * Generates a scenario and feeds it to an engine with all built-in rules. Whatever the seed and the length, everyday
   * traffic and floods raise none but packet-rate alerts. A port scan is reported first with packet 396, only for the
   * scanner, and then with the first probe after each cooldown; a tunnel likewise from packet 76 on.
   */
  method Demonstrate(scenario: G.Scenario, packets: nat, seed: bv64, limits: Limits, topN: nat, highEntropy: bytes -> bool)
    returns (alerts: seq<(nat, Alert)>)
    requires FitsCooldown(packets) && limits.capacity > 0
    ensures forall a :: a in alerts ==> IsNamed(AllBuiltin(highEntropy), a.1)
    ensures IsReport(highEntropy, scenario, G.WalkFrom(scenario, G.Seeded(seed), packets), alerts)
    ensures scenario.Mixed? || scenario.Flood? ==> forall a :: a in alerts ==> a.1.ruleId == "packet-flood"
  {
    hide Decode, G.Encode, G.Spells, Process, Held, Raised, SplitsByRule, IsReport, G.WalkFrom, IsRunOf, Times;
    hide IsNamed, Engine.Valid, AllBuiltin, PacketsOf, G.Follows, DistinctIds;
    var frames := G.Generate(scenario, packets, seed);
    ghost var walk := G.WalkFrom(scenario, G.Seeded(seed), packets);
    WalkRuns(scenario, G.Seeded(seed), packets, frames);
    ghost var run := PacketsOf(frames, walk.plan);
    var cfg, specs := Config(Ethernet, limits), AllBuiltin(highEntropy);
    var engine := new Engine(cfg, topN, specs);
    assert engine.rules.View == Fresh(specs);
    StartHeld(specs);
    BuiltinIds(highEntropy);
    SplitStarts(specs);
    alerts := [];
    assert run[..0] == [];
    for i: nat := 0 to packets
      invariant fresh(engine.Repr) && engine.Valid() && engine.config == cfg
      invariant engine.State().rules == Held(specs, run[..i]) && engine.State().alerts == []
      invariant SplitsByRule(specs, run[..i], alerts)
    {
      FrameDecodes(frames, walk.plan, i);
      var frame := Frame(frames[i].0, |frames[i].1|, frames[i].1);
      assert run[..i + 1] == run[..i] + [run[i]];
      FrameRaises(cfg, specs, run[..i], engine.State(), frame, run[i]);
      SplitGrows(specs, run[..i], run[i], alerts);
      var decoded := engine.Process(frame);
      var raised := engine.DrainAlerts();
      alerts := alerts + At(i, raised);
    }
    assert run[..packets] == run;
    Concludes(highEntropy, scenario, walk, frames, alerts);
    QuietReport(highEntropy, scenario, walk, alerts);
  }
}
