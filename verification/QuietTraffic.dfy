/**
 * What the built-in rules (`rules/default.yaml`) make of generated traffic that they are not meant for: too few hosts for
 * a sweep, too few ports for a scan, and no DNS label long enough for a tunnel.
 */
module QuietTraffic {
  import opened Ints
  import opened Wrappers
  import opened PacketTypes
  import opened Window
  import opened DnsParser
  import opened Parser
  import opened RuleSpec
  import opened BuiltinRules
  import opened RoundTrip
  import opened GeneratedPackets
  import Synth
  import G = Generator

  // ---------------------------------------------------------------- the alerts of a run

  /** The alerts of a run, with the index of the packet that raised each. */
  function AlertsOf(rule: Rule, packets: seq<Packet>): seq<(nat, Alert)> {
    if packets == [] then []
    else
      var n := |packets| - 1;
      var raised := LastAlert(rule, packets);
      AlertsOf(rule, packets[..n]) + if raised.Some? then [(n, raised.value)] else []
  }

  lemma TakeTake<T>(s: seq<T>, n: nat)
    requires 0 < n <= |s|
    ensures s[..n][..n - 1] == s[..n - 1] && s[..n][n - 1] == s[n - 1]
  {
  }

  lemma {:induction false} AlertsSnoc(rule: Rule, packets: seq<Packet>, n: nat)
    requires n < |packets|
    ensures var raised, earlier := LastAlert(rule, packets[..n + 1]), AlertsOf(rule, packets[..n]);
            AlertsOf(rule, packets[..n + 1]) == if raised.Some? then earlier + [(n, raised.value)] else earlier
  {
    hide LastAlert;
    TakeTake(packets, n + 1);
  }

  // ---------------------------------------------------------------- few keys, no alert

  ghost predicate KeysWithin(history: seq<Event<Key>>, keys: set<Key>) {
    forall i :: 0 <= i < |history| ==> history[i].key in keys
  }

  lemma {:induction false} EntryKeysWithin(rule: Rule, packets: seq<Packet>, src: IpAddr, keys: set<Key>)
    requires forall i :: 0 <= i < |packets| && EventOf(rule, packets[i]).Some? ==> EventOf(rule, packets[i]).value.event.key in keys
    ensures KeysWithin(RecentHistoryOf(rule, packets, src), keys)
  {
    hide EventOf, IsTracked;
    if packets == [] {
    } else {
      var before, e := packets[..|packets| - 1], EventOf(rule, packets[|packets| - 1]);
      EntryKeysWithin(rule, before, src, keys);
      if e.Some? {
        EntrySnoc(EventsOf(rule, before), e.value, src);
      } else {
        assert EventsOf(rule, before) + [] == EventsOf(rule, before);
      }
    }
  }

  /** A source whose events have fewer distinct keys than the threshold never alerts, in any timestamp order. */
  lemma {:induction false} FewKeysNoAlert(rule: Rule, history: seq<Event<Key>>, keys: set<Key>)
    requires history != [] && CountsDistinct(rule) && KeysWithin(history, keys) && |keys| < rule.threshold
    ensures SourceAlert(rule, history).None?
  {
    hide Run, SourceAfter, AddEvent, KeysWithin;
    var before := history[..|history| - 1];
    SourceHoldsWindow(rule, history);
    SourceSnoc(rule, before, history[|history| - 1]);
    assert history == before + [history[|history| - 1]];
    RunIsBoundedSuffix(history, rule.window);
    SuffixKeys(Run(history, rule.window), history, keys);
    SubsetSize(KeySet(Run(history, rule.window)), keys);
  }

  lemma {:induction false} SuffixKeys(held: seq<Event<Key>>, history: seq<Event<Key>>, keys: set<Key>)
    requires IsSuffix(held, history) && KeysWithin(history, keys)
    ensures KeySet(held) <= keys
  {
    forall k | k in KeySet(held)
      ensures k in keys
    {
      var i :| 0 <= i < |held| && KeySeq(held)[i] == k;
      assert held[i] == history[|history| - |held| + i];
    }
  }

  lemma {:induction false} FewHostsNoAlert(rule: Rule, packets: seq<Packet>, keys: set<Key>)
    requires packets != [] && CountsDistinct(rule) && |keys| < rule.threshold
    requires forall i :: 0 <= i < |packets| && EventOf(rule, packets[i]).Some? ==> EventOf(rule, packets[i]).value.event.key in keys
    ensures LastAlert(rule, packets) == None
  {
    hide EventOf, LastAlert, SourceAlert, KeysWithin, RecentHistoryOf;
    var p := packets[|packets| - 1];
    if EventOf(rule, p).None? {
      NoEventNoAlert(rule, packets);
    } else {
      EventSourceAndTime(rule, p);
      LastAlertOfSource(rule, packets);
      EntryKeysWithin(rule, packets, p.ip.value.src, keys);
      FewKeysNoAlert(rule, RecentHistoryOf(rule, packets, p.ip.value.src), keys);
    }
  }

  lemma {:induction false} FewKeysNoAlerts(rule: Rule, packets: seq<Packet>, keys: set<Key>)
    requires CountsDistinct(rule) && |keys| < rule.threshold
    requires forall i :: 0 <= i < |packets| && EventOf(rule, packets[i]).Some? ==> EventOf(rule, packets[i]).value.event.key in keys
    ensures AlertsOf(rule, packets) == []
  {
    hide EventOf, LastAlert;
    if packets == [] {
    } else {
      FewKeysNoAlerts(rule, packets[..|packets| - 1], keys);
      FewHostsNoAlert(rule, packets, keys);
    }
  }

  lemma {:induction false} NoEventsNoAlerts(rule: Rule, packets: seq<Packet>)
    requires forall i :: 0 <= i < |packets| ==> EventOf(rule, packets[i]).None?
    ensures AlertsOf(rule, packets) == []
  {
    hide EventOf, LastAlert;
    if packets == [] {
    } else {
      NoEventsNoAlerts(rule, packets[..|packets| - 1]);
      NoEventNoAlert(rule, packets);
    }
  }

  // ---------------------------------------------------------------- the hosts of generated traffic

  ghost function ClientHosts(n: nat): (hosts: set<Key>)
    requires n <= G.CLIENT_COUNT
    ensures |hosts| <= n && forall c: nat :: c < n ==> Host(V4(G.Client(c))) in hosts
  {
    if n == 0 then {} else ClientHosts(n - 1) + {Host(V4(G.Client(n - 1)))}
  }

  ghost function ServerHosts(n: nat): (hosts: set<Key>)
    requires n <= |G.SERVERS|
    ensures |hosts| <= n && forall s: nat :: s < n ==> Host(V4(G.SERVERS[s].ip)) in hosts
  {
    if n == 0 then {} else ServerHosts(n - 1) + {Host(V4(G.SERVERS[n - 1].ip))}
  }

  /** All 56 addresses that generated traffic goes to. */
  ghost function Hosts(): (hosts: set<Key>)
    ensures |hosts| <= 56
  {
    ClientHosts(G.CLIENT_COUNT) + ServerHosts(|G.SERVERS|) + {Host(V4(G.RESOLVER.ip))} + {Host(V4(G.SCAN_TARGET))}
  }

  // ---------------------------------------------------------------- what a rule sees of other traffic

  lemma QueryIsPlain(highEntropy: bytes -> bool, ts: u64, t: G.Traffic)
    requires G.Encodable(t) && t.Query? && t.dst == G.RESOLVER && |t.name| < 30
    ensures !IsTunnelLike(TunnelRule(highEntropy), PacketOf(ts, t))
  {
    hide G.Encode, Synth.DnsQueryPayload, DecodeDns, FitsDns;
    G.ShortNamesFit(t.id, t.name, t.qtype);
    ShortNames(t.name);
    PayloadDecodes(t.id, t.name, t.qtype);
  }

  lemma BackgroundHost(i: nat, t: G.Traffic)
    requires G.IsBackground(i, t)
    ensures Host(V4(Destination(t))) in Hosts()
  {
    hide G.Ip, G.Client, G.IsDomain, ClientHosts, ServerHosts;
  }

  /** Whatever is generated goes to one of 56 hosts. */
  lemma ScriptedHost(scenario: G.Scenario, i: nat, t: G.Traffic)
    requires G.Scripted(scenario, i, t)
    ensures Host(V4(Destination(t))) in Hosts()
  {
    hide G.Ip, G.IsBackground, ClientHosts, ServerHosts;
    if G.IsBackground(i, t) {
      BackgroundHost(i, t);
    }
  }

  lemma SweepEvent(highEntropy: bytes -> bool, ts: u64, t: G.Traffic)
    requires G.Encodable(t)
    ensures EventOf(SweepRule(highEntropy), PacketOf(ts, t)).Some?
            && EventOf(SweepRule(highEntropy), PacketOf(ts, t)).value.event.key == Host(V4(Destination(t)))
  {
    hide G.Encode, DecodeApp;
  }

  lemma NoAppIsPlain(highEntropy: bytes -> bool, p: Packet)
    requires p.app == NoApp
    ensures !IsTunnelLike(TunnelRule(highEntropy), p)
  {
  }

  lemma {:induction false} BackgroundIsNoTunnel(highEntropy: bytes -> bool, ts: u64, i: nat, t: G.Traffic)
    requires G.Encodable(t) && G.IsBackground(i, t)
    ensures EventOf(TunnelRule(highEntropy), PacketOf(ts, t)).None?
  {
    hide IsTunnelLike, PacketOf;
    if t.Query? {
      G.DomainsAreShort(t.name);
      QueryIsPlain(highEntropy, ts, t);
    } else {
      PacketFacts(ts, t);
      NoAppIsPlain(highEntropy, PacketOf(ts, t));
    }
  }

  /** The tunnel rule sees nothing but tunnel queries. */
  lemma {:induction false} ScriptedIsNoTunnel(highEntropy: bytes -> bool, scenario: G.Scenario, ts: u64, i: nat, t: G.Traffic)
    requires !scenario.DnsTunnel? && G.Encodable(t) && G.Scripted(scenario, i, t)
    ensures EventOf(TunnelRule(highEntropy), PacketOf(ts, t)).None?
  {
    hide IsTunnelLike, PacketOf, G.IsBackground;
    if G.IsBackground(i, t) {
      BackgroundIsNoTunnel(highEntropy, ts, i, t);
    } else {
      PacketFacts(ts, t);
      NoAppIsPlain(highEntropy, PacketOf(ts, t));
    }
  }

  lemma BackgroundIsNoScan(highEntropy: bytes -> bool, ts: u64, i: nat, t: G.Traffic)
    requires G.Encodable(t) && G.IsBackground(i, t)
    ensures EventOf(ScanRule(highEntropy), PacketOf(ts, t)).None?
  {
    hide G.Encode, DecodeApp;
  }

  /** Outside the port scan, the scan rule sees one port at most. */
  lemma {:induction false} ScriptedScanKey(highEntropy: bytes -> bool, scenario: G.Scenario, ts: u64, i: nat, t: G.Traffic)
    requires !scenario.PortScan? && G.Encodable(t) && G.Scripted(scenario, i, t)
    ensures var e := EventOf(ScanRule(highEntropy), PacketOf(ts, t));
            e.Some? ==> e.value.event.key in {Port(G.FLOOD_TARGET.port)}
  {
    hide G.Encode, DecodeApp, G.IsBackground;
    if G.IsBackground(i, t) {
      BackgroundIsNoScan(highEntropy, ts, i, t);
    }
  }

  // ---------------------------------------------------------------- whole runs

  ghost predicate IsRunOf(scenario: G.Scenario, frames: seq<G.Timed>, plan: seq<G.Traffic>) {
    G.Follows(frames, plan) && forall i :: 0 <= i < |plan| ==> G.Scripted(scenario, i, plan[i])
  }

  lemma RunAt(scenario: G.Scenario, frames: seq<G.Timed>, plan: seq<G.Traffic>, i: nat)
    requires IsRunOf(scenario, frames, plan) && i < |frames|
    ensures G.Encodable(plan[i]) && G.Scripted(scenario, i, plan[i])
    ensures PacketsOf(frames, plan)[i] == PacketOf(frames[i].0, plan[i])
  {
    hide G.Encode, G.Encodable, G.Scripted, PacketOf;
  }

  /** No scenario looks like a host sweep. */
  lemma {:induction false} NoSweeps(highEntropy: bytes -> bool, scenario: G.Scenario, frames: seq<G.Timed>, plan: seq<G.Traffic>)
    requires IsRunOf(scenario, frames, plan)
    ensures AlertsOf(SweepRule(highEntropy), PacketsOf(frames, plan)) == []
  {
    hide EventOf, PacketOf, G.Scripted, G.Encode, G.Spaced, Hosts;
    var packets := PacketsOf(frames, plan);
    forall i | 0 <= i < |packets| && EventOf(SweepRule(highEntropy), packets[i]).Some?
      ensures EventOf(SweepRule(highEntropy), packets[i]).value.event.key in Hosts()
    {
      RunAt(scenario, frames, plan, i);
      ScriptedHost(scenario, i, plan[i]);
      SweepEvent(highEntropy, frames[i].0, plan[i]);
    }
    FewKeysNoAlerts(SweepRule(highEntropy), packets, Hosts());
  }

  /** Nothing but the tunnel looks like one. */
  lemma {:induction false} NoTunnels(highEntropy: bytes -> bool, scenario: G.Scenario, frames: seq<G.Timed>, plan: seq<G.Traffic>)
    requires IsRunOf(scenario, frames, plan) && !scenario.DnsTunnel?
    ensures AlertsOf(TunnelRule(highEntropy), PacketsOf(frames, plan)) == []
  {
    hide EventOf, PacketOf, G.Scripted, G.Encode, G.Spaced;
    var packets := PacketsOf(frames, plan);
    forall i | 0 <= i < |packets|
      ensures EventOf(TunnelRule(highEntropy), packets[i]).None?
    {
      RunAt(scenario, frames, plan, i);
      ScriptedIsNoTunnel(highEntropy, scenario, frames[i].0, i, plan[i]);
    }
    NoEventsNoAlerts(TunnelRule(highEntropy), packets);
  }

  /** Nothing but the port scan looks like one, not even a flood of connection requests. */
  lemma {:induction false} NoScans(highEntropy: bytes -> bool, scenario: G.Scenario, frames: seq<G.Timed>, plan: seq<G.Traffic>)
    requires IsRunOf(scenario, frames, plan) && !scenario.PortScan?
    ensures AlertsOf(ScanRule(highEntropy), PacketsOf(frames, plan)) == []
  {
    hide EventOf, PacketOf, G.Scripted, G.Encode, G.Spaced;
    var packets := PacketsOf(frames, plan);
    forall i | 0 <= i < |packets| && EventOf(ScanRule(highEntropy), packets[i]).Some?
      ensures EventOf(ScanRule(highEntropy), packets[i]).value.event.key in {Port(G.FLOOD_TARGET.port)}
    {
      RunAt(scenario, frames, plan, i);
      ScriptedScanKey(highEntropy, scenario, frames[i].0, i, plan[i]);
    }
    FewKeysNoAlerts(ScanRule(highEntropy), packets, {Port(G.FLOOD_TARGET.port)});
  }
}
