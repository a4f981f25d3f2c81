/**
 * Attack traffic among everyday traffic: every fourth frame is a port probe or a tunnel query. What the rule that looks
 * for it (`rules/default.yaml`) makes of the run, for every seed and every length.
 */
module Injections {
  import opened Ints
  import opened Wrappers
  import opened PacketTypes
  import opened Names
  import opened Window
  import opened DnsParser
  import opened Parser
  import opened RuleSpec
  import opened BuiltinRules
  import opened RoundTrip
  import opened GeneratedPackets
  import opened QuietTraffic
  import Lru
  import Synth
  import G = Generator

  const COOLDOWN: u64 := 15_000_000

  /** What is injected, and how the rule that looks for it sees it. */
  datatype Injection = Probes(highEntropy: bytes -> bool) | Queries(highEntropy: bytes -> bool) {
    function Rule(): Rule {
      if Probes? then ScanRule(highEntropy) else TunnelRule(highEntropy)
    }

    function Src(): IpAddr {
      V4(if Probes? then G.SCANNER else G.TUNNEL_CLIENT.ip)
    }

    function KeyAt(j: nat): Key {
      if Probes? then Port(G.ScanPort(j)) else Tick
    }

    /** How many of them make an alert. */
    function Quota(): nat {
      if Probes? then 100 else 20
    }

    function First(): nat {
      4 * (Quota() - 1)
    }

    function EventAt(ts: u64, j: nat): SourceEvent {
      SourceEvent(Src(), Event(ts, KeyAt(j)))
    }
  }

  // ---------------------------------------------------------------- packets to rule events

  /** What the scenario looks like to the rule. */
  ghost predicate IsInjected(w: Injection, packets: seq<Packet>) {
    forall i :: 0 <= i < |packets| ==> IsInjectedAt(w, packets, i)
  }

  ghost predicate IsInjectedAt(w: Injection, packets: seq<Packet>, i: nat)
    requires i < |packets|
  {
    && EventOf(w.Rule(), packets[i]) == (if i % 4 == 0 then Some(w.EventAt(packets[i].ts, i / 4)) else None)
    && (i > 0 ==> packets[i - 1].ts < packets[i].ts <= packets[i - 1].ts + 2_000)
    && packets[i].ts + COOLDOWN <= U64_MAX
  }

  lemma ProbeIsSeen(highEntropy: bytes -> bool, ts: u64, i: nat, t: G.Traffic)
    requires G.Encodable(t) && G.Scripted(G.PortScan, i, t)
    ensures EventOf(ScanRule(highEntropy), PacketOf(ts, t))
            == if i % 4 == 0 then Some(Probes(highEntropy).EventAt(ts, i / 4)) else None
  {
    hide DecodeApp, G.Encode, G.ScanPort;
  }

  // ---------------------------------------------------------------- when the window reaches the threshold

  /** Successive injections: keys in order, each at most 8,000 microseconds after the one before. */
  ghost predicate IsInjectedHistory(w: Injection, h: seq<Event<Key>>) {
    && (forall j :: 0 <= j < |h| ==> h[j].key == w.KeyAt(j))
    && (forall j :: 0 < j < |h| ==> h[j - 1].ts < h[j].ts <= h[j - 1].ts + 8_000)
  }

  lemma {:induction false} InjectionsAreOrdered(w: Injection, h: seq<Event<Key>>, i: nat, j: nat)
    requires IsInjectedHistory(w, h) && i <= j < |h|
    ensures h[i].ts <= h[j].ts <= h[i].ts + 8_000 * (j - i)
    decreases j - i
  {
    if i == j {
    } else {
      InjectionsAreOrdered(w, h, i, j - 1);
    }
  }

  lemma InjectionsAreMonotone(w: Injection, h: seq<Event<Key>>)
    requires IsInjectedHistory(w, h)
    ensures Monotone(h)
  {
    forall i, j | 0 <= i <= j < |h|
      ensures h[i].ts <= h[j].ts
    {
      InjectionsAreOrdered(w, h, i, j);
    }
  }

  lemma PortsDiffer(i: nat, j: nat)
    requires i < j < i + 0xFFFF
    ensures G.ScanPort(i) != G.ScanPort(j)
  {
  }

  lemma KeysSnoc(h: seq<Event<Key>>, lo: nat, n: nat)
    requires lo <= n < |h|
    ensures KeysAt(h, Range(lo, n + 1)) == KeysAt(h, Range(lo, n)) + {h[n].key}
  {
  }

  lemma {:induction false} PortIsFresh(w: Injection, h: seq<Event<Key>>, lo: nat, n: nat)
    requires w.Probes? && IsInjectedHistory(w, h) && lo <= n < |h| && n - lo < 0xFFFF
    ensures h[n].key !in KeysAt(h, Range(lo, n))
  {
    forall i | lo <= i < n
      ensures h[i].key != h[n].key
    {
      PortsDiffer(i, n);
    }
  }

  /** A stretch of fewer than 65,535 probes shows as many ports as it has probes. */
  lemma {:induction false} DistinctPorts(w: Injection, h: seq<Event<Key>>, lo: nat, hi: nat)
    requires w.Probes? && IsInjectedHistory(w, h) && lo <= hi <= |h| && hi - lo < 0xFFFF
    ensures |KeysAt(h, Range(lo, hi))| == hi - lo
    decreases hi
  {
    hide *;
    if lo == hi {
      NoKeys(h, lo);
    } else {
      var n := hi - 1;
      DistinctPorts(w, h, lo, n);
      PortIsFresh(w, h, lo, n);
      KeysSnoc(h, lo, n);
    }
  }

  lemma {:induction false} NoKeys(h: seq<Event<Key>>, lo: nat)
    requires lo <= |h|
    ensures KeysAt(h, Range(lo, lo)) == {}
  {
  }

  lemma {:induction false} KeysAtMost(h: seq<Event<Key>>, n: nat)
    requires n <= |h|
    ensures |KeysAt(h, Range(0, n))| <= n
  {
    if n == 0 {
      NoKeys(h, 0);
    } else {
      KeysAtMost(h, n - 1);
      KeysSnoc(h, 0, n - 1);
    }
  }

  /** The newest injections, as many as make an alert, lie in the window. */
  lemma {:induction false} NewestAreRecent(w: Injection, h: seq<Event<Key>>)
    requires h != [] && IsInjectedHistory(w, h) && |h| >= w.Quota()
    ensures Range(|h| - w.Quota(), |h|) <= Recent(h, w.Rule().window)
  {
    forall i: nat | |h| - w.Quota() <= i < |h|
      ensures i in Recent(h, w.Rule().window)
    {
      InjectionsAreOrdered(w, h, i, |h| - 1);
    }
  }

  lemma MoreKeys(h: seq<Event<Key>>, few: set<nat>, many: set<nat>)
    requires few <= many && forall i :: i in many ==> i < |h|
    ensures |KeysAt(h, few)| <= |KeysAt(h, many)|
  {
    SubsetSize(KeysAt(h, few), KeysAt(h, many));
  }

  lemma FewShowLittle(rule: Rule, h: seq<Event<Key>>)
    requires h != []
    ensures InWindow(rule, h) <= |h|
  {
    var recent := Recent(h, rule.window);
    SubsetSize(recent, Range(0, |h|));
    MoreKeys(h, recent, Range(0, |h|));
    KeysAtMost(h, |h|);
  }

  lemma {:induction false} ManyPorts(w: Injection, h: seq<Event<Key>>, newest: set<nat>, recent: set<nat>)
    requires w.Probes? && IsInjectedHistory(w, h) && |h| >= w.Quota()
    requires newest == Range(|h| - w.Quota(), |h|)
    requires newest <= recent && forall i :: i in recent ==> i < |h|
    ensures |KeysAt(h, recent)| >= w.Quota()
  {
    hide *;
    QuotaIsSmall(w);
    DistinctPorts(w, h, |h| - w.Quota(), |h|);
    MoreKeys(h, newest, recent);
  }

  lemma QuotaIsSmall(w: Injection)
    ensures w.Quota() < 0xFFFF
  {
  }

  lemma {:induction false} ManyShow(w: Injection, h: seq<Event<Key>>)
    requires h != [] && IsInjectedHistory(w, h) && |h| >= w.Quota()
    ensures InWindow(w.Rule(), h) >= w.Quota()
  {
    hide IsInjectedHistory, KeysAt;
    var recent := Recent(h, w.Rule().window);
    NewestAreRecent(w, h);
    if w.Probes? {
      ManyPorts(w, h, Range(|h| - w.Quota(), |h|), recent);
    } else {
      SubsetSize(Range(|h| - w.Quota(), |h|), recent);
    }
  }

  /** From the hundredth probe on, or the twentieth query, and not before, the window reaches the rule's threshold. */
  lemma {:induction false} ReachesThresholdIff(w: Injection, h: seq<Event<Key>>)
    requires h != [] && IsInjectedHistory(w, h)
    ensures InWindow(w.Rule(), h) >= w.Rule().threshold <==> |h| >= w.Quota()
  {
    hide InWindow, IsInjectedHistory;
    FewShowLittle(w.Rule(), h);
    if |h| >= w.Quota() {
      ManyShow(w, h);
    }
  }

  // ---------------------------------------------------------------- what each packet raises

  /** The injections among the first `n` packets. */
  ghost function History(w: Injection, packets: seq<Packet>, n: nat): seq<Event<Key>>
    requires n <= |packets|
  {
    HistoryOf(w.Rule(), packets[..n], w.Src())
  }

  lemma {:induction false} HistorySnoc(w: Injection, packets: seq<Packet>, n: nat)
    requires IsInjected(w, packets) && n < |packets|
    ensures var added := if n % 4 == 0 then [w.EventAt(packets[n].ts, n / 4)] else [];
            && EventsOf(w.Rule(), packets[..n + 1]) == EventsOf(w.Rule(), packets[..n]) + added
            && History(w, packets, n + 1)
               == History(w, packets, n) + if n % 4 == 0 then [w.EventAt(packets[n].ts, n / 4).event] else []
  {
    TakeTake(packets, n + 1);
    assert IsInjectedAt(w, packets, n);
    var es := EventsOf(w.Rule(), packets[..n]);
    if n % 4 == 0 {
      EventsSnoc(w.Rule(), es, w.EventAt(packets[n].ts, n / 4));
    } else {
      assert es + [] == es;
    }
  }

  /** The source's history is its injections in order. */
  lemma {:induction false} HistoryIsInjected(w: Injection, packets: seq<Packet>, n: nat)
    requires IsInjected(w, packets) && n <= |packets|
    ensures IsInjectedHistory(w, History(w, packets, n)) && |History(w, packets, n)| == G.ProbesBefore(n)
    ensures n > 0 ==> History(w, packets, n)[|History(w, packets, n)| - 1].ts == packets[(n - 1) / 4 * 4].ts
  {
    hide History, EventsOf, IsInjected, IsInjectedHistory;
    if n > 0 {
      HistoryIsInjected(w, packets, n - 1);
      HistorySnoc(w, packets, n - 1);
      if (n - 1) % 4 == 0 {
        FourApart(w, packets, n - 1);
        InjectionAppended(w, History(w, packets, n - 1), packets[n - 1].ts);
      } else {
        assert History(w, packets, n) == History(w, packets, n - 1);
      }
    } else {
      NoHistory(w, packets);
    }
  }

  lemma InjectionAppended(w: Injection, h: seq<Event<Key>>, ts: u64)
    requires IsInjectedHistory(w, h)
    requires h != [] ==> h[|h| - 1].ts < ts <= h[|h| - 1].ts + 8_000
    ensures IsInjectedHistory(w, h + [w.EventAt(ts, |h|).event])
  {
    hide G.ScanPort;
  }

  lemma NoHistory(w: Injection, packets: seq<Packet>)
    ensures History(w, packets, 0) == [] && IsInjectedHistory(w, [])
  {
    assert packets[..0] == [];
  }

  /** No other source produces events. */
  lemma {:induction false} OnlySourceEvents(w: Injection, packets: seq<Packet>, n: nat)
    requires IsInjected(w, packets) && n <= |packets|
    ensures forall s :: s in Srcs(EventsOf(w.Rule(), packets[..n])) ==> s == w.Src()
  {
    if n > 0 {
      OnlySourceEvents(w, packets, n - 1);
      HistorySnoc(w, packets, n - 1);
      var es := EventsOf(w.Rule(), packets[..n - 1]);
      if (n - 1) % 4 == 0 {
        assert Srcs(es + [w.EventAt(packets[n - 1].ts, (n - 1) / 4)]) == Srcs(es) + [w.Src()];
      } else {
        assert es + [] == es;
      }
    } else {
      assert packets[..0] == [];
    }
  }

  lemma FourApart(w: Injection, packets: seq<Packet>, i: nat)
    requires IsInjected(w, packets) && i < |packets| && i % 4 == 0
    ensures i > 0 ==> packets[i - 4].ts < packets[i].ts <= packets[i - 4].ts + 8_000 && (i - 1) / 4 * 4 == i - 4
  {
    hide EventOf;
    if i > 0 {
      assert IsInjectedAt(w, packets, i) && IsInjectedAt(w, packets, i - 1);
      assert IsInjectedAt(w, packets, i - 2) && IsInjectedAt(w, packets, i - 3);
    }
  }

  lemma {:induction false} OnlySourceStaysTracked(events: seq<SourceEvent>, src: IpAddr)
    requires forall s :: s in Srcs(events) ==> s == src
    ensures StaysTracked(events, src)
  {
    forall n | 0 <= n < |events| && events[n].src == src
      ensures Lru.Since(Srcs(events[..n]), src) == {}
    {
      if n > 0 {
        assert Srcs(events)[n - 1] in Srcs(events);
        assert Srcs(events[..n])[n - 1] == src;
      }
    }
  }

  /** The time of the last alert before packet `n`, if any. */
  ghost function LastFired(w: Injection, packets: seq<Packet>, n: nat): Option<u64>
    requires n <= |packets|
  {
    SourceAfter(w.Rule(), History(w, packets, n)).lastFired
  }

  /** Such a history alerts from its hundredth probe or twentieth query on, unless the rule is cooling down. */
  lemma {:induction false} InjectedHistoryAlerts(w: Injection, h: seq<Event<Key>>)
    requires h != [] && IsInjectedHistory(w, h)
    ensures var before, ts := h[..|h| - 1], h[|h| - 1].ts;
            && (SourceAlert(w.Rule(), h).Some? <==> |h| >= w.Quota() && !CoolingDown(w.Rule(), SourceAfter(w.Rule(), before).lastFired, ts))
            && SourceAfter(w.Rule(), h).lastFired
               == if SourceAlert(w.Rule(), h).Some? then Some(ts) else SourceAfter(w.Rule(), before).lastFired
  {
    hide SourceAlert, InWindow, SourceAfter, SourceStep, CoolingDown, TooSoon;
    var before, last := h[..|h| - 1], h[|h| - 1];
    assert h == before + [last] && IsInjectedHistory(w, before);
    InjectionsAreMonotone(w, h);
    MonotoneIsSettled(h, w.Rule().window);
    AlertUnfolds(w.Rule(), h);
    CooldownMeaning(w.Rule(), before, last.ts);
    ReachesThresholdIff(w, h);
    SourceSnoc(w.Rule(), before, last);
    FiredStep(w.Rule(), SourceAfter(w.Rule(), before), last);
  }

  /** An injection's alert is that of its source's history, and no other packet alerts. */
  lemma {:induction false} AlertOfPacket(w: Injection, packets: seq<Packet>, n: nat)
    requires IsInjected(w, packets) && n < |packets|
    ensures var raised, h := LastAlert(w.Rule(), packets[..n + 1]), History(w, packets, n + 1);
            if n % 4 == 0 then
              && h != [] && (raised.Some? <==> SourceAlert(w.Rule(), h).Some?)
              && (raised.Some? ==> raised.value.ts == packets[n].ts && raised.value.src == w.Src())
            else raised.None? && h == History(w, packets, n)
  {
    hide LastAlert, SourceAlert, StaysTracked, EventOf, EventsOf;
    var run := packets[..n + 1];
    TakeTake(packets, n + 1);
    AnyInjectedAt(w, packets, n);
    HistorySnoc(w, packets, n);
    if n % 4 == 0 {
      OnlySourceEvents(w, packets, n + 1);
      OnlySourceStaysTracked(EventsOf(w.Rule(), run), w.Src());
      LastAlertTime(w.Rule(), run, w.EventAt(packets[n].ts, n / 4), w.Src());
    } else {
      NoEventNoAlert(w.Rule(), run);
    }
  }

  /** Packet `n` alerts exactly if it is an injection, enough went before, and no alert is less than 15 s old. */
  lemma {:induction false} PacketRaises(w: Injection, packets: seq<Packet>, n: nat)
    requires IsInjected(w, packets) && n < |packets|
    ensures var raised := LastAlert(w.Rule(), packets[..n + 1]);
            && (raised.Some? <==> n % 4 == 0 && n >= w.First() && !CoolingDown(w.Rule(), LastFired(w, packets, n), packets[n].ts))
            && (raised.Some? ==> raised.value.ts == packets[n].ts && raised.value.src == w.Src())
            && LastFired(w, packets, n + 1) == if raised.Some? then Some(packets[n].ts) else LastFired(w, packets, n)
  {
    hide LastAlert, SourceAlert, SourceAfter, CoolingDown, History, IsInjectedHistory, IsInjected;
    AlertOfPacket(w, packets, n);
    if n % 4 == 0 {
      var h := History(w, packets, n + 1);
      HistorySnoc(w, packets, n);
      HistoryIsInjected(w, packets, n + 1);
      assert h[..|h| - 1] == History(w, packets, n);
      InjectedHistoryAlerts(w, h);
      assert G.ProbesBefore(n + 1) == n / 4 + 1;
    }
  }

  lemma FiredStep(rule: Rule, v: SourceView, e: Event<Key>)
    ensures SourceStep(rule, v, e).0.lastFired == if SourceStep(rule, v, e).1.Some? then Some(e.ts) else v.lastFired
  {
  }

  // ---------------------------------------------------------------- the alerts of a run

  function Times(packets: seq<Packet>): (times: seq<nat>)
    ensures |times| == |packets|
    ensures forall i :: 0 <= i < |packets| ==> times[i] == packets[i].ts
  {
    seq(|packets|, i requires 0 <= i < |packets| => packets[i].ts)
  }

  /**
   * The first alert comes with the hundredth probe or the twentieth query, and then one with the first injection after
   * each cooldown, until the run ends after `n` packets.
   */
  ghost predicate IsTimeline(w: Injection, times: seq<nat>, n: nat, alerts: seq<(nat, Alert)>)
    requires n <= |times|
  {
    && (alerts == [] <==> n <= w.First())
    && (alerts != [] ==> alerts[0].0 == w.First())
    && AreInjectionAlerts(w, times, n, alerts)
    && AreSpaced(times, alerts)
    && (alerts != [] ==> AllCooling(times, n, alerts[|alerts| - 1]))
  }

  ghost predicate AreInjectionAlerts(w: Injection, times: seq<nat>, n: nat, alerts: seq<(nat, Alert)>)
    requires n <= |times|
  {
    forall k :: 0 <= k < |alerts| ==>
      && alerts[k].0 < n && alerts[k].0 % 4 == 0
      && alerts[k].1.src == w.Src() && alerts[k].1.ts == times[alerts[k].0]
  }

  ghost predicate AreSpaced(times: seq<nat>, alerts: seq<(nat, Alert)>) {
    forall k :: 0 < k < |alerts| ==> Follows(times, alerts[k - 1], alerts[k])
  }

  /** The alert comes with the first injection that no longer falls into the cooldown of the one before. */
  ghost predicate Follows(times: seq<nat>, before: (nat, Alert), alert: (nat, Alert)) {
    && before.0 < alert.0 <= |times|
    && COOLDOWN <= alert.1.ts - before.1.ts < COOLDOWN + 8_000
    && AllCooling(times, alert.0, before)
  }

  /** Every injection after this alert, before packet `n`, still falls into its cooldown. */
  ghost predicate AllCooling(times: seq<nat>, n: nat, last: (nat, Alert))
    requires n <= |times|
  {
    forall i :: last.0 < i < n && i % 4 == 0 ==> times[i] < last.1.ts + COOLDOWN
  }

  lemma TimelineStep(w: Injection, packets: seq<Packet>, n: nat, alerts: seq<(nat, Alert)>)
    requires IsInjected(w, packets) && n < |packets|
    requires IsTimeline(w, Times(packets), n, alerts)
    requires LastFired(w, packets, n) == if alerts == [] then None else Some(alerts[|alerts| - 1].1.ts)
    ensures var raised := LastAlert(w.Rule(), packets[..n + 1]);
            IsTimeline(w, Times(packets), n + 1, if raised.Some? then alerts + [(n, raised.value)] else alerts)
  {
    hide LastAlert, LastFired, IsInjected, IsTimeline, Times;
    PacketRaises(w, packets, n);
    var raised := LastAlert(w.Rule(), packets[..n + 1]);
    NoSaturation(w, packets, n, alerts);
    if n % 4 == 0 {
      FourApart(w, packets, n);
    }
    if raised.Some? {
      TimelineGrows(w, Times(packets), n, alerts, raised.value);
    } else {
      TimelineStays(w, Times(packets), n, alerts);
    }
  }

  lemma NoSaturation(w: Injection, packets: seq<Packet>, n: nat, alerts: seq<(nat, Alert)>)
    requires IsInjected(w, packets) && n < |packets| && IsTimeline(w, Times(packets), n, alerts)
    ensures alerts != [] ==> alerts[|alerts| - 1].1.ts + COOLDOWN <= U64_MAX
    ensures alerts == [] <==> n <= w.First()
  {
    if alerts != [] {
      AnyInjectedAt(w, packets, alerts[|alerts| - 1].0);
    }
  }

  lemma TimelineGrows(w: Injection, times: seq<nat>, n: nat, alerts: seq<(nat, Alert)>, raised: Alert)
    requires n < |times| && IsTimeline(w, times, n, alerts) && n % 4 == 0 && n >= w.First()
    requires raised.src == w.Src() && raised.ts == times[n]
    requires times[n] <= times[n - 4] + 8_000
    requires alerts != [] ==> times[n] >= alerts[|alerts| - 1].1.ts + COOLDOWN
    ensures IsTimeline(w, times, n + 1, alerts + [(n, raised)])
  {
    hide AreSpaced;
    if alerts == [] {
      FirstIsSpaced(times, (n, raised));
      assert [] + [(n, raised)] == [(n, raised)];
    } else {
      SpacedGrows(times, n, alerts, raised);
    }
  }

  lemma FirstIsSpaced(times: seq<nat>, first: (nat, Alert))
    ensures AreSpaced(times, [first])
  {
  }

  lemma SpacedGrows(times: seq<nat>, n: nat, alerts: seq<(nat, Alert)>, raised: Alert)
    requires alerts != [] && n < |times| && AreSpaced(times, alerts) && n % 4 == 0 && n >= 4
    requires var last := alerts[|alerts| - 1];
             last.0 < n && last.0 % 4 == 0 && last.1.ts == times[last.0] && AllCooling(times, n, last)
             && times[n] >= last.1.ts + COOLDOWN
    requires raised.ts == times[n] <= times[n - 4] + 8_000
    ensures AreSpaced(times, alerts + [(n, raised)])
  {
    hide Follows;
    NextFollows(times, n, alerts[|alerts| - 1], raised);
  }

  lemma NextFollows(times: seq<nat>, n: nat, last: (nat, Alert), raised: Alert)
    requires n < |times| && n % 4 == 0 && n >= 4
    requires last.0 < n && last.0 % 4 == 0 && last.1.ts == times[last.0] && AllCooling(times, n, last)
    requires times[n] >= last.1.ts + COOLDOWN
    requires raised.ts == times[n] <= times[n - 4] + 8_000
    ensures Follows(times, last, (n, raised))
  {
    assert last.0 <= n - 4 && (n - 4) % 4 == 0;
  }

  lemma TimelineStays(w: Injection, times: seq<nat>, n: nat, alerts: seq<(nat, Alert)>)
    requires n < |times| && IsTimeline(w, times, n, alerts)
    requires alerts == [] ==> n % 4 != 0 || n < w.First()
    requires n % 4 == 0 && alerts != [] ==> times[n] < alerts[|alerts| - 1].1.ts + COOLDOWN
    ensures IsTimeline(w, times, n + 1, alerts)
  {
  }

  lemma AnyInjectedAt(w: Injection, packets: seq<Packet>, i: nat)
    requires IsInjected(w, packets) && i < |packets|
    ensures IsInjectedAt(w, packets, i)
  {
  }

  /** The rule's alerts over every run, up to any packet. */
  lemma {:induction false} InjectionTimeline(w: Injection, packets: seq<Packet>, n: nat)
    requires IsInjected(w, packets) && n <= |packets|
    ensures var alerts := AlertsOf(w.Rule(), packets[..n]);
            && IsTimeline(w, Times(packets), n, alerts)
            && LastFired(w, packets, n) == if alerts == [] then None else Some(alerts[|alerts| - 1].1.ts)
  {
    hide IsTimeline, IsInjected, AlertsOf, LastAlert, LastFired, Times;
    if n == 0 {
      EmptyTimeline(w, packets);
    } else {
      InjectionTimeline(w, packets, n - 1);
      AlertsSnoc(w.Rule(), packets, n - 1);
      TimelineStep(w, packets, n - 1, AlertsOf(w.Rule(), packets[..n - 1]));
      PacketRaises(w, packets, n - 1);
    }
  }

  lemma {:induction false} EmptyTimeline(w: Injection, packets: seq<Packet>)
    ensures AlertsOf(w.Rule(), packets[..0]) == [] && IsTimeline(w, Times(packets), 0, []) && LastFired(w, packets, 0) == None
  {
    assert packets[..0] == [];
  }

  // ---------------------------------------------------------------- generated runs

  /** Clock values of a run of this length never saturate a cooldown. */
  predicate FitsCooldown(packets: nat) {
    G.START_TS + packets * G.MAX_GAP + COOLDOWN <= U64_MAX
  }

  lemma {:induction false} ClockIsBounded(frames: seq<G.Timed>, plan: seq<G.Traffic>, i: nat)
    requires G.Follows(frames, plan) && i < |frames|
    ensures frames[i].0 <= G.START_TS + (i + 1) * G.MAX_GAP
  {
    hide G.Encode, G.Encodable;
    assert G.Spaced(frames, i);
    if i == 0 {
    } else {
      ClockIsBounded(frames, plan, i - 1);
    }
  }

  lemma GeneratedTimes(frames: seq<G.Timed>, plan: seq<G.Traffic>, i: nat)
    requires G.Follows(frames, plan) && FitsCooldown(|frames|) && i < |frames|
    ensures frames[i].0 + COOLDOWN <= U64_MAX
    ensures i > 0 ==> frames[i - 1].0 < frames[i].0 <= frames[i - 1].0 + 2_000
  {
    hide G.Encode, G.Encodable;
    ClockIsBounded(frames, plan, i);
    FewerGaps(i + 1, |frames|);
    assert G.Spaced(frames, i);
  }

  lemma FewerGaps(i: nat, n: nat)
    requires i <= n
    ensures i * G.MAX_GAP <= n * G.MAX_GAP
  {
  }

  /** The label that a tunnel query hides its payload in. */
  function LongLabel(t: G.Traffic): bytes {
    if t.Query? && |t.name| >= G.TUNNEL_LABEL_LEN then t.name[..G.TUNNEL_LABEL_LEN] else []
  }

  lemma TunnelQueryDecodes(ts: u64, i: nat, t: G.Traffic)
    requires G.IsTunnelQuery(i, t) && G.Encodable(t)
    ensures PacketOf(ts, t).app == Dns(QueryInfo(t.id, t.name, t.qtype))
  {
    hide G.Encode, G.Ascii, Synth.DnsQueryPayload, Synth.QueryLabels, DecodeDns, FitsDns, QueryInfo, G.TunnelName;
    var text :| G.IsTunnelLabel(text) && t.name == G.TunnelName(text);
    G.ShortNamesFit(t.id, t.name, t.qtype);
    TunnelNameReturns(text);
    PayloadDecodes(t.id, t.name, t.qtype);
    PayloadParts(t.id, t.name, t.qtype);
  }

  lemma TunnelQueryFacts(ts: u64, i: nat, t: G.Traffic)
    requires G.IsTunnelQuery(i, t) && G.Encodable(t)
    ensures var p := PacketOf(ts, t);
            p.ip.Some? && p.ip.value.src == V4(G.TUNNEL_CLIENT.ip) && p.ts == ts
  {
    hide G.Encode, G.Ascii, Synth.DnsQueryPayload, DecodeApp, G.IsTunnelLabel, G.TunnelName;
  }

  lemma LongLabelIs(text: bytes, t: G.Traffic)
    requires G.IsTunnelLabel(text) && t.Query? && t.name == G.TunnelName(text)
    ensures LongLabel(t) == text && |text| == G.TUNNEL_LABEL_LEN
  {
  }

  /** Of a name's labels, only the long one counts. */
  lemma {:induction false} TunnelLikeIff(rule: Rule, p: Packet, text: bytes)
    requires p.app.Dns? && !p.app.info.isResponse && p.app.info.question.Some? && 19 < rule.minLabelLen <= |text|
    requires var parts := SplitDots(p.app.info.question.value.name);
             text in parts && forall part :: part in parts ==> part == text || |part| <= 19
    ensures IsTunnelLike(rule, p) <==> rule.highEntropy(text)
  {
    hide SplitDots;
  }

  /** The tunnel rule sees a tunnel query exactly if its random label has high entropy. */
  lemma {:induction false} QueryIsSeenIff(highEntropy: bytes -> bool, ts: u64, i: nat, t: G.Traffic)
    requires G.IsTunnelQuery(i, t) && G.Encodable(t)
    ensures EventOf(TunnelRule(highEntropy), PacketOf(ts, t))
            == if highEntropy(LongLabel(t)) then Some(Queries(highEntropy).EventAt(ts, i / 4)) else None
  {
    hide PacketOf, SplitDots, QueryName, IsTunnelLike, LongLabel, G.IsTunnelLabel, G.TunnelName;
    var text :| G.IsTunnelLabel(text) && t.name == G.TunnelName(text);
    TunnelQueryDecodes(ts, i, t);
    TunnelQueryFacts(ts, i, t);
    TunnelNameReturns(text);
    LongLabelIs(text, t);
    TunnelLikeIff(TunnelRule(highEntropy), PacketOf(ts, t), text);
  }

  /** What a scenario must be for its injections to be seen by the rule that looks for them: for queries, by their labels. */
  ghost predicate AllSeen(w: Injection, plan: seq<G.Traffic>) {
    w.Queries? ==> forall i :: 0 <= i < |plan| && i % 4 == 0 ==> w.highEntropy(LongLabel(plan[i]))
  }

  function ScenarioOf(w: Injection): G.Scenario {
    if w.Probes? then G.PortScan else G.DnsTunnel
  }

  lemma {:induction false} InjectionIsSeen(w: Injection, ts: u64, i: nat, t: G.Traffic)
    requires G.Encodable(t) && G.Scripted(ScenarioOf(w), i, t)
    requires w.Queries? && i % 4 == 0 ==> w.highEntropy(LongLabel(t))
    ensures EventOf(w.Rule(), PacketOf(ts, t)) == if i % 4 == 0 then Some(w.EventAt(ts, i / 4)) else None
  {
    hide EventOf, PacketOf, G.IsTunnelQuery, G.IsBackground, G.Encodable, LongLabel, ScanRule, TunnelRule;
    if w.Probes? {
      ProbeIsSeen(w.highEntropy, ts, i, t);
    } else if i % 4 == 0 {
      QueryIsSeenIff(w.highEntropy, ts, i, t);
    } else {
      BackgroundIsNoTunnel(w.highEntropy, ts, i, t);
    }
  }

  lemma {:induction false} GeneratedAt(w: Injection, frames: seq<G.Timed>, plan: seq<G.Traffic>, i: nat)
    requires G.Follows(frames, plan) && FitsCooldown(|frames|) && i < |frames|
    requires G.Scripted(ScenarioOf(w), i, plan[i]) && AllSeen(w, plan)
    ensures IsInjectedAt(w, PacketsOf(frames, plan), i)
  {
    hide EventOf, PacketOf, G.Encode, G.Scripted, FitsCooldown, LongLabel;
    GeneratedTimes(frames, plan, i);
    InjectionIsSeen(w, frames[i].0, i, plan[i]);
    PacketTime(frames[i].0, plan[i]);
    if i > 0 {
      PacketTime(frames[i - 1].0, plan[i - 1]);
    }
  }

  lemma {:induction false} GeneratedIsInjected(w: Injection, frames: seq<G.Timed>, plan: seq<G.Traffic>)
    requires G.Follows(frames, plan) && FitsCooldown(|frames|) && AllSeen(w, plan)
    requires forall i :: 0 <= i < |plan| ==> G.Scripted(ScenarioOf(w), i, plan[i])
    ensures IsInjected(w, PacketsOf(frames, plan))
  {
    hide IsInjectedAt, G.Scripted, G.Encode, PacketOf, AllSeen;
    forall i | 0 <= i < |frames|
      ensures IsInjectedAt(w, PacketsOf(frames, plan), i)
    {
      GeneratedAt(w, frames, plan, i);
    }
  }

}
