/**
 * Detection rules (`rules/engine.rs`) as functions on values, and the theorem the engine exists for:
 * the bounded, incremental state of a rule raises an alert exactly when a condition over the whole
 * packet history holds.
 */
module RuleSpec {
  import opened Ints
  import opened Wrappers
  import opened PacketTypes
  import opened Window
  import opened Lru
  import opened Names

  const MAX_TRACKED_SOURCES: nat := 10_000

  datatype Kind = PortScan | HostSweep | DnsTunnel | PacketRate
  datatype Severity = Low | Medium | High | Critical

  /** `highEntropy` stands for the floating-point entropy test on one DNS label. */
  datatype Rule = Rule(
    id: string,
    kind: Kind,
    severity: Severity,
    window: u64,
    threshold: u32,
    cooldown: u64,
    minLabelLen: nat,
    highEntropy: bytes -> bool
  )

  datatype Key = Port(port: u16) | Host(host: IpAddr) | Tick
  datatype SourceEvent = SourceEvent(src: IpAddr, event: Event<Key>)
  datatype Alert = Alert(ts: u64, ruleId: string, severity: Severity, src: IpAddr, observed: nat)

  // ---------------------------------------------------------------- which packets count

  predicate IsTunnelLike(rule: Rule, packet: Packet) {
    && packet.app.Dns?
    && !packet.app.info.isResponse
    && packet.app.info.question.Some?
    && exists part | part in SplitDots(packet.app.info.question.value.name) ::
         |part| >= rule.minLabelLen && rule.highEntropy(part)
  }

  function EventKey(rule: Rule, packet: Packet, dst: IpAddr): Option<Key> {
    match rule.kind
    case PortScan =>
      if packet.transport.Tcp? && packet.transport.tcp.IsSynOnly() then Some(Port(packet.transport.tcp.dstPort)) else None
    case HostSweep => Some(Host(dst))
    case PacketRate => Some(Tick)
    case DnsTunnel => if IsTunnelLike(rule, packet) then Some(Tick) else None
  }

  function EventOf(rule: Rule, packet: Packet): Option<SourceEvent> {
    if packet.ip.None? then None
    else
      var key := EventKey(rule, packet, packet.ip.value.dst);
      if key.None? then None else Some(SourceEvent(packet.ip.value.src, Event(packet.ts, key.value)))
  }

  predicate CountsDistinct(rule: Rule) {
    rule.kind.PortScan? || rule.kind.HostSweep?
  }

  function Measure(rule: Rule, events: seq<Event<Key>>): nat {
    if CountsDistinct(rule) then |KeySet(events)| else |events|
  }

  // ---------------------------------------------------------------- one source

  datatype SourceView = SourceView(events: seq<Event<Key>>, lastFired: Option<u64>)

  const UNSEEN: SourceView := SourceView([], None)

  predicate CoolingDown(rule: Rule, lastFired: Option<u64>, ts: u64) {
    lastFired.Some? && ts < SatAdd(lastFired.value, rule.cooldown)
  }

  /** One event of one source: its next state and, if it alerts, the observed count. */
  function SourceStep(rule: Rule, v: SourceView, e: Event<Key>): (SourceView, Option<nat>) {
    var events := AddEvent(v.events, e, rule.window);
    var observed := Measure(rule, events);
    if observed < rule.threshold || CoolingDown(rule, v.lastFired, e.ts) then
      (SourceView(events, v.lastFired), None)
    else
      (SourceView(events, Some(e.ts)), Some(observed))
  }

  function SourceAfter(rule: Rule, history: seq<Event<Key>>): SourceView {
    if history == [] then UNSEEN
    else SourceStep(rule, SourceAfter(rule, history[..|history| - 1]), history[|history| - 1]).0
  }

  /** Whether the newest event of the history alerts, and with which count. */
  function SourceAlert(rule: Rule, history: seq<Event<Key>>): Option<nat>
    requires history != []
  {
    SourceStep(rule, SourceAfter(rule, history[..|history| - 1]), history[|history| - 1]).1
  }

  // ---------------------------------------------------------------- all tracked sources

  type Sources = seq<(IpAddr, SourceView)>

  function RuleStep(rule: Rule, sources: Sources, e: SourceEvent): (Sources, Option<nat>) {
    var found := Lookup(sources, e.src);
    var (v, observed) := SourceStep(rule, if found.Some? then found.value else UNSEEN, e.event);
    (Put(sources, MAX_TRACKED_SOURCES, e.src, v), observed)
  }

  function Evaluate(rule: Rule, sources: Sources, packet: Packet): (Sources, Option<Alert>) {
    var e := EventOf(rule, packet);
    if e.None? then (sources, None)
    else
      var (after, observed) := RuleStep(rule, sources, e.value);
      (after, if observed.None? then None
              else Some(Alert(packet.ts, rule.id, rule.severity, e.value.src, observed.value)))
  }

  function SourcesAfter(rule: Rule, packets: seq<Packet>): Sources {
    if packets == [] then []
    else Evaluate(rule, SourcesAfter(rule, packets[..|packets| - 1]), packets[|packets| - 1]).0
  }

  /** The alert, if any, that the last packet of a run raises. */
  function LastAlert(rule: Rule, packets: seq<Packet>): Option<Alert>
    requires packets != []
  {
    Evaluate(rule, SourcesAfter(rule, packets[..|packets| - 1]), packets[|packets| - 1]).1
  }

  // ---------------------------------------------------------------- several rules

  type RuleStates = seq<(Rule, Sources)>

  /** All rules see the packet, in order; their alerts are collected in the same order. */
  function EvaluateAll(rules: RuleStates, p: Packet): (RuleStates, seq<Alert>) {
    if rules == [] then ([], [])
    else
      var (sources, alert) := Evaluate(rules[0].0, rules[0].1, p);
      var (rest, alerts) := EvaluateAll(rules[1..], p);
      ([(rules[0].0, sources)] + rest, (if alert.Some? then [alert.value] else []) + alerts)
  }

  lemma {:induction false} EvaluateAllOne(last: (Rule, Sources), p: Packet)
    ensures var (sources, alert) := Evaluate(last.0, last.1, p);
            EvaluateAll([last], p) == ([(last.0, sources)], if alert.Some? then [alert.value] else [])
  {
    hide Evaluate;
    var rules := [last];
    assert rules[1..] == [] && rules[0] == last;
    var (sources, alert) := Evaluate(last.0, last.1, p);
    var raised := if alert.Some? then [alert.value] else [];
    assert raised + [] == raised && [(last.0, sources)] + [] == [(last.0, sources)];
  }

  lemma {:induction false} EvaluateAllSnoc(rules: RuleStates, last: (Rule, Sources), p: Packet)
    ensures var (states, alerts) := EvaluateAll(rules, p);
            var (sources, alert) := Evaluate(last.0, last.1, p);
            EvaluateAll(rules + [last], p) == (states + [(last.0, sources)], alerts + if alert.Some? then [alert.value] else [])
  {
    hide Evaluate;
    if rules == [] {
      EvaluateAllOne(last, p);
      assert rules + [last] == [last];
      var (sources, alert) := Evaluate(last.0, last.1, p);
      var (states, alerts) := EvaluateAll(rules, p);
      assert states + [(last.0, sources)] == [(last.0, sources)];
      assert alerts + (if alert.Some? then [alert.value] else []) == if alert.Some? then [alert.value] else [];
    } else {
      assert (rules + [last])[1..] == rules[1..] + [last];
      EvaluateAllSnoc(rules[1..], last, p);
      var (states, alerts) := EvaluateAll(rules[1..], p);
      var (first, raised) := Evaluate(rules[0].0, rules[0].1, p);
      var (sources, alert) := Evaluate(last.0, last.1, p);
      var a, z := if raised.Some? then [raised.value] else [], if alert.Some? then [alert.value] else [];
      assert [(rules[0].0, first)] + (states + [(last.0, sources)]) == [(rules[0].0, first)] + states + [(last.0, sources)];
      assert a + (alerts + z) == a + alerts + z;
    }
  }

  // ---------------------------------------------------------------- a rule's history

  function EventsOf(rule: Rule, packets: seq<Packet>): seq<SourceEvent> {
    if packets == [] then []
    else
      var e := EventOf(rule, packets[|packets| - 1]);
      EventsOf(rule, packets[..|packets| - 1]) + if e.Some? then [e.value] else []
  }

  function Srcs(events: seq<SourceEvent>): (srcs: seq<IpAddr>)
    ensures |srcs| == |events|
    ensures forall i :: 0 <= i < |events| ==> srcs[i] == events[i].src
  {
    seq(|events|, i requires 0 <= i < |events| => events[i].src)
  }

  /** One source's own events. */
  function Project(events: seq<SourceEvent>, src: IpAddr): seq<Event<Key>> {
    if events == [] then []
    else
      var e := events[|events| - 1];
      Project(events[..|events| - 1], src) + if e.src == src then [e.event] else []
  }

  // ---------------------------------------------------------------- the declarative condition

  /** How much the newest events of the closed window hold: distinct keys, or events. */
  ghost function InWindow(rule: Rule, history: seq<Event<Key>>): nat
    requires history != []
  {
    var recent := Recent(history, rule.window);
    if CountsDistinct(rule) then |KeysAt(history, recent)| else |recent|
  }

  /**
   * The newest event alerts exactly when the window reaches the threshold and every earlier alert of
   * the source is at least one cooldown old.
   */
  ghost predicate ShouldAlert(rule: Rule, history: seq<Event<Key>>)
    requires history != []
    decreases |history|
  {
    && InWindow(rule, history) >= rule.threshold
    && forall j {:trigger history[..j]} :: 0 < j < |history| && ShouldAlert(rule, history[..j]) ==>
         history[|history| - 1].ts >= SatAdd(history[j - 1].ts, rule.cooldown)
  }

  /** Whenever the source produces an event again, fewer than 10,000 other sources have since its previous one. */
  ghost predicate StaysTracked(events: seq<SourceEvent>, src: IpAddr) {
    forall n :: 0 <= n < |events| && events[n].src == src && src in Srcs(events[..n]) ==>
      |Since(Srcs(events[..n]), src)| < 10_000
  }

  /** The source has produced events, and fewer than 10,000 others have since its last one. */
  ghost predicate IsTracked(events: seq<SourceEvent>, src: IpAddr) {
    src in Srcs(events) && |Since(Srcs(events), src)| < 10_000
  }

  /** The source's own events since it was last found untracked. */
  ghost function SinceEntry(events: seq<SourceEvent>, src: IpAddr): seq<Event<Key>> {
    if events == [] then []
    else
      var before, e := events[..|events| - 1], events[|events| - 1];
      if e.src != src then SinceEntry(before, src)
      else (if IsTracked(before, src) then SinceEntry(before, src) else []) + [e.event]
  }

  // ---------------------------------------------------------------- one source is exact

  lemma {:induction false} SourceHoldsWindow(rule: Rule, history: seq<Event<Key>>)
    ensures SourceAfter(rule, history).events == Run(history, rule.window)
  {
    if history == [] {
    } else {
      SourceHoldsWindow(rule, history[..|history| - 1]);
    }
  }

  lemma {:induction false} SourceMeasuresWindow(rule: Rule, history: seq<Event<Key>>)
    requires history != [] && Settled(history, rule.window)
    ensures Measure(rule, SourceAfter(rule, history).events) == InWindow(rule, history)
  {
    SourceHoldsWindow(rule, history);
    RunMeasuresRecent(history, rule.window);
  }

  /** Some earlier alert of the source is still less than one cooldown old. */
  ghost predicate TooSoon(rule: Rule, history: seq<Event<Key>>, ts: u64) {
    exists j {:trigger history[..j]} :: 0 < j <= |history| && SourceAlert(rule, history[..j]).Some?
                                     && ts < SatAdd(history[j - 1].ts, rule.cooldown)
  }

  lemma TooSoonSnoc(rule: Rule, before: seq<Event<Key>>, e: Event<Key>, ts: u64)
    ensures TooSoon(rule, before + [e], ts) <==>
            || TooSoon(rule, before, ts)
            || (SourceAlert(rule, before + [e]).Some? && ts < SatAdd(e.ts, rule.cooldown))
  {
    hide SourceAlert;
    var history := before + [e];
    assert forall j :: 0 < j <= |before| ==> history[..j] == before[..j] && history[j - 1] == before[j - 1];
    assert history[..|history|] == history;
    if TooSoon(rule, before, ts) {
      var j :| 0 < j <= |before| && SourceAlert(rule, before[..j]).Some? && ts < SatAdd(before[j - 1].ts, rule.cooldown);
      assert history[..j] == before[..j];
    }
  }

  lemma {:induction false} SourceSnoc(rule: Rule, before: seq<Event<Key>>, e: Event<Key>)
    ensures SourceAfter(rule, before + [e]) == SourceStep(rule, SourceAfter(rule, before), e).0
    ensures SourceAlert(rule, before + [e]) == SourceStep(rule, SourceAfter(rule, before), e).1
  {
    assert (before + [e])[..|before|] == before;
  }

  lemma {:induction false} CooldownSnoc(rule: Rule, before: seq<Event<Key>>, e: Event<Key>, ts: u64)
    requires CoolingDown(rule, SourceAfter(rule, before).lastFired, ts) <==> TooSoon(rule, before, ts)
    ensures CoolingDown(rule, SourceAfter(rule, before + [e]).lastFired, ts) <==> TooSoon(rule, before + [e], ts)
  {
    SourceSnoc(rule, before, e);
    TooSoonSnoc(rule, before, e, ts);
  }

  /** In any timestamp order, remembering only the last alert is enough: it is the one that blocks longest. */
  lemma {:induction false} CooldownMeaning(rule: Rule, history: seq<Event<Key>>, ts: u64)
    ensures CoolingDown(rule, SourceAfter(rule, history).lastFired, ts) <==> TooSoon(rule, history, ts)
  {
    if history == [] {
    } else {
      var before, e := history[..|history| - 1], history[|history| - 1];
      assert history == before + [e];
      CooldownMeaning(rule, before, ts);
      CooldownSnoc(rule, before, e, ts);
    }
  }

  lemma AlertUnfolds(rule: Rule, history: seq<Event<Key>>)
    requires history != [] && Settled(history, rule.window)
    ensures var before, ts := history[..|history| - 1], history[|history| - 1].ts;
            SourceAlert(rule, history) ==
            if InWindow(rule, history) >= rule.threshold && !TooSoon(rule, before, ts) then Some(InWindow(rule, history)) else None
  {
    SourceMeasuresWindow(rule, history);
    CooldownMeaning(rule, history[..|history| - 1], history[|history| - 1].ts);
  }

  /**
   * A source's incremental state alerts exactly when the declarative condition over its whole history
   * holds, and reports exactly what the window holds.
   */
  lemma {:induction false} SourceIsExact(rule: Rule, history: seq<Event<Key>>)
    requires history != [] && Settled(history, rule.window)
    ensures SourceAlert(rule, history) == if ShouldAlert(rule, history) then Some(InWindow(rule, history)) else None
    decreases |history|
  {
    AlertUnfolds(rule, history);
    var before, ts := history[..|history| - 1], history[|history| - 1].ts;
    forall j {:trigger history[..j]} | 0 < j < |history|
      ensures ShouldAlert(rule, history[..j]) <==> SourceAlert(rule, before[..j]).Some?
    {
      assert history[..j] == before[..j];
      SettledPrefix(history, rule.window, j);
      SourceIsExact(rule, history[..j]);
    }
    if TooSoon(rule, before, ts) {
      var j :| 0 < j <= |before| && SourceAlert(rule, before[..j]).Some? && ts < SatAdd(before[j - 1].ts, rule.cooldown);
      assert ShouldAlert(rule, history[..j]);
    } else {
      forall j {:trigger history[..j]} | 0 < j < |history| && ShouldAlert(rule, history[..j])
        ensures ts >= SatAdd(history[j - 1].ts, rule.cooldown)
      {
        assert SourceAlert(rule, before[..j]).Some?;
      }
    }
  }

  // ---------------------------------------------------------------- every tracked source is exact

  function EventsAfter(rule: Rule, events: seq<SourceEvent>): Sources {
    if events == [] then []
    else RuleStep(rule, EventsAfter(rule, events[..|events| - 1]), events[|events| - 1]).0
  }

  lemma {:induction false} EventsSnoc(rule: Rule, before: seq<SourceEvent>, e: SourceEvent)
    ensures EventsAfter(rule, before + [e]) == RuleStep(rule, EventsAfter(rule, before), e).0
    ensures Srcs(before + [e]) == Srcs(before) + [e.src]
    ensures forall s :: Project(before + [e], s) == Project(before, s) + if e.src == s then [e.event] else []
  {
    assert (before + [e])[..|before|] == before;
  }

  /**
   * The tracked sources are exactly the 10,000 most recent event-producing ones, in recency order.
   */
  lemma {:induction false} TrackedSources(rule: Rule, events: seq<SourceEvent>)
    ensures Keys(EventsAfter(rule, events)) == Touched(Srcs(events), 10_000)
  {
    if events == [] {
    } else {
      var before, e := events[..|events| - 1], events[|events| - 1];
      assert events == before + [e];
      TrackedSources(rule, before);
      EventsSnoc(rule, before, e);
      var found := Lookup(EventsAfter(rule, before), e.src);
      PutKeys(EventsAfter(rule, before), MAX_TRACKED_SOURCES, e.src,
              SourceStep(rule, if found.Some? then found.value else UNSEEN, e.event).0);
      assert (Srcs(before) + [e.src])[..|before|] == Srcs(before);
    }
  }

  /** In terms of the history alone: tracked means fewer than 10,000 other sources since. */
  lemma {:induction false} TrackedSourceIff(rule: Rule, events: seq<SourceEvent>, src: IpAddr)
    ensures src in Keys(EventsAfter(rule, events)) <==>
            src in Srcs(events) && |Since(Srcs(events), src)| < 10_000
    ensures |EventsAfter(rule, events)| <= 10_000
  {
    TrackedSources(rule, events);
    TouchedIsMostRecent(Srcs(events), MAX_TRACKED_SOURCES);
    TrackedIff(Srcs(events), MAX_TRACKED_SOURCES, src);
  }

  lemma {:induction false} EntrySnoc(before: seq<SourceEvent>, e: SourceEvent, src: IpAddr)
    ensures SinceEntry(before + [e], src)
            == if e.src != src then SinceEntry(before, src)
               else (if IsTracked(before, src) then SinceEntry(before, src) else []) + [e.event]
  {
    assert (before + [e])[..|before|] == before;
  }

  /** What the rule's cache holds for a source: the state of its own events since it entered, and nothing once evicted. */
  ghost predicate Holds(rule: Rule, events: seq<SourceEvent>, src: IpAddr) {
    Lookup(EventsAfter(rule, events), src)
    == if IsTracked(events, src) then Some(SourceAfter(rule, SinceEntry(events, src))) else None
  }

  lemma {:induction false} HoldsAfterOwn(rule: Rule, before: seq<SourceEvent>, e: SourceEvent)
    requires Holds(rule, before, e.src)
    ensures Holds(rule, before + [e], e.src)
    ensures RuleStep(rule, EventsAfter(rule, before), e).1 == SourceAlert(rule, SinceEntry(before + [e], e.src))
  {
    hide IsTracked;
    EventsSnoc(rule, before, e);
    EntrySnoc(before, e, e.src);
    JustTracked(before, e);
    var found := Lookup(EventsAfter(rule, before), e.src);
    SourceSnoc(rule, if found.Some? then SinceEntry(before, e.src) else [], e.event);
    LookupPut(EventsAfter(rule, before), MAX_TRACKED_SOURCES, e.src,
              SourceStep(rule, if found.Some? then found.value else UNSEEN, e.event).0);
  }

  lemma {:induction false} JustTracked(before: seq<SourceEvent>, e: SourceEvent)
    ensures IsTracked(before + [e], e.src)
  {
    assert Srcs(before + [e])[|before|] == e.src;
  }

  lemma {:induction false} SinceOther<K(!new)>(history: seq<K>, x: K, k: K)
    requires x != k
    ensures Since(history + [x], k) == Since(history, k) + {x}
    ensures |Since(history, k)| <= |Since(history + [x], k)|
  {
    assert (history + [x])[..|history|] == history;
    SubsetSize(Since(history, k), Since(history + [x], k));
  }

  lemma SubsetSize<K>(a: set<K>, b: set<K>)
    requires a <= b
    ensures |a| <= |b|
  {
    assert b == a + (b - a);
  }

  lemma HoldsAfterOther(rule: Rule, before: seq<SourceEvent>, e: SourceEvent, src: IpAddr)
    requires Holds(rule, before, src) && src != e.src
    ensures Holds(rule, before + [e], src)
  {
    EventsSnoc(rule, before, e);
    EntrySnoc(before, e, src);
    TrackedSourceIff(rule, before + [e], src);
    FoundIff(EventsAfter(rule, before + [e]), src);
    if IsTracked(before + [e], src) {
      SinceOther(Srcs(before), e.src, src);
      KeysDistinct(rule, before);
      var found := Lookup(EventsAfter(rule, before), e.src);
      LookupPutOther(EventsAfter(rule, before), MAX_TRACKED_SOURCES, e.src,
                     SourceStep(rule, if found.Some? then found.value else UNSEEN, e.event).0, src);
    }
  }

  lemma {:induction false} KeysDistinct(rule: Rule, events: seq<SourceEvent>)
    ensures Distinct(Keys(EventsAfter(rule, events)))
  {
    TrackedSources(rule, events);
    TouchedIsMostRecent(Srcs(events), MAX_TRACKED_SOURCES);
    RecencyIsDistinct(Srcs(events));
  }

  /** In every run the state held for a source is that of its own events since it last entered the cache. */
  lemma {:induction false} TrackedIsExact(rule: Rule, events: seq<SourceEvent>, src: IpAddr)
    ensures Holds(rule, events, src)
  {
    hide Holds;
    if events == [] {
      NothingHeld(rule, src);
    } else {
      var before, e := events[..|events| - 1], events[|events| - 1];
      assert events == before + [e];
      TrackedIsExact(rule, before, src);
      if e.src == src {
        HoldsAfterOwn(rule, before, e);
      } else {
        HoldsAfterOther(rule, before, e, src);
      }
    }
  }

  lemma {:induction false} NothingHeld(rule: Rule, src: IpAddr)
    ensures Holds(rule, [], src)
  {
  }

  lemma {:induction false} ProjectIsEmptyIff(events: seq<SourceEvent>, src: IpAddr)
    ensures Project(events, src) == [] <==> src !in Srcs(events)
  {
    if events == [] {
    } else {
      var before, e := events[..|events| - 1], events[|events| - 1];
      assert Srcs(events) == Srcs(before) + [e.src];
      ProjectIsEmptyIff(before, src);
    }
  }

  lemma {:induction false} StaysTrackedSnoc(before: seq<SourceEvent>, e: SourceEvent, src: IpAddr)
    ensures StaysTracked(before + [e], src) <==>
            StaysTracked(before, src) && (e.src == src && src in Srcs(before) ==> IsTracked(before, src))
  {
    var events := before + [e];
    assert events[..|before|] == before && events[|before|] == e;
    assert forall n :: 0 <= n < |before| ==> events[..n] == before[..n] && events[n] == before[n];
  }

  /** A source's events since it entered the cache are all it ever produced exactly if it stays tracked. */
  lemma {:induction false} EntryIsWholeIff(events: seq<SourceEvent>, src: IpAddr)
    ensures |SinceEntry(events, src)| <= |Project(events, src)|
    ensures SinceEntry(events, src) == Project(events, src) <==> StaysTracked(events, src)
  {
    hide StaysTracked, IsTracked;
    if events == [] {
      NothingTracked(src);
    } else {
      var before, e := events[..|events| - 1], events[|events| - 1];
      assert events == before + [e];
      EntryIsWholeIff(before, src);
      StaysTrackedSnoc(before, e, src);
      ProjectIsEmptyIff(before, src);
      SeenIfTracked(before, src);
      var entry, own := SinceEntry(before, src), Project(before, src);
      assert entry == own <==> entry + [e.event] == own + [e.event] by {
        assert (entry + [e.event])[..|entry|] == entry && (own + [e.event])[..|own|] == own;
      }
      if own == [] {
        assert entry == own && [] + [e.event] == own + [e.event];
      }
    }
  }

  lemma {:induction false} NothingTracked(src: IpAddr)
    ensures StaysTracked([], src)
  {
  }

  lemma SeenIfTracked(events: seq<SourceEvent>, src: IpAddr)
    ensures IsTracked(events, src) ==> src in Srcs(events)
  {
  }

  // ---------------------------------------------------------------- whole packet runs

  lemma {:induction false} PacketsAreEvents(rule: Rule, packets: seq<Packet>)
    ensures SourcesAfter(rule, packets) == EventsAfter(rule, EventsOf(rule, packets))
  {
    if packets == [] {
    } else {
      var before, p := packets[..|packets| - 1], packets[|packets| - 1];
      PacketsAreEvents(rule, before);
      var e := EventOf(rule, p);
      if e.Some? {
        EventsSnoc(rule, EventsOf(rule, before), e.value);
      } else {
        assert EventsOf(rule, packets) == EventsOf(rule, before);
      }
    }
  }

  /** The tracked sources of a packet run are the 10,000 most recently active ones, in recency order. */
  lemma {:induction false} TrackedSourcesOfRun(rule: Rule, packets: seq<Packet>)
    ensures Keys(SourcesAfter(rule, packets)) == LastN(Recency(Srcs(EventsOf(rule, packets))), 10_000)
  {
    PacketsAreEvents(rule, packets);
    TrackedSources(rule, EventsOf(rule, packets));
    TouchedIsMostRecent(Srcs(EventsOf(rule, packets)), MAX_TRACKED_SOURCES);
  }

  /** One source's events in a packet run. */
  ghost function HistoryOf(rule: Rule, packets: seq<Packet>, src: IpAddr): seq<Event<Key>> {
    Project(EventsOf(rule, packets), src)
  }

  /** One source's events in a packet run since it last entered the rule's cache. */
  ghost function RecentHistoryOf(rule: Rule, packets: seq<Packet>, src: IpAddr): seq<Event<Key>> {
    SinceEntry(EventsOf(rule, packets), src)
  }

  lemma {:induction false} EntryEndsHere(events: seq<SourceEvent>, e: SourceEvent)
    ensures var history := SinceEntry(events + [e], e.src);
            history != [] && history[|history| - 1] == e.event
  {
    EntrySnoc(events, e, e.src);
  }

  /** In any timestamp order, the last packet's alert is that of its source's events since it entered the cache. */
  lemma {:induction false} LastAlertOfSource(rule: Rule, packets: seq<Packet>)
    requires packets != [] && EventOf(rule, packets[|packets| - 1]).Some?
    ensures var p := packets[|packets| - 1];
            var history := RecentHistoryOf(rule, packets, p.ip.value.src);
            && history != [] && history[|history| - 1].ts == p.ts
            && LastAlert(rule, packets)
               == var observed := SourceAlert(rule, history);
                  if observed.None? then None
                  else Some(Alert(p.ts, rule.id, rule.severity, p.ip.value.src, observed.value))
  {
    hide SourceAlert, RuleStep, SinceEntry;
    var before, p := packets[..|packets| - 1], packets[|packets| - 1];
    PacketsAreEvents(rule, before);
    var e, earlier := EventOf(rule, p).value, EventsOf(rule, before);
    assert EventsOf(rule, packets) == earlier + [e];
    EntryEndsHere(earlier, e);
    TrackedIsExact(rule, earlier, e.src);
    HoldsAfterOwn(rule, earlier, e);
  }

  /** What a rule calls for at a packet, given a history of the packet's source that ends with it. */
  ghost function CalledFor(rule: Rule, p: Packet, history: seq<Event<Key>>): Option<Alert> {
    if p.ip.Some? && history != [] && ShouldAlert(rule, history) then
      Some(Alert(p.ts, rule.id, rule.severity, p.ip.value.src, InWindow(rule, history)))
    else None
  }

  /**
   * The rule engine is exact: in every packet run, the last packet raises an alert exactly when it is an event of this
   * rule and its source's window count and cooldown call for one, both taken over all events of the source since it last
   * entered the cache. Assumes only that these events' timestamps are settled, in order or not; see `ExactIffSettled`.
   */
  lemma {:induction false} AlertsSinceEntry(rule: Rule, packets: seq<Packet>)
    requires packets != []
    requires var p := packets[|packets| - 1];
             p.ip.Some? ==> Settled(RecentHistoryOf(rule, packets, p.ip.value.src), rule.window)
    ensures var p := packets[|packets| - 1];
            LastAlert(rule, packets)
            == if EventOf(rule, p).None? then None else CalledFor(rule, p, RecentHistoryOf(rule, packets, p.ip.value.src))
  {
    hide SourceAlert, ShouldAlert, InWindow, RecentHistoryOf;
    var p := packets[|packets| - 1];
    if EventOf(rule, p).Some? {
      LastAlertOfSource(rule, packets);
      SourceIsExact(rule, RecentHistoryOf(rule, packets, p.ip.value.src));
    }
  }

  /** For a source that stays tracked, the condition is about all its events of the whole run. */
  lemma {:induction false} AlertsExactly(rule: Rule, packets: seq<Packet>)
    requires packets != []
    requires var p := packets[|packets| - 1];
             p.ip.Some? ==> Settled(HistoryOf(rule, packets, p.ip.value.src), rule.window)
                            && StaysTracked(EventsOf(rule, packets), p.ip.value.src)
    ensures var p := packets[|packets| - 1];
            LastAlert(rule, packets)
            == if EventOf(rule, p).None? then None else CalledFor(rule, p, HistoryOf(rule, packets, p.ip.value.src))
  {
    hide CalledFor, LastAlert, StaysTracked, Settled;
    var p := packets[|packets| - 1];
    if p.ip.Some? {
      EntryIsWholeIff(EventsOf(rule, packets), p.ip.value.src);
    }
    AlertsSinceEntry(rule, packets);
  }

  // ---------------------------------------------------------------- how often a source can alert

  /** The times at which a source alerted. */
  function AlertTimes(rule: Rule, history: seq<Event<Key>>): seq<u64> {
    if history == [] then []
    else
      var earlier := AlertTimes(rule, history[..|history| - 1]);
      if SourceAlert(rule, history).Some? then earlier + [history[|history| - 1].ts] else earlier
  }

  lemma {:induction false} AlertsAreSpaced(rule: Rule, history: seq<Event<Key>>)
    ensures var times := AlertTimes(rule, history);
            && SourceAfter(rule, history).lastFired == (if times == [] then None else Some(times[|times| - 1]))
            && forall i :: 0 < i < |times| ==> times[i] >= SatAdd(times[i - 1], rule.cooldown)
  {
    if history == [] {
    } else {
      AlertsAreSpaced(rule, history[..|history| - 1]);
    }
  }

  lemma OneMore(n: nat, step: nat)
    ensures (n + 1) * step == n * step + step
  {
  }

  lemma {:induction false} SpacedTimes(times: seq<u64>, step: nat, first: nat, last: nat)
    requires first <= last < |times| && forall i :: 0 < i < |times| ==> times[i] >= times[i - 1] + step
    ensures times[last] - times[first] >= (last - first) * step
    decreases last
  {
    if first == last {
    } else {
      SpacedTimes(times, step, first, last - 1);
      OneMore(last - 1 - first, step);
    }
  }

  lemma {:induction false} SourceRateIsBounded(rule: Rule, history: seq<Event<Key>>, first: nat, last: nat)
    requires first <= last < |AlertTimes(rule, history)|
    requires forall t :: t in AlertTimes(rule, history) ==> t + rule.cooldown <= U64_MAX
    ensures AlertTimes(rule, history)[last] - AlertTimes(rule, history)[first] >= (last - first) * rule.cooldown
  {
    hide AlertTimes;
    AlertsAreSpaced(rule, history);
    var times := AlertTimes(rule, history);
    forall i | 0 < i < |times|
      ensures times[i] >= times[i - 1] + rule.cooldown
    {
      assert times[i - 1] in times;
    }
    SpacedTimes(times, rule.cooldown, first, last);
  }

  /** The times at which a packet run raises alerts for one source. */
  function AlertTimesFor(rule: Rule, packets: seq<Packet>, src: IpAddr): seq<u64> {
    if packets == [] then []
    else
      var alert := LastAlert(rule, packets);
      AlertTimesFor(rule, packets[..|packets| - 1], src)
      + if alert.Some? && alert.value.src == src then [alert.value.ts] else []
  }

  lemma {:induction false} AlertTimesSnoc(rule: Rule, history: seq<Event<Key>>, e: Event<Key>)
    ensures AlertTimes(rule, history + [e])
            == AlertTimes(rule, history) + if SourceAlert(rule, history + [e]).Some? then [e.ts] else []
  {
    hide SourceAlert;
    assert (history + [e])[..|history|] == history;
  }

  /** What one more packet adds to the alert times of a source that stays tracked. */
  lemma {:induction false} LastAlertTime(rule: Rule, packets: seq<Packet>, e: SourceEvent, src: IpAddr)
    requires packets != [] && EventOf(rule, packets[|packets| - 1]) == Some(e)
    requires StaysTracked(EventsOf(rule, packets), src)
    ensures var alert := LastAlert(rule, packets);
            && (alert.Some? ==> alert.value.src == e.src && alert.value.ts == e.event.ts)
            && (e.src == src ==> (alert.Some? <==> SourceAlert(rule, HistoryOf(rule, packets, src)).Some?))
            && (e.src == src ==> HistoryOf(rule, packets, src) != [])
  {
    hide SourceAlert, LastAlert, SinceEntry, StaysTracked, EventOf, Project;
    EventSourceAndTime(rule, packets[|packets| - 1]);
    LastAlertOfSource(rule, packets);
    EntryIsWholeIff(EventsOf(rule, packets), src);
  }

  lemma {:induction false} HistoryOfSnoc(rule: Rule, packets: seq<Packet>, src: IpAddr)
    requires packets != []
    ensures var before, e := packets[..|packets| - 1], EventOf(rule, packets[|packets| - 1]);
            && EventsOf(rule, packets) == EventsOf(rule, before) + (if e.Some? then [e.value] else [])
            && HistoryOf(rule, packets, src)
               == HistoryOf(rule, before, src) + if e.Some? && e.value.src == src then [e.value.event] else []
  {
    hide EventOf;
    var before, e := packets[..|packets| - 1], EventOf(rule, packets[|packets| - 1]);
    if e.Some? {
      EventsSnoc(rule, EventsOf(rule, before), e.value);
    } else {
      assert EventsOf(rule, before) + [] == EventsOf(rule, before);
    }
    assert HistoryOf(rule, before, src) + [] == HistoryOf(rule, before, src);
  }

  /** While a source stays tracked, its alerts in a packet run are those of its own events, in any timestamp order. */
  lemma {:induction false} AlertTimesOfTracked(rule: Rule, packets: seq<Packet>, src: IpAddr)
    requires StaysTracked(EventsOf(rule, packets), src)
    ensures AlertTimesFor(rule, packets, src) == AlertTimes(rule, HistoryOf(rule, packets, src))
  {
    hide SourceAlert, LastAlert, StaysTracked, EventOf, HistoryOf, EventsOf, AlertTimes;
    if packets == [] {
      NoAlertTimes(rule, packets, src);
    } else {
      var before, p := packets[..|packets| - 1], packets[|packets| - 1];
      var e := EventOf(rule, p);
      HistoryOfSnoc(rule, packets, src);
      if e.None? {
        NoEventNoAlert(rule, packets);
        assert EventsOf(rule, before) + [] == EventsOf(rule, before);
        assert HistoryOf(rule, before, src) + [] == HistoryOf(rule, before, src);
      } else {
        StaysTrackedSnoc(EventsOf(rule, before), e.value, src);
        LastAlertTime(rule, packets, e.value, src);
        AlertTimesSnoc(rule, HistoryOf(rule, before, src), e.value.event);
        assert HistoryOf(rule, before, src) + [] == HistoryOf(rule, before, src);
      }
      AlertTimesOfTracked(rule, before, src);
    }
  }

  lemma {:induction false} NoAlertTimes(rule: Rule, packets: seq<Packet>, src: IpAddr)
    requires packets == []
    ensures AlertTimesFor(rule, packets, src) == AlertTimes(rule, HistoryOf(rule, packets, src))
  {
  }

  lemma NoEventNoAlert(rule: Rule, packets: seq<Packet>)
    requires packets != [] && EventOf(rule, packets[|packets| - 1]).None?
    ensures LastAlert(rule, packets) == None
  {
  }

  lemma EventSourceAndTime(rule: Rule, p: Packet)
    ensures EventOf(rule, p).Some? ==>
              p.ip.Some? && EventOf(rule, p).value.src == p.ip.value.src && EventOf(rule, p).value.event.ts == p.ts
  {
  }

  /**
   * In any timestamp order, n successive alerts of a packet run for a source that stays tracked span at least n - 1
   * cooldowns, short of saturation.
   */
  lemma {:induction false} AlertRateIsBounded(rule: Rule, packets: seq<Packet>, src: IpAddr, first: nat, last: nat)
    requires StaysTracked(EventsOf(rule, packets), src)
    requires first <= last < |AlertTimesFor(rule, packets, src)|
    requires forall t :: t in AlertTimesFor(rule, packets, src) ==> t + rule.cooldown <= U64_MAX
    ensures AlertTimesFor(rule, packets, src)[last] - AlertTimesFor(rule, packets, src)[first] >= (last - first) * rule.cooldown
  {
    AlertTimesOfTracked(rule, packets, src);
    SourceRateIsBounded(rule, HistoryOf(rule, packets, src), first, last);
  }
}
