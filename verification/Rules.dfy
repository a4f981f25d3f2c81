/**
 * The rule engine as it runs (`rules/engine.rs`, `rules/mod.rs`): each rule owns an LRU cache of source states
 * and updates them in place. Every method is proved to refine `RuleSpec`.
 */
module Rules {
  import opened Ints
  import opened Wrappers
  import opened PacketTypes
  import opened Window
  import opened Lru
  import opened RuleSpec

  datatype Tracker =
    | Ports(ports: DistinctWindow<Key>)
    | Hosts(hosts: DistinctWindow<Key>)
    | Count(count: CountWindow)

  function TrackerObject(t: Tracker): object {
    match t
    case Ports(w) => w
    case Hosts(w) => w
    case Count(c) => c
  }

  ghost predicate TrackerFits(rule: Rule, t: Tracker) {
    match rule.kind
    case PortScan => t.Ports?
    case HostSweep => t.Hosts?
    case PacketRate => t.Count?
    case DnsTunnel => t.Count?
  }

  class SourceState {
    const tracker: Tracker
    var lastFired: Option<u64>
    /** What the tracker holds. */
    ghost var View: SourceView

    ghost predicate Valid()
      reads this, TrackerObject(tracker)
    {
      && View.lastFired == lastFired
      && match tracker
         case Ports(w) => w.Valid() && View.events == w.events
         case Hosts(w) => w.Valid() && View.events == w.events
         case Count(c) => c.Valid() && View.events == Ticks(c.events, Tick)
    }

    constructor (kind: Kind)
      ensures Valid() && fresh(TrackerObject(tracker)) && View == UNSEEN
      ensures forall rule: Rule :: rule.kind == kind ==> TrackerFits(rule, tracker)
    {
      var distinct := new DistinctWindow<Key>();
      var count := new CountWindow();
      tracker := match kind
        case PortScan => Ports(distinct)
        case HostSweep => Hosts(distinct)
        case DnsTunnel => Count(count)
        case PacketRate => Count(count);
      lastFired, View := None, UNSEEN;
    }

    /** Feeds one event to the tracker. */
    method Add(rule: Rule, ts: u64, key: Key) returns (observed: nat)
      requires Valid() && TrackerFits(rule, tracker)
      requires tracker.Count? ==> key == Tick
      modifies this, TrackerObject(tracker)
      ensures Valid()
      ensures View == SourceView(AddEvent(old(View).events, Event(ts, key), rule.window), old(View).lastFired)
      ensures observed == Measure(rule, View.events)
    {
      View := View.(events := AddEvent(View.events, Event(ts, key), rule.window));
      match tracker {
        case Ports(w) => observed := w.Add(ts, key, rule.window);
        case Hosts(w) => observed := w.Add(ts, key, rule.window);
        case Count(c) =>
          AddTimeIsAdd(c.events, ts, rule.window, key);
          observed := c.Add(ts, rule.window);
      }
    }

    method MarkFired(ts: u64)
      requires Valid()
      modifies this
      ensures Valid() && View == old(View).(lastFired := Some(ts))
    {
      lastFired, View := Some(ts), View.(lastFired := Some(ts));
    }
  }

  // ---------------------------------------------------------------- one rule

  /** No two entries share a key, a state or a window: each entry owns what it points to. */
  ghost predicate Separate(sources: seq<(IpAddr, SourceState)>) {
    forall i, j :: 0 <= i < j < |sources| ==> Apart(sources[i], sources[j])
  }

  ghost predicate Apart(a: (IpAddr, SourceState), b: (IpAddr, SourceState)) {
    a.0 != b.0 && a.1 != b.1 && TrackerObject(a.1.tracker) != TrackerObject(b.1.tracker)
  }

  lemma SeparateRotates(sources: seq<(IpAddr, SourceState)>, at: nat)
    requires Separate(sources) && at < |sources|
    ensures Separate(sources[..at] + sources[at + 1..] + [sources[at]])
  {
  }

  ghost predicate Owned(state: SourceState, repr: set<object>) {
    state in repr && TrackerObject(state.tracker) in repr
  }

  ghost predicate Matches(rule: Rule, entry: (IpAddr, SourceState), view: (IpAddr, SourceView))
    reads entry.1, TrackerObject(entry.1.tracker)
  {
    entry.1.Valid() && TrackerFits(rule, entry.1.tracker) && view == (entry.0, entry.1.View)
  }

  /** Rules that count events rather than keys get ticks. */
  lemma EventFits(rule: Rule, packet: Packet)
    ensures EventOf(rule, packet).Some? && !CountsDistinct(rule) ==> EventOf(rule, packet).value.event.key == Tick
    ensures EventOf(rule, packet).Some? ==> EventOf(rule, packet).value.event.ts == packet.ts
  {
  }

  class CompiledRule {
    const rule: Rule
    var sources: seq<(IpAddr, SourceState)>
    /** What the entries hold. */
    ghost var View: Sources
    ghost var Repr: set<object>

    ghost predicate Valid()
      reads this, Repr
    {
      && this in Repr
      && |View| == |sources| <= MAX_TRACKED_SOURCES
      && Separate(sources)
      && (forall i :: 0 <= i < |sources| ==> Owned(sources[i].1, Repr))
      && (forall i :: 0 <= i < |sources| ==> Matches(rule, sources[i], View[i]))
    }

    constructor (rule: Rule)
      ensures Valid() && fresh(Repr) && this.rule == rule && View == []
    {
      this.rule := rule;
      sources, View := [], [];
      Repr := {this};
    }

    /** Evaluates one packet, as `RuleSpec.Evaluate` does. */
    method Evaluate(packet: Packet) returns (alert: Option<Alert>)
      requires Valid()
      modifies Repr
      ensures Valid() && this in Repr && fresh(Repr - old(Repr))
      ensures (View, alert) == RuleSpec.Evaluate(rule, old(View), packet)
    {
      hide AddEvent, Measure, Put, Lookup, EventOf;
      EventFits(rule, packet);
      var e := EventOf(rule, packet);
      if e.None? {
        return None;
      }
      ghost var found := Lookup(View, e.value.src);
      ghost var v := if found.Some? then found.value else UNSEEN;
      var observed := Observe(e.value);
      ghost var events := AddEvent(v.events, e.value.event, rule.window);
      PutAgain(old(View), MAX_TRACKED_SOURCES, e.value.src, SourceView(events, v.lastFired),
               SourceStep(rule, v, e.value.event).0);
      if observed < rule.threshold {
        return None;
      }
      // `get_mut` finds the source that `Observe` has just made the most recent one.
      var state := sources[|sources| - 1].1;
      if CoolingDown(rule, state.lastFired, packet.ts) {
        return None;
      }
      MarkFired(packet.ts);
      alert := Some(Alert(packet.ts, rule.id, rule.severity, e.value.src, observed));
    }

    method MarkFired(ts: u64)
      requires Valid() && sources != []
      modifies Repr
      ensures Valid() && Repr == old(Repr) && sources == old(sources)
      ensures View == old(View)[|sources| - 1 := (sources[|sources| - 1].0,
                                                  old(View)[|sources| - 1].1.(lastFired := Some(ts)))]
    {
      var last := |sources| - 1;
      var state := sources[last].1;
      StandsApart(last);
      state.MarkFired(ts);
      View := View[last := (sources[last].0, state.View)];
    }

    /** Feeds one event to its source's tracker, which becomes the most recent one. */
    method Observe(e: SourceEvent) returns (observed: nat)
      requires Valid()
      requires !CountsDistinct(rule) ==> e.event.key == Tick
      modifies Repr
      ensures Valid() && fresh(Repr - old(Repr)) && sources != []
      ensures var found := Lookup(old(View), e.src);
              var v := if found.Some? then found.value else UNSEEN;
              var events := AddEvent(v.events, e.event, rule.window);
              && View == Put(old(View), MAX_TRACKED_SOURCES, e.src, SourceView(events, v.lastFired))
              && observed == Measure(rule, events)
    {
      hide AddEvent, Measure, Put, Lookup, SourceState.Valid;
      ghost var found := Lookup(View, e.src);
      ghost var v := if found.Some? then found.value else UNSEEN;
      var state := GetOrInsert(e.src);
      PutAgain(old(View), MAX_TRACKED_SOURCES, e.src, v, SourceView(AddEvent(v.events, e.event, rule.window), v.lastFired));
      StandsApart(|sources| - 1);
      observed := Track(state, e.event);
    }

    method Track(state: SourceState, event: Event<Key>) returns (observed: nat)
      requires Valid() && sources != [] && state == sources[|sources| - 1].1
      requires !CountsDistinct(rule) ==> event.key == Tick
      modifies Repr
      ensures Valid() && Repr == old(Repr) && sources == old(sources)
      ensures state.View == SourceView(AddEvent(old(state.View).events, event, rule.window), old(state.View).lastFired)
      ensures View == old(View)[|sources| - 1 := (sources[|sources| - 1].0, state.View)]
      ensures observed == Measure(rule, state.View.events)
    {
      hide SourceState.Valid;
      hide AddEvent, Measure;
      StandsApart(|sources| - 1);
      observed := state.Add(rule, event.ts, event.key);
      OthersKept(|sources| - 1);
      View := View[|sources| - 1 := (sources[|sources| - 1].0, state.View)];
    }

    twostate lemma OthersKept(at: nat)
      requires old(Valid()) && unchanged(this) && at < |sources|
      requires unchanged(Repr - {this, sources[at].1, TrackerObject(sources[at].1.tracker)})
      ensures forall i :: 0 <= i < |sources| && i != at ==> Matches(rule, sources[i], View[i])
    {
      forall i | 0 <= i < |sources| && i != at
        ensures Matches(rule, sources[i], View[i])
      {
        assert if i < at then Apart(sources[i], sources[at]) else Apart(sources[at], sources[i]);
        assert Owned(sources[i].1, Repr) && old(Matches(rule, sources[i], View[i]));
      }
    }

    lemma StandsApart(i: nat)
      requires Valid() && i < |sources|
      ensures Owned(sources[i].1, Repr) && Matches(rule, sources[i], View[i])
      ensures forall j :: 0 <= j < |sources| && j != i ==>
                sources[j].1 != sources[i].1 && TrackerObject(sources[j].1.tracker) != TrackerObject(sources[i].1.tracker)
    {
      assert forall j :: 0 <= j < i ==> Apart(sources[j], sources[i]);
      assert forall j :: i < j < |sources| ==> Apart(sources[i], sources[j]);
    }

    /** The cache's `get_or_insert_mut`: the state of a source, made the most recent one. */
    method GetOrInsert(src: IpAddr) returns (state: SourceState)
      requires Valid()
      modifies Repr
      ensures Valid() && fresh(Repr - old(Repr))
      ensures sources != [] && sources[|sources| - 1] == (src, state)
      ensures var found := Lookup(old(View), src);
              View == Put(old(View), MAX_TRACKED_SOURCES, src, if found.Some? then found.value else UNSEEN)
    {
      hide Put, Find, SourceState.Valid;
      ghost var found := Lookup(View, src);
      LocatesSource(src, if found.Some? then found.value else UNSEEN);
      var at := Find(sources, src);
      if at < |sources| {
        state := sources[at].1;
        Promote(at);
      } else {
        state := Insert(src);
      }
    }

    method Promote(at: nat)
      requires Valid() && at < |sources|
      modifies this`sources, this`View
      ensures Valid() && Repr == old(Repr)
      ensures sources != [] && sources[|sources| - 1] == old(sources)[at]
      ensures View == old(View[..at] + View[at + 1..] + [View[at]])
    {
      SeparateRotates(sources, at);
      sources := sources[..at] + sources[at + 1..] + [sources[at]];
      View := View[..at] + View[at + 1..] + [View[at]];
    }

    method DropOldest()
      requires Valid() && sources != []
      modifies this`sources, this`View
      ensures Valid() && Repr == old(Repr)
      ensures sources == old(sources)[1..] && View == old(View)[1..]
    {
      hide SourceState.Valid;
      sources, View := sources[1..], View[1..];
    }

    method Insert(src: IpAddr) returns (state: SourceState)
      requires Valid() && src !in Keys(sources)
      modifies Repr
      ensures Valid() && fresh(Repr - old(Repr))
      ensures sources != [] && sources[|sources| - 1] == (src, state)
      ensures View == old(if |View| == MAX_TRACKED_SOURCES then View[1..] else View) + [(src, UNSEEN)]
    {
      hide SourceState.Valid;
      if |sources| == MAX_TRACKED_SOURCES {
        DropOldest();
      }
      state := new SourceState(rule.kind);
      sources, View := sources + [(src, state)], View + [(src, UNSEEN)];
      Repr := Repr + {state, TrackerObject(state.tracker)};
    }

    /** The entries and their view agree on where a source is, and hence on what a put does. */
    lemma {:induction false} LocatesSource(src: IpAddr, v: SourceView)
      requires Valid()
      ensures var at := Find(sources, src);
              && at == Find(View, src)
              && (at == |sources| ==> src !in Keys(sources))
              && Put(View, MAX_TRACKED_SOURCES, src, v)
                 == if at < |View| then View[..at] + View[at + 1..] + [(src, v)]
                    else (if |View| == MAX_TRACKED_SOURCES then View[1..] else View) + [(src, v)]
    {
      hide Find, Remove, SourceState.Valid;
      assert forall i :: 0 <= i < |sources| ==> Matches(rule, sources[i], View[i]);
      assert Keys(View) == Keys(sources);
      assert Distinct(Keys(View));
      SameFind(View, sources, src);
      RemoveIsSlice(View, src);
      FoundIff(sources, src);
    }
  }

  // ---------------------------------------------------------------- all rules

  /** The active rules, each with its own state. */
  class RuleEngine {
    var rules: seq<CompiledRule>
    /** What each rule holds. */
    ghost var View: RuleStates
    ghost var Repr: set<object>

    ghost predicate Valid()
      reads this, Repr
    {
      && this in Repr
      && |View| == |rules|
      && (forall i :: 0 <= i < |rules| ==> rules[i] in Repr && rules[i] in rules[i].Repr && rules[i].Repr <= Repr && this !in rules[i].Repr)
      && (forall i, j :: 0 <= i < j < |rules| ==> rules[i].Repr !! rules[j].Repr)
      && (forall i :: 0 <= i < |rules| ==> rules[i].Valid() && View[i] == (rules[i].rule, rules[i].View))
    }

    /** One fresh state per active rule. */
    constructor (specs: seq<Rule>)
      ensures Valid() && fresh(Repr)
      ensures |View| == |specs| && forall i :: 0 <= i < |specs| ==> View[i] == (specs[i], [])
    {
      rules, View, Repr := [], [], {this};
      new;
      hide CompiledRule.Valid;
      for i := 0 to |specs|
        invariant Valid() && fresh(Repr)
        invariant |View| == i && forall k :: 0 <= k < i ==> View[k] == (specs[k], [])
      {
        var rule := new CompiledRule(specs[i]);
        rules, View, Repr := rules + [rule], View + [(specs[i], [])], Repr + rule.Repr + {rule};
      }
    }

    /** Shows the packet to every rule and collects their alerts in order. */
    method Evaluate(packet: Packet) returns (alerts: seq<Alert>)
      requires Valid()
      modifies Repr
      ensures Valid() && this in Repr && fresh(Repr - old(Repr))
      ensures (View, alerts) == EvaluateAll(old(View), packet)
    {
      hide CompiledRule.Valid, RuleSpec.Evaluate;
      alerts := [];
      ghost var before := View;
      for i := 0 to |rules|
        invariant Valid() && fresh(Repr - old(Repr)) && |View| == |before|
        invariant View[i..] == before[i..]
        invariant (View[..i], alerts) == EvaluateAll(before[..i], packet)
      {
        EvaluateAllSnoc(before[..i], before[i], packet);
        assert before[..i + 1] == before[..i] + [before[i]];
        assert View[i] == View[i..][0] == before[i];
        assert View[i + 1..] == View[i..][1..] == before[i..][1..] == before[i + 1..];
        ghost var mid := View;
        var alert := EvaluateOne(i, packet);
        assert View[..i + 1] == mid[..i] + [View[i]] && View[i + 1..] == mid[i + 1..];
        assert alerts + [] == alerts;
        if alert.Some? {
          alerts := alerts + [alert.value];
        }
      }
      assert before[..|before|] == before && View[..|View|] == View;
    }

    method EvaluateOne(i: nat, packet: Packet) returns (alert: Option<Alert>)
      requires Valid() && i < |rules|
      modifies Repr
      ensures Valid() && fresh(Repr - old(Repr)) && rules == old(rules)
      ensures var (sources, raised) := RuleSpec.Evaluate(old(View)[i].0, old(View)[i].1, packet);
              View == old(View)[i := (old(View)[i].0, sources)] && alert == raised
    {
      hide CompiledRule.Valid, RuleSpec.Evaluate;
      alert := rules[i].Evaluate(packet);
      View := View[i := (rules[i].rule, rules[i].View)];
      Repr := Repr + rules[i].Repr;
    }
  }
}
