/**
 * What a rule means for packets: which packets it watches, what it counts of them, and when it alerts, told in terms of
 * the packets of a run alone.
 */
module RuleMeaning {
  import opened Ints
  import opened Wrappers
  import opened PacketTypes
  import opened Names
  import opened Window
  import opened RuleSpec
  import Lru

  // ---------------------------------------------------------------- which packets a rule watches

  /** SYN is set and ACK is not. */
  predicate OpensConnection(t: Transport) {
    t.Tcp? && t.tcp.flags / 2 % 2 == 1 && t.tcp.flags / 16 % 2 == 0
  }

  /** A stretch of a name that begins and ends at a dot or at an end of the name. */
  predicate IsStretch(name: bytes, from: nat, end: nat) {
    && from <= end <= |name|
    && (from == 0 || name[from - 1] == 46) && (end == |name| || name[end] == 46)
  }

  /** The label of a name from one octet to another: such a stretch without dots inside. */
  ghost predicate IsLabel(name: bytes, from: nat, end: nat, part: bytes) {
    IsStretch(name, from, end) && 46 !in name[from..end] && part == name[from..end]
  }

  /** An unanswered query with a label that is long enough and of high entropy. */
  ghost predicate AsksSuspiciously(rule: Rule, app: App) {
    && app.Dns? && !app.info.isResponse && app.info.question.Some?
    && var name := app.info.question.value.name;
       exists from: nat, end: nat, part :: IsLabel(name, from, end, part) && |part| >= rule.minLabelLen && rule.highEntropy(part)
  }

  /** Every kind of rule looks at packets with an address only. */
  ghost predicate Watches(rule: Rule, p: Packet) {
    p.ip.Some?
    && match rule.kind
       case PacketRate => true
       case HostSweep => true
       case PortScan => OpensConnection(p.transport)
       case DnsTunnel => AsksSuspiciously(rule, p.app)
  }

  /** What a rule tells packets apart by, if it does. */
  ghost function Told(rule: Rule, p: Packet): Key
    requires Watches(rule, p)
  {
    match rule.kind
    case PacketRate => Tick
    case HostSweep => Host(p.ip.value.dst)
    case PortScan => Port(p.transport.tcp.dstPort)
    case DnsTunnel => Tick
  }

  lemma {:induction false} LabelsAreParts(name: bytes, part: bytes)
    ensures part in SplitDots(name) <==> exists from: nat, end: nat :: IsLabel(name, from, end, part)
    decreases |name|
  {
    hide IsLabel, FirstDot;
    if DOT !in name {
      WholeLabel(name, part);
    } else {
      var dot := FirstDot(name);
      LabelsAreParts(name[dot + 1..], part);
      FirstLabel(name, dot, name[dot + 1..], part);
    }
  }

  lemma StretchEdges(name: bytes, from: nat, end: nat)
    requires IsStretch(name, from, end)
    ensures from > 0 || end < |name| ==> DOT in name
  {
  }

  lemma {:induction false} WholeLabel(name: bytes, part: bytes)
    requires DOT !in name
    ensures SplitDots(name) == [name]
    ensures part == name <==> exists from: nat, end: nat :: IsLabel(name, from, end, part)
  {
    assert name[0..|name|] == name;
    assert IsLabel(name, 0, |name|, name);
    forall from: nat, end: nat | IsLabel(name, from, end, part)
      ensures part == name
    {
      StretchEdges(name, from, end);
    }
  }

  lemma StretchBefore(name: bytes, dot: nat, from: nat, end: nat)
    requires dot < |name| && name[dot] == DOT && IsStretch(name, from, end) && from <= dot
    ensures from > 0 || end < dot ==> DOT in name[..dot]
    ensures end > dot ==> DOT in name[from..end]
  {
    if from > 0 {
      assert name[..dot][from - 1] == DOT;
    }
    if end < dot {
      assert name[..dot][end] == DOT;
    }
    if end > dot {
      assert name[from..end][dot - from] == DOT;
    }
  }

  lemma {:induction false} LabelOf(name: bytes, dot: nat, from: nat, end: nat, part: bytes)
    requires dot < |name| && name[dot] == DOT && DOT !in name[..dot] && IsLabel(name, from, end, part)
    ensures if from <= dot then part == name[..dot] else IsLabel(name[dot + 1..], from - dot - 1, end - dot - 1, part)
  {
    if from <= dot {
      StretchBefore(name, dot, from, end);
      assert name[0..dot] == name[..dot];
    } else {
      assert name[dot + 1..][from - dot - 1..end - dot - 1] == name[from..end];
    }
  }

  lemma {:induction false} LabelBehind(name: bytes, dot: nat, from: nat, end: nat, part: bytes)
    requires dot < |name| && name[dot] == DOT && IsLabel(name[dot + 1..], from, end, part)
    ensures IsLabel(name, from + dot + 1, end + dot + 1, part)
  {
    assert name[from + dot + 1..end + dot + 1] == name[dot + 1..][from..end];
  }

  /** The labels of a name are the part before its first dot and those of the rest. */
  lemma {:induction false} FirstLabel(name: bytes, dot: nat, rest: bytes, part: bytes)
    requires DOT in name && dot == FirstDot(name) && rest == name[dot + 1..]
    ensures (exists from: nat, end: nat :: IsLabel(name, from, end, part)) <==>
            part == name[..dot] || exists from: nat, end: nat :: IsLabel(rest, from, end, part)
  {
    FirstIsLabel(name, dot);
    hide FirstDot, IsLabel;
    if from: nat, end: nat :| IsLabel(name, from, end, part) {
      LabelOf(name, dot, from, end, part);
    }
    if from: nat, end: nat :| IsLabel(rest, from, end, part) {
      LabelBehind(name, dot, from, end, part);
    }
  }

  lemma FirstIsLabel(name: bytes, dot: nat)
    requires dot < |name| && name[dot] == DOT && DOT !in name[..dot]
    ensures IsLabel(name, 0, dot, name[..dot])
  {
    assert name[0..dot] == name[..dot];
  }

  lemma {:induction false} TunnelIff(rule: Rule, p: Packet)
    ensures IsTunnelLike(rule, p) <==> AsksSuspiciously(rule, p.app)
  {
    hide SplitDots, IsLabel;
    if p.app.Dns? && p.app.info.question.Some? {
      var name := p.app.info.question.value.name;
      if AsksSuspiciously(rule, p.app) {
        var from: nat, end: nat, part :|
          IsLabel(name, from, end, part) && |part| >= rule.minLabelLen && rule.highEntropy(part);
        LabelsAreParts(name, part);
      }
      if IsTunnelLike(rule, p) {
        var part :| part in SplitDots(name) && |part| >= rule.minLabelLen && rule.highEntropy(part);
        LabelsAreParts(name, part);
        var from: nat, end: nat :| IsLabel(name, from, end, part);
      }
    }
  }

  /** The packets that a rule turns into events, and the events it turns them into. */
  lemma {:induction false} WatchedIff(rule: Rule, p: Packet)
    ensures EventOf(rule, p).Some? <==> Watches(rule, p)
    ensures Watches(rule, p) ==> EventOf(rule, p) == Some(SourceEvent(p.ip.value.src, Event(p.ts, Told(rule, p))))
  {
    hide IsTunnelLike, AsksSuspiciously;
    TunnelIff(rule, p);
  }
  // ---------------------------------------------------------------- a source's packets

  ghost predicate IsOwn(rule: Rule, packets: seq<Packet>, src: IpAddr, i: nat)
    requires i < |packets|
  {
    Watches(rule, packets[i]) && packets[i].ip.value.src == src
  }

  /** The packets of one source that the rule watches, by index. */
  ghost function Own(rule: Rule, packets: seq<Packet>, src: IpAddr): seq<nat> {
    if packets == [] then []
    else
      var n := |packets| - 1;
      Own(rule, packets[..n], src) + if IsOwn(rule, packets, src, n) then [n] else []
  }

  ghost predicate Increases(indices: seq<nat>, limit: nat) {
    && (forall k :: 0 <= k < |indices| ==> indices[k] < limit)
    && (forall j, k :: 0 <= j < k < |indices| ==> indices[j] < indices[k])
  }

  lemma {:induction false} OwnIff(rule: Rule, packets: seq<Packet>, src: IpAddr)
    ensures Increases(Own(rule, packets, src), |packets|)
    ensures forall i: nat :: i in Own(rule, packets, src) <==> i < |packets| && IsOwn(rule, packets, src, i)
  {
    hide Watches;
    if packets == [] {
    } else {
      var n := |packets| - 1;
      OwnIff(rule, packets[..n], src);
      assert forall i: nat :: i < n ==> (IsOwn(rule, packets[..n], src, i) <==> IsOwn(rule, packets, src, i));
    }
  }

  /** The event that a rule makes of a packet it watches. */
  ghost predicate IsEventFor(rule: Rule, p: Packet, e: Event<Key>) {
    Watches(rule, p) && e == Event(p.ts, Told(rule, p))
  }

  ghost predicate Matches(rule: Rule, packets: seq<Packet>, own: seq<nat>, history: seq<Event<Key>>) {
    && |history| == |own|
    && forall k :: 0 <= k < |own| ==> own[k] < |packets| && IsEventFor(rule, packets[own[k]], history[k])
  }

  lemma MatchesMore(rule: Rule, packets: seq<Packet>, own: seq<nat>, history: seq<Event<Key>>)
    requires packets != [] && Matches(rule, packets[..|packets| - 1], own, history)
    ensures Matches(rule, packets, own, history)
    ensures forall e :: IsEventFor(rule, packets[|packets| - 1], e) ==> Matches(rule, packets, own + [|packets| - 1], history + [e])
  {
    hide IsEventFor;
  }

  /** A rule's history of a source has the times and keys of the source's packets that the rule watches, in order. */
  lemma {:induction false} HistoryIsOwn(rule: Rule, packets: seq<Packet>, src: IpAddr)
    ensures Matches(rule, packets, Own(rule, packets, src), HistoryOf(rule, packets, src))
  {
    hide Watches, Told, EventOf, HistoryOf, Matches;
    if packets == [] {
      NoHistory(rule, src);
    } else {
      var n := |packets| - 1;
      var before, p := packets[..n], packets[n];
      HistoryIsOwn(rule, before, src);
      WatchedIff(rule, p);
      HistoryOfSnoc(rule, packets, src);
      MatchesMore(rule, packets, Own(rule, before, src), HistoryOf(rule, before, src));
      assert Own(rule, before, src) + [] == Own(rule, before, src);
      assert HistoryOf(rule, before, src) + [] == HistoryOf(rule, before, src);
      if Watches(rule, p) {
        assert IsEventFor(rule, p, Event(p.ts, Told(rule, p)));
      }
    }
  }

  lemma {:induction false} NoHistory(rule: Rule, src: IpAddr)
    ensures Matches(rule, [], [], HistoryOf(rule, [], src))
  {
  }

  /** The later packets of the source that the rule watches. */
  ghost function Behind(rule: Rule, packets: seq<Packet>, src: IpAddr, i: nat): set<nat> {
    set j: nat | i < j < |packets| && IsOwn(rule, packets, src, j)
  }

  /** What counts at the last packet: the source's newest 65,536 packets, of those at most one window old. */
  ghost function Counted(rule: Rule, packets: seq<Packet>): set<nat>
    requires packets != [] && packets[|packets| - 1].ip.Some?
  {
    var p := packets[|packets| - 1];
    set i: nat | i < |packets| && IsOwn(rule, packets, p.ip.value.src, i)
                 && packets[i].ts + rule.window >= p.ts && |Behind(rule, packets, p.ip.value.src, i)| < 65_536
  }

  /** The count a rule compares with its threshold: packets, or distinct destinations or destination ports. */
  ghost function Observed(rule: Rule, packets: seq<Packet>): nat
    requires packets != [] && packets[|packets| - 1].ip.Some?
  {
    var counted := Counted(rule, packets);
    match rule.kind
    case PacketRate => |counted|
    case DnsTunnel => |counted|
    case HostSweep => |set i | i in counted :: packets[i].ip.value.dst|
    case PortScan => |set i | i in counted :: packets[i].transport.tcp.dstPort|
  }

  lemma IncreasingSize(indices: seq<nat>, limit: nat)
    requires Increases(indices, limit)
    ensures |Lru.Elements(indices)| == |indices|
  {
    Lru.DistinctSize(indices);
  }

  /** How many of a source's packets come after its `k`-th. */
  lemma {:induction false} BehindSize(rule: Rule, packets: seq<Packet>, src: IpAddr, k: nat)
    requires k < |Own(rule, packets, src)|
    ensures |Behind(rule, packets, src, Own(rule, packets, src)[k])| == |Own(rule, packets, src)| - 1 - k
  {
    hide Own, IsOwn;
    OwnIff(rule, packets, src);
    var own := Own(rule, packets, src);
    var later := own[k + 1..];
    IncreasingSize(later, |packets|);
    forall j: nat | j in Behind(rule, packets, src, own[k])
      ensures j in later
    {
      var m :| 0 <= m < |own| && own[m] == j;
      assert later[m - k - 1] == j;
    }
    assert Behind(rule, packets, src, own[k]) == Lru.Elements(later);
  }

  ghost function At(own: seq<nat>, positions: set<nat>): set<nat>
    requires forall k :: k in positions ==> k < |own|
  {
    set k | k in positions :: own[k]
  }

  lemma {:induction false} AtSize(own: seq<nat>, limit: nat, positions: set<nat>)
    requires Increases(own, limit) && forall k :: k in positions ==> k < |own|
    ensures |At(own, positions)| == |positions|
    decreases |positions|
  {
    if positions == {} {
      assert At(own, positions) == {};
    } else {
      var k :| k in positions;
      AtSize(own, limit, positions - {k});
      assert At(own, positions) == At(own, positions - {k}) + {own[k]};
    }
  }

  /** The packets that count are those of the events in the declarative window. */
  lemma {:induction false} CountedIsRecent(rule: Rule, packets: seq<Packet>)
    requires packets != [] && Watches(rule, packets[|packets| - 1])
    ensures var src := packets[|packets| - 1].ip.value.src;
            var own, history := Own(rule, packets, src), HistoryOf(rule, packets, src);
            && history != [] && |own| == |history| && Increases(own, |packets|)
            && Counted(rule, packets) == At(own, Recent(history, rule.window))
  {
    hide Own, Behind, HistoryOf, Increases, AsksSuspiciously, OpensConnection;
    var n := |packets| - 1;
    var src := packets[n].ip.value.src;
    var own, history := Own(rule, packets, src), HistoryOf(rule, packets, src);
    HistoryIsOwn(rule, packets, src);
    OwnIff(rule, packets, src);
    LastIsOwn(rule, packets);
    forall k: nat | k < |own|
      ensures own[k] in Counted(rule, packets) <==> k in Recent(history, rule.window)
    {
      BehindSize(rule, packets, src, k);
      assert own[k] in own;
    }
    forall i | i in Counted(rule, packets)
      ensures i in At(own, Recent(history, rule.window))
    {
      assert i in own;
      var k :| 0 <= k < |own| && own[k] == i;
    }
  }

  lemma {:induction false} LastIsOwn(rule: Rule, packets: seq<Packet>)
    requires packets != [] && Watches(rule, packets[|packets| - 1])
    ensures var p := packets[|packets| - 1];
            var own, history := Own(rule, packets, p.ip.value.src), HistoryOf(rule, packets, p.ip.value.src);
            own != [] && own[|own| - 1] == |packets| - 1 && history != [] && history[|history| - 1].ts == p.ts
  {
    hide AsksSuspiciously, OpensConnection, HistoryOf;
    HistoryIsOwn(rule, packets, packets[|packets| - 1].ip.value.src);
  }

  lemma {:induction false} HostsSize(hosts: set<IpAddr>)
    ensures |set h | h in hosts :: Host(h)| == |hosts|
  {
    if hosts == {} {
      assert (set h | h in hosts :: Host(h)) == {};
    } else {
      var x :| x in hosts;
      HostsSize(hosts - {x});
      assert (set h | h in hosts :: Host(h)) == (set h | h in hosts - {x} :: Host(h)) + {Host(x)};
    }
  }

  lemma {:induction false} PortsSize(ports: set<u16>)
    ensures |set q | q in ports :: Port(q)| == |ports|
  {
    if ports == {} {
      assert (set q | q in ports :: Port(q)) == {};
    } else {
      var x :| x in ports;
      PortsSize(ports - {x});
      assert (set q | q in ports :: Port(q)) == (set q | q in ports - {x} :: Port(q)) + {Port(x)};
    }
  }

  ghost predicate AreWatched(rule: Rule, packets: seq<Packet>, indices: set<nat>) {
    forall i :: i in indices ==> i < |packets| && Watches(rule, packets[i])
  }

  lemma MatchedAreWatched(rule: Rule, packets: seq<Packet>, own: seq<nat>, history: seq<Event<Key>>, positions: set<nat>)
    requires Matches(rule, packets, own, history) && forall k :: k in positions ==> k < |own|
    ensures AreWatched(rule, packets, At(own, positions))
  {
    hide Watches;
  }

  /** Distinct keys of events are distinct destinations of their packets. */
  lemma {:induction false} HostKeys(rule: Rule, packets: seq<Packet>, own: seq<nat>, history: seq<Event<Key>>, positions: set<nat>)
    requires rule.kind.HostSweep? && Matches(rule, packets, own, history) && forall k :: k in positions ==> k < |own|
    requires AreWatched(rule, packets, At(own, positions))
    ensures |set i | i in At(own, positions) :: packets[i].ip.value.dst| == |KeysAt(history, positions)|
  {
    var hosts := set i | i in At(own, positions) :: packets[i].ip.value.dst;
    HostsSize(hosts);
    assert KeysAt(history, positions) == set h | h in hosts :: Host(h);
  }

  /** Distinct keys of events are distinct destination ports of their packets. */
  lemma {:induction false} PortKeys(rule: Rule, packets: seq<Packet>, own: seq<nat>, history: seq<Event<Key>>, positions: set<nat>)
    requires rule.kind.PortScan? && Matches(rule, packets, own, history) && forall k :: k in positions ==> k < |own|
    requires AreWatched(rule, packets, At(own, positions))
    ensures |set i | i in At(own, positions) :: packets[i].transport.tcp.dstPort| == |KeysAt(history, positions)|
  {
    var ports := set i | i in At(own, positions) :: packets[i].transport.tcp.dstPort;
    PortsSize(ports);
    assert KeysAt(history, positions) == set q | q in ports :: Port(q);
  }

  lemma {:induction false} ObservedIsInWindow(rule: Rule, packets: seq<Packet>)
    requires packets != [] && Watches(rule, packets[|packets| - 1])
    ensures var src := packets[|packets| - 1].ip.value.src;
            HistoryOf(rule, packets, src) != [] && Observed(rule, packets) == InWindow(rule, HistoryOf(rule, packets, src))
  {
    hide Own, HistoryOf, Recent, Counted, Increases, Matches, KeysAt, At, AsksSuspiciously, OpensConnection;
    var src := packets[|packets| - 1].ip.value.src;
    var own, history := Own(rule, packets, src), HistoryOf(rule, packets, src);
    CountedIsRecent(rule, packets);
    var recent := Recent(history, rule.window);
    RecentBounds(history, rule.window);
    AtSize(own, |packets|, recent);
    HistoryIsOwn(rule, packets, src);
    MatchedAreWatched(rule, packets, own, history, recent);
    if rule.kind.HostSweep? {
      HostKeys(rule, packets, own, history, recent);
    } else if rule.kind.PortScan? {
      PortKeys(rule, packets, own, history, recent);
    }
  }

  lemma RecentBounds(history: seq<Event<Key>>, window: u64)
    requires history != []
    ensures forall k :: k in Recent(history, window) ==> k < |history|
  {
  }
  // ---------------------------------------------------------------- when a rule alerts

  /** Some earlier alert is less than one cooldown old; the end of a cooldown saturates. */
  ghost predicate StillCooling(rule: Rule, alerts: seq<u64>, ts: u64) {
    exists t :: t in alerts && ts < Min(t + rule.cooldown, 0xFFFF_FFFF_FFFF_FFFF)
  }

  lemma CoolingSnoc(rule: Rule, alerts: seq<u64>, t: u64, ts: u64)
    ensures StillCooling(rule, alerts + [t], ts) <==> StillCooling(rule, alerts, ts) || ts < SatAdd(t, rule.cooldown)
  {
    assert forall x :: x in alerts + [t] <==> x in alerts || x == t;
    if StillCooling(rule, alerts, ts) {
      var x :| x in alerts && ts < Min(x + rule.cooldown, 0xFFFF_FFFF_FFFF_FFFF);
      assert x in alerts + [t];
    }
    if ts < SatAdd(t, rule.cooldown) {
      assert t in alerts + [t];
    }
  }

  lemma {:induction false} TooSoonIff(rule: Rule, history: seq<Event<Key>>, ts: u64)
    ensures TooSoon(rule, history, ts) <==> StillCooling(rule, AlertTimes(rule, history), ts)
  {
    hide SourceAlert, StillCooling, TooSoon;
    if history == [] {
      NothingTooSoon(rule, ts);
    } else {
      var before, e := history[..|history| - 1], history[|history| - 1];
      assert history == before + [e];
      TooSoonIff(rule, before, ts);
      TooSoonSnoc(rule, before, e, ts);
      AlertTimesSnoc(rule, before, e);
      CoolingSnoc(rule, AlertTimes(rule, before), e.ts, ts);
      assert AlertTimes(rule, before) + [] == AlertTimes(rule, before);
    }
  }

  lemma {:induction false} NothingTooSoon(rule: Rule, ts: u64)
    ensures !TooSoon(rule, [], ts) && !StillCooling(rule, AlertTimes(rule, []), ts)
  {
  }

  /** What a rule reports of the last packet of a run, if it watches it. */
  ghost function Reported(rule: Rule, packets: seq<Packet>): Option<Alert>
    requires packets != []
  {
    var p := packets[|packets| - 1];
    if !Watches(rule, p) || Observed(rule, packets) < rule.threshold
       || StillCooling(rule, AlertTimesFor(rule, packets[..|packets| - 1], p.ip.value.src), p.ts)
    then None
    else Some(Alert(p.ts, rule.id, rule.severity, p.ip.value.src, Observed(rule, packets)))
  }

  lemma {:induction false} ObservedAlerts(rule: Rule, packets: seq<Packet>, src: IpAddr, history: seq<Event<Key>>)
    requires packets != [] && Watches(rule, packets[|packets| - 1]) && src == packets[|packets| - 1].ip.value.src
    requires StaysTracked(EventsOf(rule, packets), src) && history == HistoryOf(rule, packets, src)
    requires Settled(history, rule.window)
    ensures history != []
    ensures var n := |packets| - 1;
            var cooling := StillCooling(rule, AlertTimesFor(rule, packets[..n], src), packets[n].ts);
            SourceAlert(rule, history)
            == if Observed(rule, packets) >= rule.threshold && !cooling then Some(Observed(rule, packets)) else None
  {
    hide SourceAlert, Observed, InWindow, TooSoon, StillCooling, AlertTimes, AlertTimesFor, EventsOf, HistoryOf, Settled, StaysTracked;
    hide Watches, EventOf;
    var n := |packets| - 1;
    WatchedIff(rule, packets[n]);
    LastIsOwn(rule, packets);
    ObservedIsInWindow(rule, packets);
    AlertUnfolds(rule, history);
    HistoryOfSnoc(rule, packets, src);
    StaysTrackedSnoc(EventsOf(rule, packets[..n]), EventOf(rule, packets[n]).value, src);
    AlertTimesOfTracked(rule, packets[..n], src);
    assert history[..|history| - 1] == HistoryOf(rule, packets[..n], src);
    TooSoonIff(rule, history[..|history| - 1], packets[n].ts);
  }

  /**
   * What a rule does, told by packets: the last packet of a run alerts exactly when the rule watches it, the source's
   * packets that count reach the threshold, and no earlier alert of the source is still cooling down. Assumes that the
   * source stays tracked and that the times of its packets are settled.
   */
  lemma {:induction false} AlertMeans(rule: Rule, packets: seq<Packet>)
    requires packets != []
    requires var p := packets[|packets| - 1];
             p.ip.Some? ==> StaysTracked(EventsOf(rule, packets), p.ip.value.src)
                            && Settled(HistoryOf(rule, packets, p.ip.value.src), rule.window)
    ensures LastAlert(rule, packets) == Reported(rule, packets)
  {
    hide SourceAlert, LastAlert, Observed, StillCooling, StaysTracked, EventOf, SinceEntry, EventsOf, HistoryOf, Settled;
    hide AsksSuspiciously, OpensConnection;
    var p := packets[|packets| - 1];
    WatchedIff(rule, p);
    if Watches(rule, p) {
      EntryIsWholeIff(EventsOf(rule, packets), p.ip.value.src);
      LastAlertOfSource(rule, packets);
      EntryIsHistory(rule, packets, p.ip.value.src);
      ObservedAlerts(rule, packets, p.ip.value.src, HistoryOf(rule, packets, p.ip.value.src));
    } else {
      NoEventNoAlert(rule, packets);
    }
  }

  lemma {:induction false} EntryIsHistory(rule: Rule, packets: seq<Packet>, src: IpAddr)
    requires SinceEntry(EventsOf(rule, packets), src) == Project(EventsOf(rule, packets), src)
    ensures RecentHistoryOf(rule, packets, src) == HistoryOf(rule, packets, src)
  {
  }

  ghost predicate TimesInOrder(packets: seq<Packet>) {
    forall i, j :: 0 <= i <= j < |packets| ==> packets[i].ts <= packets[j].ts
  }

  lemma {:induction false} OrderedOwn(rule: Rule, packets: seq<Packet>, own: seq<nat>, history: seq<Event<Key>>)
    requires TimesInOrder(packets) && Increases(own, |packets|) && Matches(rule, packets, own, history)
    ensures Monotone(history)
  {
    hide Watches;
    forall j, k | 0 <= j <= k < |history|
      ensures history[j].ts <= history[k].ts
    {
      assert IsEventFor(rule, packets[own[j]], history[j]) && IsEventFor(rule, packets[own[k]], history[k]);
    }
  }

  /** For packets in order that is all there is to it. */
  lemma {:induction false} InOrderAlertMeans(rule: Rule, packets: seq<Packet>)
    requires packets != [] && TimesInOrder(packets)
    requires var p := packets[|packets| - 1];
             p.ip.Some? ==> StaysTracked(EventsOf(rule, packets), p.ip.value.src)
    ensures LastAlert(rule, packets) == Reported(rule, packets)
  {
    hide LastAlert, Reported, Own, HistoryOf, EventsOf, Matches, Increases, TimesInOrder, Monotone, Settled;
    var p := packets[|packets| - 1];
    if p.ip.Some? {
      HistoryIsOwn(rule, packets, p.ip.value.src);
      OwnIff(rule, packets, p.ip.value.src);
      OrderedOwn(rule, packets, Own(rule, packets, p.ip.value.src), HistoryOf(rule, packets, p.ip.value.src));
      MonotoneIsSettled(HistoryOf(rule, packets, p.ip.value.src), rule.window);
    }
    AlertMeans(rule, packets);
  }
}
