/** From frames to alerts: an engine run raises exactly what each of its rules calls for, packet by packet. */
module Detection {
  import opened Wrappers
  import opened PacketTypes
  import opened Parser
  import opened FlowSpec
  import opened Window
  import opened RuleSpec
  import opened EngineSpec

  /** The packets that the rules get to see: those of the frames that decode. */
  function PacketsIn(cfg: Config, frames: seq<Frame>): seq<Packet> {
    if frames == [] then []
    else
      var decoded := Decode(cfg.link, frames[|frames| - 1]);
      PacketsIn(cfg, frames[..|frames| - 1]) + if decoded.Ok? then [decoded.value] else []
  }

  /** Each rule with what it holds of its own history. */
  function Held(specs: seq<Rule>, packets: seq<Packet>): (rules: RuleStates)
    ensures |rules| == |specs|
    ensures forall i :: 0 <= i < |specs| ==> rules[i] == (specs[i], SourcesAfter(specs[i], packets))
  {
    seq(|specs|, i requires 0 <= i < |specs| => (specs[i], SourcesAfter(specs[i], packets)))
  }

  /** What the last packet raises, rule by rule. */
  function Raised(specs: seq<Rule>, packets: seq<Packet>): seq<Alert>
    requires packets != []
  {
    if specs == [] then []
    else
      var alert := LastAlert(specs[0], packets);
      (if alert.Some? then [alert.value] else []) + Raised(specs[1..], packets)
  }

  /** What all packets raise, packet by packet. */
  function AllRaised(specs: seq<Rule>, packets: seq<Packet>): seq<Alert> {
    if packets == [] then [] else AllRaised(specs, packets[..|packets| - 1]) + Raised(specs, packets)
  }

  lemma {:induction false} RuleSnoc(rule: Rule, before: seq<Packet>, p: Packet)
    ensures Evaluate(rule, SourcesAfter(rule, before), p) == (SourcesAfter(rule, before + [p]), LastAlert(rule, before + [p]))
  {
    hide Evaluate;
    assert (before + [p])[..|before|] == before;
  }

  /** Every rule sees the packet with its own state, whatever the other rules do. */
  lemma {:induction false} RulesAreIndependent(specs: seq<Rule>, before: seq<Packet>, p: Packet)
    ensures EvaluateAll(Held(specs, before), p) == (Held(specs, before + [p]), Raised(specs, before + [p]))
  {
    hide Evaluate, SourcesAfter, LastAlert;
    if specs == [] {
      assert Held(specs, before) == [] && Held(specs, before + [p]) == [];
    } else {
      assert Held(specs, before)[1..] == Held(specs[1..], before);
      RulesAreIndependent(specs[1..], before, p);
      RuleSnoc(specs[0], before, p);
      assert Held(specs, before + [p]) == [(specs[0], SourcesAfter(specs[0], before + [p]))] + Held(specs[1..], before + [p]);
    }
  }

  lemma {:induction false} RaisedSnoc(specs: seq<Rule>, before: seq<Packet>, p: Packet)
    ensures AllRaised(specs, before + [p]) == AllRaised(specs, before) + Raised(specs, before + [p])
  {
    assert (before + [p])[..|before|] == before;
  }

  ghost predicate Agrees(specs: seq<Rule>, packets: seq<Packet>, st: EngineState) {
    st.rules == Held(specs, packets) && st.alerts == AllRaised(specs, packets)
  }

  lemma ProcessAgrees(cfg: Config, specs: seq<Rule>, before: seq<Packet>, st: EngineState, frame: Frame)
    requires cfg.limits.capacity > 0 && Agrees(specs, before, st)
    ensures var decoded := Decode(cfg.link, frame);
            Agrees(specs, if decoded.Ok? then before + [decoded.value] else before, Process(cfg, st, frame).0)
  {
    hide Decode, Expire, TrackFlow, Count, EvaluateAll, AllRaised, Raised, Held;
    var decoded := Decode(cfg.link, frame);
    if decoded.Ok? {
      RulesAreIndependent(specs, before, decoded.value);
      RaisedSnoc(specs, before, decoded.value);
    }
  }

  lemma {:induction false} StartAgrees(specs: seq<Rule>)
    ensures Agrees(specs, [], Initial(Fresh(specs)))
  {
  }

  /** The alerts of an engine run are those that each rule's own run raises, packet by packet in the order of the rules. */
  lemma {:induction false} EngineRaisesExactly(cfg: Config, specs: seq<Rule>, frames: seq<Frame>)
    requires cfg.limits.capacity > 0
    ensures Agrees(specs, PacketsIn(cfg, frames), RunEngine(cfg, Fresh(specs), frames))
  {
    hide Agrees, Process, Decode;
    if frames == [] {
      StartAgrees(specs);
    } else {
      var before, frame := frames[..|frames| - 1], frames[|frames| - 1];
      EngineRaisesExactly(cfg, specs, before);
      ProcessAgrees(cfg, specs, PacketsIn(cfg, before), RunEngine(cfg, Fresh(specs), before), frame);
      assert PacketsIn(cfg, before) + [] == PacketsIn(cfg, before);
    }
  }
  // ---------------------------------------------------------------- what the alerts mean

  /** What a rule calls for at the last packet: its condition over the source's events since it entered the cache. */
  ghost function Called(rule: Rule, packets: seq<Packet>): Option<Alert>
    requires packets != []
  {
    var p := packets[|packets| - 1];
    if EventOf(rule, p).None? then None else CalledFor(rule, p, RecentHistoryOf(rule, packets, p.ip.value.src))
  }

  ghost function CalledByAll(specs: seq<Rule>, packets: seq<Packet>): seq<Alert>
    requires packets != []
  {
    if specs == [] then []
    else
      var alert := Called(specs[0], packets);
      (if alert.Some? then [alert.value] else []) + CalledByAll(specs[1..], packets)
  }

  /** What all rules call for at all packets. */
  ghost function AllCalled(specs: seq<Rule>, packets: seq<Packet>): seq<Alert> {
    if packets == [] then [] else AllCalled(specs, packets[..|packets| - 1]) + CalledByAll(specs, packets)
  }

  /** At every event of the rule, the timestamps of its source's events since entry are settled. */
  ghost predicate SettlesAt(rule: Rule, packets: seq<Packet>, n: nat)
    requires 0 < n <= |packets|
  {
    var p := packets[n - 1];
    EventOf(rule, p).Some? ==> Settled(RecentHistoryOf(rule, packets[..n], p.ip.value.src), rule.window)
  }

  ghost predicate AllSettle(specs: seq<Rule>, packets: seq<Packet>) {
    forall k, n :: 0 <= k < |specs| && 0 < n <= |packets| ==> SettlesAt(specs[k], packets, n)
  }

  lemma {:induction false} RaisedIsCalled(rule: Rule, packets: seq<Packet>)
    requires packets != [] && SettlesAt(rule, packets, |packets|)
    ensures LastAlert(rule, packets) == Called(rule, packets)
  {
    hide CalledFor, LastAlert, Settled, RecentHistoryOf, EventOf;
    assert packets[..|packets|] == packets;
    if EventOf(rule, packets[|packets| - 1]).Some? {
      EventSourceAndTime(rule, packets[|packets| - 1]);
      AlertsSinceEntry(rule, packets);
    } else {
      NoEventNoAlert(rule, packets);
    }
  }

  lemma {:induction false} RaisedAreCalled(specs: seq<Rule>, packets: seq<Packet>)
    requires packets != [] && forall k :: 0 <= k < |specs| ==> SettlesAt(specs[k], packets, |packets|)
    ensures Raised(specs, packets) == CalledByAll(specs, packets)
  {
    hide LastAlert, Called, SettlesAt;
    if specs == [] {
    } else {
      RaisedIsCalled(specs[0], packets);
      RaisedAreCalled(specs[1..], packets);
    }
  }

  lemma SettlesBefore(rule: Rule, packets: seq<Packet>, m: nat, n: nat)
    requires 0 < n <= m <= |packets|
    ensures SettlesAt(rule, packets[..m], n) <==> SettlesAt(rule, packets, n)
  {
    assert packets[..m][..n] == packets[..n];
  }

  lemma {:induction false} AllRaisedAreCalled(specs: seq<Rule>, packets: seq<Packet>)
    requires AllSettle(specs, packets)
    ensures AllRaised(specs, packets) == AllCalled(specs, packets)
  {
    hide SettlesAt, Raised, CalledByAll;
    if packets == [] {
    } else {
      var before := packets[..|packets| - 1];
      forall k, n | 0 <= k < |specs| && 0 < n <= |before|
        ensures SettlesAt(specs[k], before, n)
      {
        SettlesBefore(specs[k], packets, |packets| - 1, n);
      }
      AllRaisedAreCalled(specs, before);
      RaisedAreCalled(specs, packets);
    }
  }

  ghost predicate InOrder(packets: seq<Packet>) {
    forall i, j :: 0 <= i <= j < |packets| ==> packets[i].ts <= packets[j].ts
  }

  ghost predicate NoneAfter(history: seq<Event<Key>>, now: nat) {
    forall i :: 0 <= i < |history| ==> history[i].ts <= now
  }

  lemma MonotoneSnoc(history: seq<Event<Key>>, e: Event<Key>)
    requires Monotone(history) && NoneAfter(history, e.ts)
    ensures Monotone(history + [e]) && NoneAfter(history + [e], e.ts) && Monotone([e]) && NoneAfter([e], e.ts)
  {
  }

  lemma NoneAfterLater(history: seq<Event<Key>>, now: nat, later: nat)
    requires NoneAfter(history, now) && now <= later
    ensures NoneAfter(history, later)
  {
  }

  lemma InOrderPrefix(packets: seq<Packet>)
    requires packets != [] && InOrder(packets)
    ensures InOrder(packets[..|packets| - 1])
    ensures |packets| > 1 ==> packets[|packets| - 2].ts <= packets[|packets| - 1].ts
  {
  }

  /** In-order packets give every source events in order. */
  lemma {:induction false} EntryInOrder(rule: Rule, packets: seq<Packet>, src: IpAddr)
    requires InOrder(packets)
    ensures Monotone(RecentHistoryOf(rule, packets, src))
    ensures NoneAfter(RecentHistoryOf(rule, packets, src), if packets == [] then 0 else packets[|packets| - 1].ts)
  {
    hide EventOf, IsTracked, Monotone, NoneAfter, SinceEntry, InOrder;
    if packets == [] {
      NoEntry(rule, src);
    } else {
      var before, p := packets[..|packets| - 1], packets[|packets| - 1];
      InOrderPrefix(packets);
      EntryInOrder(rule, before, src);
      EventSourceAndTime(rule, p);
      var earlier, e := RecentHistoryOf(rule, before, src), EventOf(rule, p);
      NoneAfterLater(earlier, if before == [] then 0 else before[|before| - 1].ts, p.ts);
      if e.Some? {
        EntrySnoc(EventsOf(rule, before), e.value, src);
        MonotoneSnoc(earlier, e.value.event);
        assert [] + [e.value.event] == [e.value.event];
      } else {
        assert EventsOf(rule, before) + [] == EventsOf(rule, before);
      }
    }
  }

  lemma {:induction false} NoEntry(rule: Rule, src: IpAddr)
    ensures Monotone(RecentHistoryOf(rule, [], src)) && NoneAfter(RecentHistoryOf(rule, [], src), 0)
  {
  }

  lemma {:induction false} InOrderSettles(specs: seq<Rule>, packets: seq<Packet>)
    requires InOrder(packets)
    ensures AllSettle(specs, packets)
  {
    hide EventOf, RecentHistoryOf, Settled, Monotone;
    forall k, n | 0 <= k < |specs| && 0 < n <= |packets|
      ensures SettlesAt(specs[k], packets, n)
    {
      var p := packets[n - 1];
      if EventOf(specs[k], p).Some? {
        EventSourceAndTime(specs[k], p);
        EntryInOrder(specs[k], packets[..n], p.ip.value.src);
        MonotoneIsSettled(RecentHistoryOf(specs[k], packets[..n], p.ip.value.src), specs[k].window);
      }
    }
  }

  lemma {:induction false} PacketsInOrder(cfg: Config, frames: seq<Frame>)
    requires forall i, j :: 0 <= i <= j < |frames| ==> frames[i].ts <= frames[j].ts
    ensures InOrder(PacketsIn(cfg, frames))
    ensures forall i :: 0 <= i < |PacketsIn(cfg, frames)| ==>
              frames != [] && PacketsIn(cfg, frames)[i].ts <= frames[|frames| - 1].ts
  {
    hide Decode;
    if frames == [] {
    } else {
      var before, frame := frames[..|frames| - 1], frames[|frames| - 1];
      PacketsInOrder(cfg, before);
      if Decode(cfg.link, frame).Ok? {
        DecodedIsShaped(cfg.link, frame);
      }
    }
  }

  /**
   * From frames to alerts: while the timestamps of a source's events are settled, the engine raises exactly what its
   * rules call for by their declarative condition, rule by rule at every decoded packet.
   */
  lemma {:induction false} EngineIsExact(cfg: Config, specs: seq<Rule>, frames: seq<Frame>)
    requires cfg.limits.capacity > 0 && AllSettle(specs, PacketsIn(cfg, frames))
    ensures RunEngine(cfg, Fresh(specs), frames).alerts == AllCalled(specs, PacketsIn(cfg, frames))
  {
    hide RunEngine, AllRaised, AllCalled, AllSettle, PacketsIn, Held;
    EngineRaisesExactly(cfg, specs, frames);
    AllRaisedAreCalled(specs, PacketsIn(cfg, frames));
  }

  /** Frames that come in order are settled for every rule. */
  lemma {:induction false} InOrderEngineIsExact(cfg: Config, specs: seq<Rule>, frames: seq<Frame>)
    requires cfg.limits.capacity > 0 && forall i, j :: 0 <= i <= j < |frames| ==> frames[i].ts <= frames[j].ts
    ensures RunEngine(cfg, Fresh(specs), frames).alerts == AllCalled(specs, PacketsIn(cfg, frames))
  {
    hide RunEngine, AllCalled, AllSettle, PacketsIn, InOrder;
    PacketsInOrder(cfg, frames);
    InOrderSettles(specs, PacketsIn(cfg, frames));
    EngineIsExact(cfg, specs, frames);
  }
}
