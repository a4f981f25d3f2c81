/** The state shared by capture threads and pollers (`core-ffi/src/core.rs`), as one thread sees it. */
module SharedCore {
  import opened Wrappers
  import opened PacketTypes
  import opened RuleSpec
  import opened AlertQueue
  import EngineSpec
  import Engines

  // ---------------------------------------------------------------- pushing several alerts

  /** The queue after the first `i` of the raised alerts. */
  ghost function QueueAfter(before: seq<Alert>, raised: seq<Alert>, i: nat): seq<Alert>
    requires i <= |raised|
  {
    Newest(before + raised[..i])
  }

  lemma PushedNone(before: seq<Alert>, raised: seq<Alert>)
    requires |before| <= ALERT_QUEUE_CAPACITY
    ensures QueueAfter(before, raised, 0) == before && Overflow(|before|) == 0
  {
    assert before + raised[..0] == before;
  }

  lemma PushedOne(before: seq<Alert>, raised: seq<Alert>, i: nat)
    requires i < |raised|
    ensures var queue := QueueAfter(before, raised, i);
            && Newest(queue + [raised[i]]) == QueueAfter(before, raised, i + 1)
            && Overflow(|before| + i) + Overflow(|queue| + 1) == Overflow(|before| + i + 1)
  {
    hide Newest, Overflow;
    NewestOfMore(before + raised[..i], [raised[i]]);
    assert before + raised[..i] + [raised[i]] == before + raised[..i + 1];
  }

  lemma PushedAll(before: seq<Alert>, raised: seq<Alert>)
    ensures QueueAfter(before, raised, |raised|) == Newest(before + raised)
  {
    assert raised[..|raised|] == raised;
  }

  // ---------------------------------------------------------------- the shared state

  class Shared {
    const engine: Engines.Engine
    var alerts: seq<Alert>
    var alertsTotal: nat
    var alertsDropped: nat
    ghost var Repr: set<object>

    ghost predicate Valid()
      reads this, Repr
    {
      && this in Repr && engine in Repr && engine.Repr <= Repr && this !in engine.Repr
      && engine.Valid()
      && |alerts| <= ALERT_QUEUE_CAPACITY
    }

    constructor (config: EngineSpec.Config, topN: nat, specs: seq<Rule>)
      requires config.limits.capacity > 0
      ensures Valid() && fresh(Repr) && alerts == [] && alertsTotal == 0 && alertsDropped == 0
      ensures engine.config == config && engine.topN == topN && engine.State() == EngineSpec.Initial(engine.rules.View)
      ensures |engine.rules.View| == |specs|
      ensures forall i :: 0 <= i < |specs| ==> engine.rules.View[i] == (specs[i], [])
    {
      engine := new Engines.Engine(config, topN, specs);
      alerts, alertsTotal, alertsDropped := [], 0, 0;
      new;
      Repr := {this} + engine.Repr;
    }

    /**
     * Processes one frame and queues all alerts it raises: of old and new alerts together the newest 1,024 stay, and
     * every displaced one is counted.
     */
    method Ingest(frame: Frame)
      requires Valid()
      modifies Repr
      ensures Valid() && fresh(Repr - old(Repr))
      ensures var after := EngineSpec.Process(engine.config, old(engine.State()), frame).0;
              && engine.State() == after.(alerts := [])
              && alerts == Newest(old(alerts) + after.alerts)
              && alertsTotal == old(alertsTotal) + |after.alerts|
              && alertsDropped == old(alertsDropped) + Overflow(|old(alerts)| + |after.alerts|)
    {
      hide EngineSpec.Process, Engines.Engine.Valid, Newest, Overflow;
      var decoded := engine.Process(frame);
      var raised := engine.DrainAlerts();
      Repr := Repr + engine.Repr;
      PushAll(raised);
    }

    method PushAll(raised: seq<Alert>)
      requires Valid()
      modifies this`alerts, this`alertsTotal, this`alertsDropped
      ensures Valid()
      ensures alerts == Newest(old(alerts) + raised) && alertsTotal == old(alertsTotal) + |raised|
      ensures alertsDropped == old(alertsDropped) + Overflow(|old(alerts)| + |raised|)
    {
      hide Engines.Engine.Valid, Newest, Overflow;
      ghost var before := alerts;
      PushedNone(before, raised);
      for i := 0 to |raised|
        invariant Valid()
        invariant alerts == QueueAfter(before, raised, i)
        invariant alertsTotal == old(alertsTotal) + i
        invariant alertsDropped == old(alertsDropped) + Overflow(|before| + i)
      {
        hide QueueAfter;
        PushedOne(before, raised, i);
        PushAlert(raised[i]);
      }
      PushedAll(before, raised);
    }

    method PushAlert(alert: Alert)
      requires Valid()
      modifies this`alerts, this`alertsTotal, this`alertsDropped
      ensures Valid()
      ensures alerts == Newest(old(alerts) + [alert]) && alertsTotal == old(alertsTotal) + 1
      ensures alertsDropped == old(alertsDropped) + Overflow(|old(alerts)| + 1)
    {
      hide Engines.Engine.Valid;
      alertsTotal := alertsTotal + 1;
      if |alerts| == ALERT_QUEUE_CAPACITY {
        alerts := alerts[1..];
        alertsDropped := alertsDropped + 1;
      }
      alerts := alerts + [alert];
    }

    method PopAlert() returns (alert: Option<Alert>)
      requires Valid()
      modifies this`alerts
      ensures Valid()
      ensures if old(alerts) == [] then alert.None? && alerts == []
              else alert == Some(old(alerts)[0]) && alerts == old(alerts)[1..]
    {
      if alerts == [] {
        return None;
      }
      alert, alerts := Some(alerts[0]), alerts[1..];
    }
  }
}
