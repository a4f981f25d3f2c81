/**
 * How a stream of the analytics link ends (`core-grpc/src/link.rs`): what is lost with it without a trace in the
 * counters, and how a shutdown comes through to the worker.
 */
module LinkEnds {
  import opened LinkSteps

  // ---------------------------------------------------------------- batches lost without a trace

  /** Step `m` broke the stream that is still the newest one. */
  ghost predicate BrokeAt(threads: nat, actions: seq<Action>, m: nat) {
    && m < |actions| && actions[m].BreakStream?
    && RunLink(threads, actions[..m]).wire.open
    && RunLink(threads, actions[..m]).wire.streams == RunLink(threads, actions).wire.streams
  }

  lemma StepStreams(s: Link, a: Action)
    ensures var after := Step(s, a);
            && after.wire.streams >= s.wire.streams
            && (after.wire.open && !s.wire.open ==> after.wire.streams > s.wire.streams)
            && (a.BreakStream? ==> !after.wire.open && after.wire.streams == s.wire.streams)
            && (after.pc.InStream() && !after.wire.open ==>
                  s.pc.InStream() && after.wire.streams == s.wire.streams && (s.wire.open ==> a.BreakStream?))
  {
  }

  lemma {:induction false} StreamsGrow(threads: nat, actions: seq<Action>, m: nat)
    requires m <= |actions|
    ensures RunLink(threads, actions[..m]).wire.streams <= RunLink(threads, actions).wire.streams
  {
    hide Step;
    if m == |actions| {
      assert actions[..m] == actions;
    } else {
      var before := actions[..|actions| - 1];
      StreamsGrow(threads, before, m);
      assert before[..m] == actions[..m];
      StepStreams(RunLink(threads, before), actions[|actions| - 1]);
    }
  }

  lemma {:induction false} BrokeSnoc(threads: nat, before: seq<Action>, a: Action, m: nat)
    ensures BrokeAt(threads, before + [a], m) <==>
            if m < |before| then
              BrokeAt(threads, before, m) && RunLink(threads, before + [a]).wire.streams == RunLink(threads, before).wire.streams
            else m == |before| && a.BreakStream? && RunLink(threads, before).wire.open
  {
    hide Step;
    var actions := before + [a];
    RunSnoc(threads, before, a);
    StepStreams(RunLink(threads, before), a);
    if m < |before| {
      assert actions[..m] == before[..m] && actions[m] == before[m];
      StreamsGrow(threads, before, m);
    } else if m == |before| {
      assert actions[..m] == before;
    }
  }

  /** During a stream, its receiving half is gone exactly if a step of this stream broke it. */
  lemma {:induction false} BrokenIff(threads: nat, actions: seq<Action>)
    ensures var s := RunLink(threads, actions);
            && (s.pc.InStream() && !s.wire.open ==> exists m :: BrokeAt(threads, actions, m))
            && ((exists m :: BrokeAt(threads, actions, m)) ==> !s.wire.open)
  {
    hide Step, BrokeAt;
    if actions == [] {
      NothingBroke(threads);
    } else {
      var n := |actions| - 1;
      var before, a := actions[..n], actions[n];
      assert actions == before + [a];
      BrokenIff(threads, before);
      StepStreams(RunLink(threads, before), a);
      if m :| BrokeAt(threads, actions, m) {
        BrokeSnoc(threads, before, a, m);
      }
      if RunLink(threads, actions).pc.InStream() && !RunLink(threads, actions).wire.open {
        var m: nat := n;
        if !RunLink(threads, before).wire.open {
          m :| BrokeAt(threads, before, m);
          WithinRun(threads, before, m);
        }
        BrokeSnoc(threads, before, a, m);
      }
    }
  }

  lemma WithinRun(threads: nat, actions: seq<Action>, m: nat)
    ensures BrokeAt(threads, actions, m) ==> m < |actions|
  {
  }

  lemma {:induction false} NothingBroke(threads: nat)
    ensures !RunLink(threads, []).pc.InStream() && forall m :: !BrokeAt(threads, [], m)
  {
  }

  /**
   * In any run, a step loses an accepted batch without counting it exactly if it forwards a batch into a stream that was
   * broken after it began; the public counters stay as they are.
   */
  lemma {:induction false} ForgetsIff(threads: nat, actions: seq<Action>, a: Action)
    ensures var s := RunLink(threads, actions);
            && (CountFate(Step(s, a).ledger.fates, Forgotten) != CountFate(s.ledger.fates, Forgotten)
                <==> a.Forward? && s.pc.Forwarding? && exists m :: BrokeAt(threads, actions, m))
            && (CountFate(Step(s, a).ledger.fates, Forgotten) != CountFate(s.ledger.fates, Forgotten) ==>
                  Step(s, a).counters == s.counters && Step(s, a).ledger.fates == s.ledger.fates + [Forgotten])
  {
    hide RunLink, CountFate, BrokeAt;
    var s := RunLink(threads, actions);
    BrokenIff(threads, actions);
    StepFates(s, a);
  }

  /**
   * In any run, a step makes batches vanish that were handed over already exactly if it ends a stream whose buffer holds
   * some: the peer breaks it, or the worker gives it up or shuts down between two batches.
   */
  lemma {:induction false} VanishesIff(threads: nat, actions: seq<Action>, a: Action)
    ensures var s := RunLink(threads, actions);
            && (Step(s, a).wire.vanished != s.wire.vanished
                <==> && s.wire.open && s.wire.inner != []
                     && (a.BreakStream? || (s.pc.Streaming? && (a.LoseStream? || (a.SeeShutdown? && s.shutdown)))))
            && Step(s, a).wire.vanished <= s.wire.vanished + |s.wire.inner|
            && (Step(s, a).wire.vanished != s.wire.vanished ==> Step(s, a).counters == s.counters)
  {
    hide RunLink, KeepsOrder, CountsAgree, StateMatches, TimerHolds, CountFate;
    RunHolds(threads, actions);
  }

  /** A run that accepts a batch and loses it, though every public counter is zero at its end. */
  lemma {:induction false} ForgottenRun(batch: FlowBatch) returns (actions: seq<Action>)
    ensures var s := RunLink(1, actions);
            && s.ledger.accepted == [batch] && s.ledger.fates == [Forgotten] && s.queue == []
            && s.counters.sent == 0 && s.counters.dropped == 0 && s.ledger.refused == 0
  {
    hide RunLink;
    actions := InHand(batch);
    RunSnoc(1, actions, BreakStream);
    actions := actions + [BreakStream];
    RunSnoc(1, actions, Forward);
    actions := actions + [Forward];
  }

  /** A run that counts a batch as sent, which the peer never takes and the lost stream discards. */
  lemma {:induction false} VanishedRun(batch: FlowBatch) returns (actions: seq<Action>)
    ensures var s := RunLink(1, actions);
            && s.ledger.accepted == [batch] && s.counters.sent == 1
            && s.wire.transmitted == 0 && s.wire.inner == [] && s.wire.vanished == 1
  {
    hide RunLink;
    actions := InHand(batch);
    RunSnoc(1, actions, Forward);
    actions := actions + [Forward];
    RunSnoc(1, actions, CountSent);
    actions := actions + [CountSent];
    RunSnoc(1, actions, LoseStream);
    actions := actions + [LoseStream];
  }

  /** The worker has connected for the first time and taken the only batch offered. */
  lemma {:induction false} InHand(batch: FlowBatch) returns (actions: seq<Action>)
    ensures RunLink(1, actions)
            == OneOffer(Forwarding(batch), Connected, 0, [], Idle).(ledger := Ledger([batch], [], 0))
  {
    hide RunLink;
    actions := FirstConnect();
    RunSnoc(1, actions, Offer(0, batch));
    actions := actions + [Offer(0, batch)];
    assert RunLink(1, actions) == OneOffer(Streaming, Connected, 0, [], Checked(batch));
    RunSnoc(1, actions, TrySend(0));
    actions := actions + [TrySend(0)];
    assert RunLink(1, actions) == OneOffer(Streaming, Connected, 0, [batch], Idle);
    RunSnoc(1, actions, Take);
    actions := actions + [Take];
  }

  // ---------------------------------------------------------------- shutdown

  /** A step that the worker takes by itself, with the answer to its connection attempt. */
  predicate IsWorkers(a: Action) {
    !a.Offer? && !a.TrySend? && !a.CountRefusal? && !a.Transmit? && !a.BreakStream? && !a.RequestShutdown?
  }

  /** The worker holds a batch for a stream whose buffer is full and whose receiving half lives. */
  predicate IsBlocked(s: Link) {
    s.pc.Forwarding? && s.wire.open && |s.wire.inner| == 8
  }

  /** The worker's next step towards its end, once it has been told to shut down. */
  function TowardsEnd(s: Link): (a: Action)
    ensures IsWorkers(a)
  {
    match s.pc
    case Begin => Dial
    case Dialing => Connect(false)
    case Dialed => PublishConnected
    case Streaming | Waiting => SeeShutdown
    case Forwarding(_) => Forward
    case Forwarded => CountSent
    case Lost => PublishLost
    case Down => CountReconnect
    case Draining => CountDrain
    case Stopping => PublishStopped
    case Closing | Stopped => LinkSteps.Close
  }

  /** How many such steps are left at most. */
  function StepsLeft(pc: WorkerPc): nat {
    match pc
    case Stopped => 0
    case Closing => 1
    case Stopping => 2
    case Streaming | Waiting => 3
    case Dialed | Forwarded | Draining | Down => 4
    case Lost => 5
    case Dialing | Forwarding(_) => 6
    case Begin => 7
  }

  lemma StepsTowardsEnd(s: Link)
    requires s.shutdown && !s.pc.Stopped? && |s.wire.inner| <= 8
    ensures IsBlocked(s) ==> Step(s, TowardsEnd(s)) == s
    ensures !IsBlocked(s) ==>
              Step(s, TowardsEnd(s)).shutdown && StepsLeft(Step(s, TowardsEnd(s)).pc) < StepsLeft(s.pc)
  {
  }

  lemma BlockedStays(s: Link, a: Action)
    requires IsBlocked(s) && IsWorkers(a)
    ensures Step(s, a) == s
  {
  }

  /**
   * Once told to shut down, the worker is stuck exactly while it forwards into a full stream that the peer neither reads
   * nor breaks, since `forward` does not look at the shutdown: in every other case it can go on, unless it has stopped.
   */
  lemma {:induction false} ShutdownIsStuckIff(threads: nat, actions: seq<Action>)
    ensures var s := RunLink(threads, actions);
            s.shutdown && !s.pc.Stopped? ==>
              ((forall a :: IsWorkers(a) ==> Step(s, a).pc == s.pc) <==> IsBlocked(s))
  {
    hide RunLink, Step, KeepsOrder, CountsAgree, StateMatches, TimerHolds;
    var s := RunLink(threads, actions);
    RunHolds(threads, actions);
    if s.shutdown && !s.pc.Stopped? {
      StepsTowardsEnd(s);
      if IsBlocked(s) {
        forall a | IsWorkers(a)
          ensures Step(s, a).pc == s.pc
        {
          BlockedStays(s, a);
        }
      } else {
        assert IsWorkers(TowardsEnd(s)) && Step(s, TowardsEnd(s)).pc != s.pc;
      }
    }
  }

  lemma TransmitUnblocks(s: Link)
    requires IsBlocked(s)
    ensures var after := Step(s, Transmit);
            !IsBlocked(after) && after.pc == s.pc && after.shutdown == s.shutdown
  {
  }

  /**
   * From every state of every run in which it has been told to, the worker can stop within seven steps of its own, after
   * the peer has taken one batch if the worker is blocked.
   */
  lemma {:induction false} ShutdownCompletes(threads: nat, actions: seq<Action>) returns (more: seq<Action>)
    requires RunLink(threads, actions).shutdown
    ensures RunLink(threads, actions + more).pc.Stopped?
    ensures if IsBlocked(RunLink(threads, actions)) then
              more != [] && more[0] == Transmit && |more| <= 8 && forall i :: 1 <= i < |more| ==> IsWorkers(more[i])
            else |more| <= 7 && forall i :: 0 <= i < |more| ==> IsWorkers(more[i])
  {
    hide RunLink, Step, IsBlocked;
    if IsBlocked(RunLink(threads, actions)) {
      var unblocked := actions + [Transmit];
      RunSnoc(threads, actions, Transmit);
      TransmitUnblocks(RunLink(threads, actions));
      more := Ends(threads, unblocked);
      assert actions + ([Transmit] + more) == unblocked + more;
      more := [Transmit] + more;
    } else {
      more := Ends(threads, actions);
    }
  }

  /** In every run, at any time, a request to shut down can be followed to the end within eight more steps. */
  lemma {:induction false} EveryRunCanStop(threads: nat, actions: seq<Action>) returns (more: seq<Action>)
    ensures |more| <= 8 && RunLink(threads, actions + [RequestShutdown] + more).pc.Stopped?
  {
    hide RunLink, IsBlocked, IsWorkers;
    RunSnoc(threads, actions, RequestShutdown);
    more := ShutdownCompletes(threads, actions + [RequestShutdown]);
  }

  lemma {:induction false} Ends(threads: nat, actions: seq<Action>) returns (more: seq<Action>)
    requires RunLink(threads, actions).shutdown && !IsBlocked(RunLink(threads, actions))
    ensures RunLink(threads, actions + more).pc.Stopped?
    ensures |more| <= StepsLeft(RunLink(threads, actions).pc) && forall i :: 0 <= i < |more| ==> IsWorkers(more[i])
    decreases StepsLeft(RunLink(threads, actions).pc)
  {
    hide RunLink, Step, IsBlocked, IsWorkers, KeepsOrder, CountsAgree, StateMatches, TimerHolds;
    var s := RunLink(threads, actions);
    if s.pc.Stopped? {
      more := [];
      assert actions + [] == actions;
    } else {
      RunHolds(threads, actions);
      StepsTowardsEnd(s);
      var a := TowardsEnd(s);
      RunSnoc(threads, actions, a);
      StaysUnblocked(s);
      more := Ends(threads, actions + [a]);
      assert actions + [a] + more == actions + ([a] + more);
      more := [a] + more;
    }
  }

  lemma StaysUnblocked(s: Link)
    requires !IsBlocked(s)
    ensures !IsBlocked(Step(s, TowardsEnd(s)))
  {
  }
}
