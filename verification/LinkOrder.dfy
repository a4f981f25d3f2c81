/**
 * What the peer of the analytics link gets (`core-grpc/src/link.rs`): batches in the order in which they were accepted,
 * each at most once, and with lost streams some left out.
 */
module LinkOrder {
  import opened LinkSteps

  /** The accepted batches that were handed to a stream, in order. */
  function HandedOf(accepted: seq<FlowBatch>, fates: seq<Fate>): seq<FlowBatch>
    requires |fates| <= |accepted|
  {
    if fates == [] then []
    else
      var n := |fates| - 1;
      HandedOf(accepted, fates[..n]) + if fates[n] == Handed then [accepted[n]] else []
  }

  /** Those of some batches that are marked. */
  function Marked(batches: seq<FlowBatch>, marks: seq<bool>): seq<FlowBatch>
    requires |batches| == |marks|
  {
    if marks == [] then []
    else
      var n := |marks| - 1;
      Marked(batches[..n], marks[..n]) + if marks[n] then [batches[n]] else []
  }

  /** Of the batches handed over, those that have left the buffer come first, then the buffer's. */
  ghost predicate WireKeepsOrder(s: Link) {
    && |s.ledger.fates| <= |s.ledger.accepted|
    && var handed := HandedOf(s.ledger.accepted, s.ledger.fates);
       && |s.wire.ends| <= |handed| && s.wire.inner == handed[|s.wire.ends|..]
       && s.wire.delivered == Marked(handed[..|s.wire.ends|], s.wire.ends)
       && |s.wire.delivered| == s.wire.transmitted
  }

  lemma {:induction false} HandedLonger(accepted: seq<FlowBatch>, more: seq<FlowBatch>, fates: seq<Fate>)
    requires |fates| <= |accepted|
    ensures HandedOf(accepted + more, fates) == HandedOf(accepted, fates)
  {
    if fates == [] {
    } else {
      HandedLonger(accepted, more, fates[..|fates| - 1]);
    }
  }

  lemma {:induction false} HandedSnoc(accepted: seq<FlowBatch>, fates: seq<Fate>, f: Fate)
    requires |fates| < |accepted|
    ensures HandedOf(accepted, fates + [f])
            == HandedOf(accepted, fates) + if f == Handed then [accepted[|fates|]] else []
  {
    assert (fates + [f])[..|fates|] == fates;
  }

  lemma {:induction false} AbandonedHandsNone(accepted: seq<FlowBatch>, fates: seq<Fate>, n: nat)
    requires |fates| + n <= |accepted|
    ensures HandedOf(accepted, fates + seq(n, i => Abandoned)) == HandedOf(accepted, fates)
  {
    if n == 0 {
      assert fates + seq(n, i => Abandoned) == fates;
    } else {
      AbandonedHandsNone(accepted, fates, n - 1);
      HandedSnoc(accepted, fates + seq(n - 1, i => Abandoned), Abandoned);
      assert fates + seq(n, i => Abandoned) == fates + seq(n - 1, i => Abandoned) + [Abandoned];
    }
  }

  lemma {:induction false} MarkedSnoc(batches: seq<FlowBatch>, marks: seq<bool>, last: FlowBatch, mark: bool)
    requires |batches| == |marks|
    ensures Marked(batches + [last], marks + [mark]) == Marked(batches, marks) + if mark then [last] else []
  {
    assert (batches + [last])[..|batches|] == batches && (marks + [mark])[..|marks|] == marks;
  }

  lemma {:induction false} UnmarkedAdd(batches: seq<FlowBatch>, marks: seq<bool>, lost: seq<FlowBatch>)
    requires |batches| == |marks|
    ensures Marked(batches + lost, marks + seq(|lost|, i => false)) == Marked(batches, marks)
  {
    if lost == [] {
      assert batches + lost == batches && marks + seq(0, i => false) == marks;
    } else {
      var n := |lost| - 1;
      UnmarkedAdd(batches, marks, lost[..n]);
      MarkedSnoc(batches + lost[..n], marks + seq(n, i => false), lost[n], false);
      assert batches + lost == batches + lost[..n] + [lost[n]];
      assert marks + seq(|lost|, i => false) == marks + seq(n, i => false) + [false];
    }
  }

  // ---------------------------------------------------------------- each step keeps it

  lemma CloseKeeps(s: Link, after: Link)
    requires WireKeepsOrder(s) && after.ledger == s.ledger && after.wire == s.wire.Close()
    ensures WireKeepsOrder(after)
  {
    hide HandedOf;
    var handed := HandedOf(s.ledger.accepted, s.ledger.fates);
    var done := handed[..|s.wire.ends|];
    UnmarkedAdd(done, s.wire.ends, s.wire.inner);
    assert done + s.wire.inner == handed;
    assert handed[..|handed|] == handed && handed[|handed|..] == [];
  }

  lemma TransmitKeeps(s: Link)
    requires WireKeepsOrder(s)
    ensures WireKeepsOrder(PeerStep(s, Transmit))
  {
    hide HandedOf;
    var handed, n := HandedOf(s.ledger.accepted, s.ledger.fates), |s.wire.ends|;
    if s.wire.open && s.wire.inner != [] {
      MarkedSnoc(handed[..n], s.wire.ends, handed[n], true);
      assert handed[..n + 1] == handed[..n] + [handed[n]];
    }
  }

  lemma FatesKeep(s: Link, f: Fate)
    requires WireKeepsOrder(s) && |s.ledger.fates| < |s.ledger.accepted|
    ensures var handed := HandedOf(s.ledger.accepted, s.ledger.fates + [f]);
            && |s.wire.ends| <= |handed|
            && handed[|s.wire.ends|..] == s.wire.inner + (if f == Handed then [s.ledger.accepted[|s.ledger.fates|]] else [])
            && handed[..|s.wire.ends|] == HandedOf(s.ledger.accepted, s.ledger.fates)[..|s.wire.ends|]
  {
    HandedSnoc(s.ledger.accepted, s.ledger.fates, f);
  }

  lemma ForwardKeeps(s: Link)
    requires WireKeepsOrder(s) && KeepsOrder(s)
    ensures WireKeepsOrder(ForwardStep(s))
  {
    hide HandedOf, Marked;
    if s.pc.Forwarding? {
      assert s.ledger.accepted[|s.ledger.fates|..][0] == s.pc.batch;
      FatesKeep(s, Handed);
      FatesKeep(s, Forgotten);
    }
  }

  lemma DrainKeeps(s: Link)
    requires WireKeepsOrder(s) && KeepsOrder(s)
    ensures WireKeepsOrder(WorkerStep(s, Drain))
  {
    hide HandedOf, Marked;
    if s.pc.Waiting? && s.queue != [] {
      assert |s.ledger.accepted[|s.ledger.fates|..]| > 0;
      FatesKeep(s, Drained);
    }
  }

  lemma StopKeeps(s: Link)
    requires WireKeepsOrder(s) && KeepsOrder(s)
    ensures WireKeepsOrder(WorkerStep(s, LinkSteps.Close))
  {
    hide HandedOf, Marked;
    if s.pc.Closing? {
      assert |s.ledger.accepted[|s.ledger.fates|..]| == |s.queue|;
      AbandonedHandsNone(s.ledger.accepted, s.ledger.fates, |s.queue|);
    }
  }

  lemma OfferKeeps(s: Link, a: Action)
    requires WireKeepsOrder(s)
    ensures WireKeepsOrder(OfferStep(s, a))
  {
    hide HandedOf, Marked;
    if a.TrySend? && a.t < |s.offers| && s.offers[a.t].Checked? {
      HandedLonger(s.ledger.accepted, [s.offers[a.t].batch], s.ledger.fates);
    }
  }

  lemma ConnectKeeps(s: Link)
    requires WireKeepsOrder(s) && WireHolds(s)
    ensures WireKeepsOrder(WorkerStep(s, PublishConnected))
  {
    hide HandedOf, Marked, CountFate;
  }

  /** The worker's remaining steps touch neither ledger nor buffer, or end the stream. */
  lemma OtherKeeps(s: Link, a: Action)
    requires WireKeepsOrder(s)
    requires !a.PublishConnected? && !a.Forward? && !a.Drain? && !a.Close?
    ensures WireKeepsOrder(WorkerStep(s, a))
  {
    hide WireKeepsOrder;
    var after := WorkerStep(s, a);
    if after.wire != s.wire {
      CloseKeeps(s, after);
    } else {
      SameKeeps(s, after);
    }
  }

  lemma SameKeeps(s: Link, after: Link)
    requires WireKeepsOrder(s) && after.wire == s.wire && after.ledger == s.ledger
    ensures WireKeepsOrder(after)
  {
  }

  lemma StepKeeps(s: Link, a: Action)
    requires WireKeepsOrder(s) && KeepsOrder(s) && WireHolds(s)
    ensures WireKeepsOrder(Step(s, a))
  {
    hide WireKeepsOrder, KeepsOrder, WireHolds, WorkerStep, OfferStep, ForwardStep;
    match a
    case Offer(_, _) => OfferKeeps(s, a);
    case TrySend(_) => OfferKeeps(s, a);
    case CountRefusal(_) => OfferKeeps(s, a);
    case Transmit => TransmitKeeps(s);
    case BreakStream => CloseKeeps(s, Step(s, a));
    case RequestShutdown => SameKeeps(s, Step(s, a));
    case Forward =>
      ForwardKeeps(s);
      ForwardIsForward(s);
    case Drain => DrainKeeps(s);
    case Close => StopKeeps(s);
    case PublishConnected => ConnectKeeps(s);
    case _ => OtherKeeps(s, a);
  }

  lemma ForwardIsForward(s: Link)
    ensures WorkerStep(s, Forward) == ForwardStep(s)
  {
  }

  lemma {:induction false} RunKeeps(threads: nat, actions: seq<Action>)
    ensures WireKeepsOrder(RunLink(threads, actions))
  {
    hide Step, WireKeepsOrder, KeepsOrder, CountsAgree, WireHolds, StateMatches, TimerHolds;
    if actions == [] {
      StartKeeps(threads);
    } else {
      var n := |actions| - 1;
      RunKeeps(threads, actions[..n]);
      RunHolds(threads, actions[..n]);
      StepKeeps(RunLink(threads, actions[..n]), actions[n]);
    }
  }

  lemma {:induction false} StartKeeps(threads: nat)
    ensures WireKeepsOrder(Start(threads))
  {
  }

  /**
   * In every run the stream's buffer holds the batches handed over last, in order, and the peer has got those of the others
   * that did not vanish with a stream: in the order in which they were accepted, and none twice.
   */
  lemma {:induction false} PeerGetsInOrder(threads: nat, actions: seq<Action>)
    ensures var s := RunLink(threads, actions);
            && |s.ledger.fates| <= |s.ledger.accepted|
            && var handed := HandedOf(s.ledger.accepted, s.ledger.fates);
               && |s.wire.ends| <= |handed| && s.wire.inner == handed[|s.wire.ends|..]
               && s.wire.delivered == Marked(handed[..|s.wire.ends|], s.wire.ends)
               && |s.wire.delivered| == s.wire.transmitted
  {
    hide RunLink, HandedOf, Marked;
    RunKeeps(threads, actions);
  }
}
