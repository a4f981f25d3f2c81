/**
 * The analytics link (`core-grpc/src/link.rs`) as a step system: one worker that connects, streams, and waits; any
 * number of threads that offer batches; and a peer that may take batches or break the stream at any time.
 */
module LinkSteps {
  import opened Ints

  const BATCH_QUEUE: nat := 8
  const INITIAL_BACKOFF: nat := 500
  const MAX_BACKOFF: nat := 30_000

  datatype FlowBatch = FlowBatch(id: nat)
  datatype LinkState = Disconnected | Connecting | Connected

  /** Where the worker is in `run`, `stream`, `forward` or `wait`. */
  datatype WorkerPc =
    | Begin                        // top of the loop
    | Dialing                      // awaiting the connection
    | Dialed                       // connected, not yet published
    | Streaming                    // choosing the next event of the stream
    | Forwarding(batch: FlowBatch) // has taken a batch
    | Forwarded                    // has handed it over, not yet counted
    | Lost                         // connection or stream lost, not yet published
    | Down                         // published, not yet counted as a reconnect
    | Waiting                      // backing off
    | Draining                     // has taken a batch while waiting, not yet counted as dropped
    | Stopping                     // has seen the shutdown
    | Closing                      // published
    | Stopped
  {
    predicate InStream() {
      Streaming? || Forwarding? || Forwarded?
    }

    predicate InWait() {
      Waiting? || Draining?
    }

    predicate IsOver() {
      Stopping? || Closing? || Stopped?
    }
  }

  /** Where a thread is in `offer`: it reads the state first and queues the batch later. */
  datatype OfferPc = Idle | Checked(batch: FlowBatch) | Refusing

  /** What became of an accepted batch: handed to a stream, drained, lost in `forward`, or left at shutdown. */
  datatype Fate = Handed | Drained | Forgotten | Abandoned

  datatype Counters = Counters(state: LinkState, sent: nat, dropped: nat, reconnects: nat)

  /**
   * The stream's own buffer: `open` while its receiving half lives. `delivered` is what the peer has taken, and `ends` says
   * of every batch that has left the buffer, in order, whether the peer got it.
   */
  datatype Wire = Wire(
    open: bool,
    inner: seq<FlowBatch>,
    delivered: seq<FlowBatch>,
    ends: seq<bool>,
    transmitted: nat,
    vanished: nat,
    streams: nat,
    closed: nat
  ) {
    /** The receiving half goes away with all it holds. */
    function Close(): Wire {
      if open then
        this.(open := false, inner := [], ends := ends + seq(|inner|, i => false), vanished := vanished + |inner|,
              closed := closed + 1)
      else this
    }
  }

  /** `attempt` counts the waits since the last connect; `waits` logs each with its length in milliseconds. */
  datatype Timer = Timer(backoff: nat, attempt: nat, waits: seq<(nat, nat)>)

  datatype Ledger = Ledger(accepted: seq<FlowBatch>, fates: seq<Fate>, refused: nat)

  datatype Link = Link(
    pc: WorkerPc,
    queue: seq<FlowBatch>,
    counters: Counters,
    wire: Wire,
    timer: Timer,
    ledger: Ledger,
    offers: seq<OfferPc>,
    shutdown: bool
  )

  datatype Action =
    // the worker
    | Dial
    | Connect(ok: bool)
    | PublishConnected
    | Take
    | Forward
    | CountSent
    | LoseStream
    | PublishLost
    | CountReconnect
    | Wake
    | Drain
    | CountDrain
    | SeeShutdown
    | PublishStopped
    | Close
    // offering threads
    | Offer(t: nat, batch: FlowBatch)
    | TrySend(t: nat)
    | CountRefusal(t: nat)
    // the peer and the owner
    | Transmit
    | BreakStream
    | RequestShutdown

  function Start(threads: nat): Link {
    Link(Begin, [], Counters(Disconnected, 0, 0, 0), Wire(false, [], [], [], 0, 0, 0, 0), Timer(INITIAL_BACKOFF, 0, []),
         Ledger([], [], 0), seq(threads, i => Idle), false)
  }

  // ---------------------------------------------------------------- steps

  /** The worker's steps; one that is not enabled does not happen. */
  function WorkerStep(s: Link, a: Action): Link {
    match a
    case Dial => if s.pc.Begin? then s.(pc := Dialing, counters := s.counters.(state := Connecting)) else s
    case Connect(ok) => if s.pc.Dialing? then s.(pc := if ok then Dialed else Lost) else s
    case PublishConnected =>
      if s.pc.Dialed? then
        s.(pc := Streaming, counters := s.counters.(state := Connected),
           timer := s.timer.(backoff := INITIAL_BACKOFF, attempt := 0),
           wire := s.wire.(open := true, inner := [], streams := s.wire.streams + 1))
      else s
    case Take => if s.pc.Streaming? && s.queue != [] then s.(pc := Forwarding(s.queue[0]), queue := s.queue[1..]) else s
    case Forward => ForwardStep(s)
    case CountSent => if s.pc.Forwarded? then s.(pc := Streaming, counters := s.counters.(sent := s.counters.sent + 1)) else s
    case LoseStream => if s.pc.Streaming? then s.(pc := Lost, wire := s.wire.Close()) else s
    case PublishLost => if s.pc.Lost? then s.(pc := Down, counters := s.counters.(state := Disconnected)) else s
    case CountReconnect =>
      if s.pc.Down? then
        s.(pc := Waiting, counters := s.counters.(reconnects := s.counters.reconnects + 1),
           timer := s.timer.(waits := s.timer.waits + [(s.timer.attempt, s.timer.backoff)]))
      else s
    case Wake =>
      if s.pc.Waiting? then
        s.(pc := Begin, timer := s.timer.(backoff := Min(s.timer.backoff * 2, MAX_BACKOFF), attempt := s.timer.attempt + 1))
      else s
    case Drain =>
      if s.pc.Waiting? && s.queue != [] then
        s.(pc := Draining, queue := s.queue[1..], ledger := s.ledger.(fates := s.ledger.fates + [Drained]))
      else s
    case CountDrain => if s.pc.Draining? then s.(pc := Waiting, counters := s.counters.(dropped := s.counters.dropped + 1)) else s
    case SeeShutdown => if s.shutdown && (s.pc.Streaming? || s.pc.Waiting?) then s.(pc := Stopping, wire := s.wire.Close()) else s
    case PublishStopped => if s.pc.Stopping? then s.(pc := Closing, counters := s.counters.(state := Disconnected)) else s
    case Close =>
      if s.pc.Closing? then
        s.(pc := Stopped, queue := [], ledger := s.ledger.(fates := s.ledger.fates + seq(|s.queue|, i => Abandoned)))
      else s
    case _ => s
  }

  /** Hands the batch in hand to the stream; waits while the stream's buffer is full. */
  function ForwardStep(s: Link): Link {
    if !s.pc.Forwarding? then s
    else if !s.wire.open then s.(pc := Lost, ledger := s.ledger.(fates := s.ledger.fates + [Forgotten]))
    else if |s.wire.inner| < BATCH_QUEUE then
      s.(pc := Forwarded, wire := s.wire.(inner := s.wire.inner + [s.pc.batch]),
         ledger := s.ledger.(fates := s.ledger.fates + [Handed]))
    else s
  }

  function Refuse(s: Link, t: nat): Link
    requires t < |s.offers|
  {
    s.(offers := s.offers[t := Refusing], ledger := s.ledger.(refused := s.ledger.refused + 1))
  }

  /** The steps of an offering thread. */
  function OfferStep(s: Link, a: Action): Link {
    match a
    case Offer(t, batch) =>
      if t >= |s.offers| || !s.offers[t].Idle? then s
      else if s.counters.state == Connected then s.(offers := s.offers[t := Checked(batch)])
      else Refuse(s, t)
    case TrySend(t) =>
      if t >= |s.offers| || !s.offers[t].Checked? then s
      else if |s.queue| < BATCH_QUEUE && !s.pc.Stopped? then
        s.(offers := s.offers[t := Idle], queue := s.queue + [s.offers[t].batch],
           ledger := s.ledger.(accepted := s.ledger.accepted + [s.offers[t].batch]))
      else Refuse(s, t)
    case CountRefusal(t) =>
      if t >= |s.offers| || !s.offers[t].Refusing? then s
      else s.(offers := s.offers[t := Idle], counters := s.counters.(dropped := s.counters.dropped + 1))
    case _ => s
  }

  /** What the peer and the owner of the link do. */
  function PeerStep(s: Link, a: Action): Link {
    match a
    case Transmit =>
      if s.wire.open && s.wire.inner != [] then
        s.(wire := s.wire.(inner := s.wire.inner[1..], delivered := s.wire.delivered + [s.wire.inner[0]],
                           ends := s.wire.ends + [true], transmitted := s.wire.transmitted + 1))
      else s
    case BreakStream => s.(wire := s.wire.Close())
    case RequestShutdown => s.(shutdown := true)
    case _ => s
  }

  function Step(s: Link, a: Action): Link {
    if a.Offer? || a.TrySend? || a.CountRefusal? then OfferStep(s, a)
    else if a.Transmit? || a.BreakStream? || a.RequestShutdown? then PeerStep(s, a)
    else WorkerStep(s, a)
  }

  function RunLink(threads: nat, actions: seq<Action>): Link {
    if actions == [] then Start(threads)
    else Step(RunLink(threads, actions[..|actions| - 1]), actions[|actions| - 1])
  }

  // ---------------------------------------------------------------- what every run keeps

  function CountFate(fates: seq<Fate>, f: Fate): nat {
    if fates == [] then 0 else CountFate(fates[..|fates| - 1], f) + if fates[|fates| - 1] == f then 1 else 0
  }

  function CountRefusing(offers: seq<OfferPc>): nat {
    if offers == [] then 0 else CountRefusing(offers[..|offers| - 1]) + if offers[|offers| - 1].Refusing? then 1 else 0
  }

  function Hand(s: Link): seq<FlowBatch> {
    if s.pc.Forwarding? then [s.pc.batch] else []
  }

  /** After the first `n` accepted batches come the one in hand, if any, and the queue. */
  ghost predicate Ordered(accepted: seq<FlowBatch>, n: nat, hand: seq<FlowBatch>, queue: seq<FlowBatch>) {
    n <= |accepted| && accepted[n..] == hand + queue && |queue| <= 8
  }

  /** Accepted batches leave in the order in which they were accepted; the rest is in hand and in the queue. */
  ghost predicate KeepsOrder(s: Link) {
    Ordered(s.ledger.accepted, |s.ledger.fates|, Hand(s), s.queue)
  }

  ghost predicate CountsAgree(s: Link) {
    var fates := s.ledger.fates;
    && CountFate(fates, Handed) == s.counters.sent + (if s.pc.Forwarded? then 1 else 0)
    && CountFate(fates, Drained) + s.ledger.refused
       == s.counters.dropped + (if s.pc.Draining? then 1 else 0) + CountRefusing(s.offers)
    && (CountFate(fates, Abandoned) > 0 ==> s.pc.Stopped?)
  }

  /** The wire is open only during a stream, and each wire takes at most its buffer and one batch in hand with it. */
  ghost predicate WireHolds(s: Link) {
    var w := s.wire;
    && CountFate(s.ledger.fates, Handed) == w.transmitted + |w.inner| + w.vanished
    && |w.inner| <= 8
    && (w.open ==> s.pc.InStream())
    && (!w.open ==> w.inner == [])
    && w.streams == w.closed + (if w.open then 1 else 0)
    && w.vanished <= 8 * w.closed
    && CountFate(s.ledger.fates, Forgotten) + (if s.pc.InStream() && !w.open then 1 else 0) <= w.closed
  }

  ghost predicate StateMatches(s: Link) {
    && (s.pc.InStream() ==> s.counters.state == Connected)
    && (s.pc.Dialing? || s.pc.Dialed? ==> s.counters.state == Connecting)
    && (s.pc.Begin? || s.pc.Down? || s.pc.InWait() || s.pc.Closing? || s.pc.Stopped? ==> s.counters.state == Disconnected)
  }

  /** Milliseconds of the `attempt`-th wait since the last connect, counting from 0. */
  function Delay(attempt: nat): nat {
    Min(500 * Pow2(attempt), 30_000)
  }

  function Pow2(n: nat): (p: nat)
    ensures p >= 1
  {
    if n == 0 then 1 else 2 * Pow2(n - 1)
  }

  ghost predicate TimerHolds(s: Link) {
    s.timer.backoff == Delay(s.timer.attempt) && s.counters.reconnects == |s.timer.waits|
  }

  // ---------------------------------------------------------------- counting

  lemma {:induction false} FateSnoc(fates: seq<Fate>, g: Fate)
    ensures forall f :: CountFate(fates + [g], f) == CountFate(fates, f) + if f == g then 1 else 0
  {
    assert (fates + [g])[..|fates|] == fates;
  }

  lemma {:induction false} FatesAbandoned(fates: seq<Fate>, n: nat)
    ensures forall f :: CountFate(fates + seq(n, i => Abandoned), f) == CountFate(fates, f) + if f == Abandoned then n else 0
  {
    if n == 0 {
      assert fates + seq(n, i => Abandoned) == fates;
    } else {
      FatesAbandoned(fates, n - 1);
      FateSnoc(fates + seq(n - 1, i => Abandoned), Abandoned);
      assert fates + seq(n, i => Abandoned) == fates + seq(n - 1, i => Abandoned) + [Abandoned];
    }
  }

  lemma {:induction false} FatesTotal(fates: seq<Fate>)
    ensures |fates| == CountFate(fates, Handed) + CountFate(fates, Drained) + CountFate(fates, Forgotten) + CountFate(fates, Abandoned)
  {
    if fates == [] {
    } else {
      FatesTotal(fates[..|fates| - 1]);
    }
  }

  lemma {:induction false} RefusingUpdates(offers: seq<OfferPc>, t: nat, pc: OfferPc)
    requires t < |offers|
    ensures CountRefusing(offers[t := pc])
            == CountRefusing(offers) - (if offers[t].Refusing? then 1 else 0) + (if pc.Refusing? then 1 else 0)
  {
    var last := |offers| - 1;
    if t < last {
      RefusingUpdates(offers[..last], t, pc);
      assert offers[t := pc][..last] == offers[..last][t := pc];
    } else {
      assert offers[t := pc][..last] == offers[..last];
    }
  }

  lemma {:induction false} NoneRefusing(n: nat)
    ensures CountRefusing(seq(n, i => Idle)) == 0
  {
    if n == 0 {
    } else {
      NoneRefusing(n - 1);
      assert seq(n, i => Idle)[..n - 1] == seq(n - 1, i => Idle);
    }
  }

  // ---------------------------------------------------------------- each step keeps it

  lemma TakesInOrder(accepted: seq<FlowBatch>, n: nat, queue: seq<FlowBatch>)
    requires Ordered(accepted, n, [], queue) && queue != []
    ensures Ordered(accepted, n, [queue[0]], queue[1..])
    ensures Ordered(accepted, n + 1, [], queue[1..])
  {
    assert [] + queue == queue == [queue[0]] + queue[1..];
    assert accepted[n + 1..] == accepted[n..][1..] == [] + queue[1..];
  }

  lemma ResolvesInOrder(accepted: seq<FlowBatch>, n: nat, batch: FlowBatch, queue: seq<FlowBatch>)
    requires Ordered(accepted, n, [batch], queue)
    ensures Ordered(accepted, n + 1, [], queue)
  {
    assert accepted[n + 1..] == accepted[n..][1..] == [] + queue;
  }

  lemma AcceptsInOrder(accepted: seq<FlowBatch>, n: nat, hand: seq<FlowBatch>, queue: seq<FlowBatch>, batch: FlowBatch)
    requires Ordered(accepted, n, hand, queue) && |queue| < 8
    ensures Ordered(accepted + [batch], n, hand, queue + [batch])
  {
    assert (accepted + [batch])[n..] == accepted[n..] + [batch];
  }

  lemma AbandonsAll(accepted: seq<FlowBatch>, n: nat, queue: seq<FlowBatch>)
    requires Ordered(accepted, n, [], queue)
    ensures Ordered(accepted, n + |queue|, [], [])
  {
    assert |accepted[n..]| == |queue|;
  }

  lemma TakeKeepsOrder(s: Link)
    requires KeepsOrder(s)
    ensures KeepsOrder(WorkerStep(s, Take))
  {
    hide Ordered;
    if s.pc.Streaming? && s.queue != [] {
      TakesInOrder(s.ledger.accepted, |s.ledger.fates|, s.queue);
    }
  }

  lemma DrainKeepsOrder(s: Link)
    requires KeepsOrder(s)
    ensures KeepsOrder(WorkerStep(s, Drain))
  {
    hide Ordered;
    if s.pc.Waiting? && s.queue != [] {
      TakesInOrder(s.ledger.accepted, |s.ledger.fates|, s.queue);
    }
  }

  lemma ForwardKeepsOrder(s: Link)
    requires KeepsOrder(s)
    ensures KeepsOrder(ForwardStep(s))
  {
    hide Ordered;
    if s.pc.Forwarding? {
      ResolvesInOrder(s.ledger.accepted, |s.ledger.fates|, s.pc.batch, s.queue);
    }
  }

  lemma CloseKeepsOrder(s: Link)
    requires KeepsOrder(s)
    ensures KeepsOrder(WorkerStep(s, Close))
  {
    hide Ordered;
    if s.pc.Closing? {
      AbandonsAll(s.ledger.accepted, |s.ledger.fates|, s.queue);
    }
  }

  /** The worker's other steps move no batch. */
  lemma WorkerFrame(s: Link, a: Action)
    requires !a.Take? && !a.Drain? && !a.Forward? && !a.Close?
    ensures var after := WorkerStep(s, a);
            after.ledger == s.ledger && after.queue == s.queue && Hand(after) == Hand(s)
  {
  }

  lemma WorkerKeepsOrder(s: Link, a: Action)
    requires KeepsOrder(s)
    ensures KeepsOrder(WorkerStep(s, a))
  {
    match a
    case Take => TakeKeepsOrder(s);
    case Drain => DrainKeepsOrder(s);
    case Forward => ForwardKeepsOrder(s);
    case Close => CloseKeepsOrder(s);
    case _ =>
      hide Ordered, WorkerStep;
      WorkerFrame(s, a);
  }

  lemma OfferKeepsOrder(s: Link, a: Action)
    requires KeepsOrder(s)
    ensures KeepsOrder(OfferStep(s, a))
  {
    hide Ordered;
    if a.TrySend? && a.t < |s.offers| && s.offers[a.t].Checked? && |s.queue| < 8 {
      AcceptsInOrder(s.ledger.accepted, |s.ledger.fates|, Hand(s), s.queue, s.offers[a.t].batch);
    }
  }

  lemma StepKeepsOrder(s: Link, a: Action)
    requires KeepsOrder(s)
    ensures KeepsOrder(Step(s, a))
  {
    hide Ordered, WorkerStep, OfferStep;
    WorkerKeepsOrder(s, a);
    OfferKeepsOrder(s, a);
  }

  /** What a step adds to the fates: nothing, one entry, or the whole queue at the very end. */
  lemma StepFates(s: Link, a: Action)
    ensures var fates, after := s.ledger.fates, Step(s, a).ledger.fates;
            forall f :: CountFate(after, f) == CountFate(fates, f)
              + (if a.Forward? && s.pc.Forwarding? && !s.wire.open && f == Forgotten then 1
                 else if a.Forward? && s.pc.Forwarding? && s.wire.open && |s.wire.inner| < 8 && f == Handed then 1
                 else if a.Drain? && s.pc.Waiting? && s.queue != [] && f == Drained then 1
                 else if a.Close? && s.pc.Closing? && f == Abandoned then |s.queue| else 0)
  {
    hide CountFate;
    FateSnoc(s.ledger.fates, Forgotten);
    FateSnoc(s.ledger.fates, Handed);
    FateSnoc(s.ledger.fates, Drained);
    FatesAbandoned(s.ledger.fates, |s.queue|);
  }

  lemma WorkerCountsAgree(s: Link, a: Action)
    requires CountsAgree(s)
    ensures !a.Offer? && !a.TrySend? && !a.CountRefusal? && !a.Transmit? && !a.BreakStream? && !a.RequestShutdown? ==>
              CountsAgree(WorkerStep(s, a))
  {
    hide CountFate, CountRefusing;
    StepFates(s, a);
  }

  lemma OfferCountsAgree(s: Link, a: Action)
    requires CountsAgree(s)
    ensures CountsAgree(OfferStep(s, a))
  {
    hide CountFate, CountRefusing;
    if (a.Offer? || a.TrySend? || a.CountRefusal?) && a.t < |s.offers| {
      var after := OfferStep(s, a).offers;
      RefusingUpdates(s.offers, a.t, after[a.t]);
      assert after == s.offers[a.t := after[a.t]];
    }
  }

  lemma StepCountsAgree(s: Link, a: Action)
    requires CountsAgree(s)
    ensures CountsAgree(Step(s, a))
  {
    hide CountFate, CountRefusing, WorkerStep, OfferStep, PeerStep;
    WorkerCountsAgree(s, a);
    OfferCountsAgree(s, a);
    PeerFrame(s, a);
  }

  /** Offering threads leave the worker, its wire and its timer alone. */
  lemma OfferFrame(s: Link, a: Action)
    ensures var after := OfferStep(s, a);
            && after.pc == s.pc && after.wire == s.wire && after.timer == s.timer && after.ledger.fates == s.ledger.fates
            && after.counters.state == s.counters.state && after.counters.reconnects == s.counters.reconnects
            && after.counters.sent == s.counters.sent
  {
  }

  /** The peer touches nothing but the wire. */
  lemma PeerFrame(s: Link, a: Action)
    ensures var after := PeerStep(s, a);
            after == s.(wire := after.wire, shutdown := after.shutdown)
  {
  }

  lemma WorkerWireHolds(s: Link, a: Action)
    requires WireHolds(s)
    ensures !a.Offer? && !a.TrySend? && !a.CountRefusal? && !a.Transmit? && !a.BreakStream? && !a.RequestShutdown? ==>
              WireHolds(WorkerStep(s, a))
  {
    hide CountFate;
    StepFates(s, a);
  }

  lemma PeerWireHolds(s: Link, a: Action)
    requires WireHolds(s)
    ensures WireHolds(PeerStep(s, a))
  {
    hide CountFate;
  }

  lemma StepWireHolds(s: Link, a: Action)
    requires WireHolds(s)
    ensures WireHolds(Step(s, a))
  {
    hide CountFate, WorkerStep, OfferStep, PeerStep;
    WorkerWireHolds(s, a);
    PeerWireHolds(s, a);
    OfferFrame(s, a);
  }

  lemma StepStateMatches(s: Link, a: Action)
    requires StateMatches(s)
    ensures StateMatches(Step(s, a))
  {
  }

  lemma {:induction false} DelayDoubles(attempt: nat)
    ensures Delay(attempt + 1) == Min(Delay(attempt) * 2, 30_000) && Delay(0) == 500
  {
    assert Pow2(attempt + 1) == 2 * Pow2(attempt);
  }

  lemma WorkerTimerHolds(s: Link, a: Action)
    requires TimerHolds(s)
    ensures TimerHolds(WorkerStep(s, a))
  {
    hide Delay;
    DelayDoubles(s.timer.attempt);
  }

  lemma StepTimerHolds(s: Link, a: Action)
    requires TimerHolds(s)
    ensures TimerHolds(Step(s, a))
  {
    hide Delay, WorkerStep, OfferStep, PeerStep;
    WorkerTimerHolds(s, a);
    OfferFrame(s, a);
    PeerFrame(s, a);
  }

  ghost predicate Holds(s: Link) {
    KeepsOrder(s) && CountsAgree(s) && WireHolds(s) && StateMatches(s) && TimerHolds(s)
  }

  lemma {:induction false} StartHolds(threads: nat)
    ensures Holds(Start(threads))
  {
    NoneRefusing(threads);
  }

  lemma {:induction false} RunHolds(threads: nat, actions: seq<Action>)
    ensures Holds(RunLink(threads, actions))
  {
    hide Step, KeepsOrder, CountsAgree, WireHolds, StateMatches, TimerHolds;
    if actions == [] {
      StartHolds(threads);
    } else {
      var before, a := RunLink(threads, actions[..|actions| - 1]), actions[|actions| - 1];
      RunHolds(threads, actions[..|actions| - 1]);
      StepKeepsOrder(before, a);
      StepCountsAgree(before, a);
      StepWireHolds(before, a);
      StepStateMatches(before, a);
      StepTimerHolds(before, a);
    }
  }

  // ---------------------------------------------------------------- the main results

  /**
   * Every accepted batch is accounted for, in any interleaving: it is queued, in hand, sent, drained while waiting, lost
   * in a broken stream, or left at shutdown; and they left the queue in the order in which they were accepted.
   */
  lemma {:induction false} BatchesAreConserved(threads: nat, actions: seq<Action>)
    ensures var s := RunLink(threads, actions);
            var fates := s.ledger.fates;
            && |s.ledger.accepted| == |s.queue| + |Hand(s)| + CountFate(fates, Handed) + CountFate(fates, Drained)
                                      + CountFate(fates, Forgotten) + CountFate(fates, Abandoned)
            && |fates| <= |s.ledger.accepted| && s.ledger.accepted[|fates|..] == Hand(s) + s.queue
            && |s.queue| <= 8
            && (CountFate(fates, Abandoned) > 0 ==> s.pc.Stopped?)
  {
    hide RunLink, CountFate, WireHolds, StateMatches, TimerHolds;
    RunHolds(threads, actions);
    FatesTotal(RunLink(threads, actions).ledger.fates);
  }

  /** What the two public counters mean, up to a step in progress. */
  lemma {:induction false} CountersAreExact(threads: nat, actions: seq<Action>)
    ensures var s := RunLink(threads, actions);
            var fates := s.ledger.fates;
            && s.counters.sent + (if s.pc.Forwarded? then 1 else 0) == CountFate(fates, Handed)
            && s.counters.dropped + CountRefusing(s.offers) + (if s.pc.Draining? then 1 else 0)
               == s.ledger.refused + CountFate(fates, Drained)
  {
    hide RunLink, CountFate, CountRefusing, KeepsOrder, WireHolds, StateMatches, TimerHolds;
    RunHolds(threads, actions);
  }

  /**
   * Losing a stream silently costs at most one batch in hand, which no counter shows, and at most eight that were
   * already counted as sent.
   */
  lemma {:induction false} LostStreamsCostLittle(threads: nat, actions: seq<Action>)
    ensures var s := RunLink(threads, actions);
            && CountFate(s.ledger.fates, Forgotten) <= s.wire.closed <= s.wire.streams <= s.wire.closed + 1
            && CountFate(s.ledger.fates, Handed) == s.wire.transmitted + |s.wire.inner| + s.wire.vanished
            && s.wire.vanished <= 8 * s.wire.closed
  {
    hide RunLink, CountFate, KeepsOrder, CountsAgree, StateMatches, TimerHolds;
    RunHolds(threads, actions);
  }

  /** How often the worker has begun to wait since it last published a connection, read off the steps. */
  function WaitsSinceConnect(threads: nat, actions: seq<Action>): nat {
    if actions == [] then 0
    else
      var before, a := actions[..|actions| - 1], actions[|actions| - 1];
      var pc := RunLink(threads, before).pc;
      if a.PublishConnected? && pc.Dialed? then 0
      else WaitsSinceConnect(threads, before) + if a.CountReconnect? && pc.Down? then 1 else 0
  }

  lemma StepAttempts(s: Link, a: Action)
    ensures var after := Step(s, a);
            !after.pc.IsOver() ==>
              && !s.pc.IsOver()
              && after.timer.attempt + (if after.pc.InWait() then 1 else 0)
                 == if a.PublishConnected? && s.pc.Dialed? then 0
                    else s.timer.attempt + (if s.pc.InWait() then 1 else 0) + (if a.CountReconnect? && s.pc.Down? then 1 else 0)
  {
  }

  /** The timer's own count of waits is that of the steps. */
  lemma {:induction false} AttemptsAreWaits(threads: nat, actions: seq<Action>)
    ensures var s := RunLink(threads, actions);
            !s.pc.IsOver() ==> WaitsSinceConnect(threads, actions) == s.timer.attempt + (if s.pc.InWait() then 1 else 0)
  {
    hide Step;
    if actions == [] {
    } else {
      var before := actions[..|actions| - 1];
      AttemptsAreWaits(threads, before);
      StepAttempts(RunLink(threads, before), actions[|actions| - 1]);
    }
  }

  lemma StepWaits(s: Link, a: Action)
    ensures var after := Step(s, a);
            after.timer.waits
            == if a.CountReconnect? && s.pc.Down? then s.timer.waits + [(s.timer.attempt, s.timer.backoff)] else s.timer.waits
  {
  }

  /** At step `k` the worker began its wait number `i` of the run. */
  ghost predicate WaitBeganAt(threads: nat, actions: seq<Action>, i: nat, k: nat) {
    && k < |actions| && actions[k].CountReconnect? && RunLink(threads, actions[..k]).pc.Down?
    && |RunLink(threads, actions[..k]).timer.waits| == i
  }

  lemma {:induction false} WaitBegan(threads: nat, actions: seq<Action>, i: nat) returns (k: nat)
    requires i < |RunLink(threads, actions).timer.waits|
    ensures WaitBeganAt(threads, actions, i, k)
    ensures RunLink(threads, actions).timer.waits[i]
            == (RunLink(threads, actions[..k]).timer.attempt, RunLink(threads, actions[..k]).timer.backoff)
  {
    hide Step;
    var n := |actions| - 1;
    var before, a := RunLink(threads, actions[..n]), actions[n];
    StepWaits(before, a);
    if i < |before.timer.waits| {
      k := WaitBegan(threads, actions[..n], i);
      assert actions[..n][..k] == actions[..k];
    } else {
      k := n;
    }
  }

  /**
   * Every wait of a run begins at a step that counts one reconnect, and if that is the n-th since the last connect,
   * counting from 0, it lasts min(500 * 2^n, 30000) milliseconds.
   */
  lemma {:induction false} BackoffDoubles(threads: nat, actions: seq<Action>, i: nat) returns (k: nat)
    requires i < |RunLink(threads, actions).timer.waits|
    ensures RunLink(threads, actions).counters.reconnects == |RunLink(threads, actions).timer.waits|
    ensures WaitBeganAt(threads, actions, i, k)
    ensures var n := WaitsSinceConnect(threads, actions[..k]);
            RunLink(threads, actions).timer.waits[i] == (n, Min(500 * Pow2(n), 30_000))
  {
    hide RunLink, KeepsOrder, CountsAgree, WireHolds, StateMatches, Pow2;
    RunHolds(threads, actions);
    k := WaitBegan(threads, actions, i);
    RunHolds(threads, actions[..k]);
    AttemptsAreWaits(threads, actions[..k]);
  }

  /** One thread's offer, step by step, with nothing else in between. */
  function OfferBy(s: Link, t: nat, batch: FlowBatch): Link {
    Step(Step(Step(s, Offer(t, batch)), TrySend(t)), CountRefusal(t))
  }

  /** An offer that nobody interrupts queues its batch if the link is up and has room, and is counted as dropped otherwise. */
  lemma UndisturbedOffer(s: Link, t: nat, batch: FlowBatch)
    requires t < |s.offers| && s.offers[t].Idle?
    ensures var after := OfferBy(s, t, batch);
            if s.counters.state == Connected && |s.queue| < 8 && !s.pc.Stopped? then
              after == s.(queue := s.queue + [batch], ledger := s.ledger.(accepted := s.ledger.accepted + [batch]))
            else
              after == s.(counters := s.counters.(dropped := s.counters.dropped + 1),
                          ledger := s.ledger.(refused := s.ledger.refused + 1))
  {
    assert s.offers[t := Checked(batch)][t := Idle] == s.offers;
    assert s.offers[t := Refusing][t := Idle] == s.offers;
    assert s.offers[t := Checked(batch)][t := Refusing][t := Idle] == s.offers;
  }

  // ---------------------------------------------------------------- queued while down

  lemma {:induction false} RunSnoc(threads: nat, actions: seq<Action>, a: Action)
    ensures RunLink(threads, actions + [a]) == Step(RunLink(threads, actions), a)
  {
    assert (actions + [a])[..|actions|] == actions;
  }

  lemma StepOffers(s: Link, a: Action, t: nat, batch: FlowBatch)
    requires t < |s.offers|
    ensures |Step(s, a).offers| == |s.offers|
    ensures Step(s, a).offers[t] == Checked(batch) <==>
            || (s.offers[t] == Checked(batch) && a != TrySend(t))
            || (a == Offer(t, batch) && s.offers[t].Idle? && s.counters.state == Connected)
  {
  }

  lemma StepThreads(s: Link, a: Action)
    ensures |Step(s, a).offers| == |s.offers|
  {
  }

  lemma {:induction false} ThreadsStay(threads: nat, actions: seq<Action>)
    ensures |RunLink(threads, actions).offers| == threads
  {
    hide Step;
    if actions == [] {
    } else {
      ThreadsStay(threads, actions[..|actions| - 1]);
      StepThreads(RunLink(threads, actions[..|actions| - 1]), actions[|actions| - 1]);
    }
  }

  /** At step `k` thread `t` began to offer the batch, read the state `Connected`, and has not tried to send since. */
  ghost predicate OfferedAt(threads: nat, actions: seq<Action>, t: nat, batch: FlowBatch, k: nat) {
    && k < |actions| && actions[k] == Offer(t, batch)
    && t < |RunLink(threads, actions[..k]).offers| && RunLink(threads, actions[..k]).offers[t].Idle?
    && RunLink(threads, actions[..k]).counters.state == Connected
    && forall j :: k < j < |actions| ==> actions[j] != TrySend(t)
  }

  lemma {:induction false} OfferedSnoc(threads: nat, before: seq<Action>, a: Action, t: nat, batch: FlowBatch, k: nat)
    requires t < threads
    ensures OfferedAt(threads, before + [a], t, batch, k) <==>
            if k < |before| then OfferedAt(threads, before, t, batch, k) && a != TrySend(t)
            else && k == |before| && a == Offer(t, batch) && t < |RunLink(threads, before).offers|
                 && RunLink(threads, before).offers[t].Idle? && RunLink(threads, before).counters.state == Connected
  {
    hide RunLink;
    var actions := before + [a];
    if k < |before| {
      assert actions[..k] == before[..k] && actions[k] == before[k] && actions[|before|] == a;
      assert forall j :: k < j < |before| ==> actions[j] == before[j];
    } else if k == |before| {
      assert actions[..k] == before;
    }
  }

  /** A thread is between check and send exactly if it began an offer while the link was up and has not sent since. */
  lemma {:induction false} CheckedIff(threads: nat, actions: seq<Action>, t: nat, batch: FlowBatch)
    requires t < threads
    ensures |RunLink(threads, actions).offers| == threads
    ensures RunLink(threads, actions).offers[t] == Checked(batch) <==> exists k :: OfferedAt(threads, actions, t, batch, k)
  {
    hide Step, OfferedAt;
    if actions == [] {
      NothingOffered(threads, t, batch);
    } else {
      var n := |actions| - 1;
      var before, a := actions[..n], actions[n];
      assert actions == before + [a];
      CheckedIff(threads, before, t, batch);
      StepOffers(RunLink(threads, before), a, t, batch);
      forall k: nat
        ensures OfferedAt(threads, actions, t, batch, k) <==>
                if k < n then OfferedAt(threads, before, t, batch, k) && a != TrySend(t)
                else && k == n && a == Offer(t, batch) && t < |RunLink(threads, before).offers|
                     && RunLink(threads, before).offers[t].Idle? && RunLink(threads, before).counters.state == Connected
      {
        OfferedSnoc(threads, before, a, t, batch, k);
      }
      OnlyEarlier(threads, before, t, batch);
      if RunLink(threads, actions).offers[t] == Checked(batch) {
        if RunLink(threads, before).offers[t] == Checked(batch) && a != TrySend(t) {
          var k :| OfferedAt(threads, before, t, batch, k);
          assert OfferedAt(threads, actions, t, batch, k);
        } else {
          assert OfferedAt(threads, actions, t, batch, n);
        }
      }
    }
  }

  lemma {:induction false} NothingOffered(threads: nat, t: nat, batch: FlowBatch)
    requires t < threads
    ensures |RunLink(threads, []).offers| == threads && RunLink(threads, []).offers[t] == Idle
    ensures forall k :: !OfferedAt(threads, [], t, batch, k)
  {
  }

  lemma {:induction false} OnlyEarlier(threads: nat, actions: seq<Action>, t: nat, batch: FlowBatch)
    ensures forall k: nat :: OfferedAt(threads, actions, t, batch, k) ==> k < |actions|
  {
  }

  /** The published state left `Connected` with step `m`. */
  ghost predicate WentDownAt(threads: nat, actions: seq<Action>, m: nat) {
    && m < |actions|
    && RunLink(threads, actions[..m]).counters.state == Connected
    && RunLink(threads, actions[..m + 1]).counters.state != Connected
  }

  lemma {:induction false} WentDown(threads: nat, actions: seq<Action>, k: nat) returns (m: nat)
    requires k <= |actions| && RunLink(threads, actions[..k]).counters.state == Connected
    requires RunLink(threads, actions).counters.state != Connected
    ensures k <= m && WentDownAt(threads, actions, m)
  {
    hide RunLink;
    m := k;
    assert actions[..|actions|] == actions;
    while RunLink(threads, actions[..m + 1]).counters.state == Connected
      invariant k <= m < |actions| && RunLink(threads, actions[..m]).counters.state == Connected
      decreases |actions| - m
    {
      m := m + 1;
    }
  }

  lemma StepAccepts(s: Link, a: Action)
    ensures var after := Step(s, a);
            if a.TrySend? && a.t < |s.offers| && s.offers[a.t].Checked? && |s.queue| < 8 && !s.pc.Stopped?
            then after.ledger.accepted == s.ledger.accepted + [s.offers[a.t].batch] && after.queue == s.queue + [s.offers[a.t].batch]
            else after.ledger.accepted == s.ledger.accepted
  {
  }

  lemma RefusedWhileDown(s: Link)
    requires s.counters.state != Connected
    ensures forall t: nat, batch :: t < |s.offers| && s.offers[t].Idle? ==> Step(s, Offer(t, batch)) == Refuse(s, t)
  {
  }

  /**
   * In any run, a step queues a batch while the link is not `Connected` exactly if it completes an offer that began, and
   * read the state, while the link was; the link has gone down in between. An offer that begins while it is down is
   * refused.
   */
  lemma {:induction false} QueuesWhileDownIff(threads: nat, actions: seq<Action>, a: Action)
    requires RunLink(threads, actions).counters.state != Connected
    ensures var s := RunLink(threads, actions);
            |s.offers| == threads
            && forall t: nat, batch :: t < threads && s.offers[t].Idle? ==> Step(s, Offer(t, batch)) == Refuse(s, t)
    ensures var s := RunLink(threads, actions);
            Step(s, a).ledger.accepted != s.ledger.accepted <==>
            && a.TrySend? && a.t < threads && |s.queue| < 8 && !s.pc.Stopped?
            && exists batch, k :: OfferedAt(threads, actions, a.t, batch, k)
    ensures var s := RunLink(threads, actions);
            forall batch, k :: a.TrySend? && a.t < threads && OfferedAt(threads, actions, a.t, batch, k) ==>
              && (Step(s, a).ledger.accepted != s.ledger.accepted ==> Step(s, a).queue == s.queue + [batch])
              && exists m :: k <= m && WentDownAt(threads, actions, m)
  {
    hide Step, RunLink, OfferedAt, WentDownAt;
    var s := RunLink(threads, actions);
    ThreadsStay(threads, actions);
    RefusedWhileDown(s);
    StepAccepts(s, a);
    if a.TrySend? && a.t < threads {
      if s.offers[a.t].Checked? {
        CheckedIff(threads, actions, a.t, s.offers[a.t].batch);
      }
      forall batch, k | OfferedAt(threads, actions, a.t, batch, k)
        ensures s.offers[a.t] == Checked(batch) && exists m :: k <= m && WentDownAt(threads, actions, m)
      {
        CheckedIff(threads, actions, a.t, batch);
        OfferedWhileUp(threads, actions, a.t, batch, k);
        var m := WentDown(threads, actions, k);
      }
    }
  }

  lemma {:induction false} OfferedWhileUp(threads: nat, actions: seq<Action>, t: nat, batch: FlowBatch, k: nat)
    requires OfferedAt(threads, actions, t, batch, k)
    ensures k <= |actions| && RunLink(threads, actions[..k]).counters.state == Connected
  {
  }

  /** A link with one offering thread that has connected once and lost nothing but perhaps that stream. */
  function OneOffer(pc: WorkerPc, state: LinkState, closed: nat, queue: seq<FlowBatch>, offer: OfferPc): Link {
    Link(pc, queue, Counters(state, 0, 0, 0), Wire(closed == 0, [], [], [], 0, 0, 1, closed), Timer(500, 0, []),
         Ledger(queue, [], 0), [offer], false)
  }

  lemma {:induction false} FirstConnect() returns (actions: seq<Action>)
    ensures RunLink(1, actions) == OneOffer(Streaming, Connected, 0, [], Idle)
  {
    actions := [Dial, Connect(true), PublishConnected];
    assert actions[..2] == [Dial, Connect(true)] && [Dial, Connect(true)][..1] == [Dial] && [Dial][..0] == [];
    assert RunLink(1, [Dial]).pc == Dialing;
    assert seq(1, i => Idle) == [Idle];
  }

  /** A stream that is lost between an offer's check and its send: the batch is queued while the link is down. */
  lemma {:induction false} QueuedWhileDown(batch: FlowBatch) returns (actions: seq<Action>)
    ensures RunLink(1, actions) == OneOffer(Down, Disconnected, 1, [batch], Idle)
  {
    hide RunLink;
    actions := FirstConnect();
    RunSnoc(1, actions, Offer(0, batch));
    actions := actions + [Offer(0, batch)];
    assert RunLink(1, actions) == OneOffer(Streaming, Connected, 0, [], Checked(batch));
    RunSnoc(1, actions, LoseStream);
    actions := actions + [LoseStream];
    RunSnoc(1, actions, PublishLost);
    actions := actions + [PublishLost];
    assert RunLink(1, actions) == OneOffer(Down, Disconnected, 1, [], Checked(batch));
    RunSnoc(1, actions, TrySend(0));
    actions := actions + [TrySend(0)];
  }

  lemma {:induction false} Reconnects(s: Link, threads: nat, down: seq<Action>) returns (up: seq<Action>)
    requires s == RunLink(threads, down) && s.pc.Down?
    ensures down <= up
    ensures var after := RunLink(threads, up);
            && after.pc.Streaming? && after.counters == s.counters.(state := Connected, reconnects := s.counters.reconnects + 1)
            && after.queue == s.queue && after.wire.open && after.wire.inner == []
  {
    hide RunLink;
    up := down + [CountReconnect];
    RunSnoc(threads, down, CountReconnect);
    RunSnoc(threads, up, Wake);
    up := up + [Wake];
    RunSnoc(threads, up, Dial);
    up := up + [Dial];
    RunSnoc(threads, up, Connect(true));
    up := up + [Connect(true)];
    RunSnoc(threads, up, PublishConnected);
    up := up + [PublishConnected];
  }

  /** A batch accepted while the link was down can survive the wait and be sent once it is up again. */
  lemma {:induction false} SentAfterOutage(batch: FlowBatch) returns (down: seq<Action>, up: seq<Action>)
    ensures down <= up
    ensures RunLink(1, down).counters.state == Disconnected && RunLink(1, down).queue == [batch]
    ensures RunLink(1, up).counters.sent == 1 && RunLink(1, up).wire.inner == [batch] && RunLink(1, up).counters.reconnects == 1
  {
    hide RunLink;
    down := QueuedWhileDown(batch);
    up := Reconnects(RunLink(1, down), 1, down);
    RunSnoc(1, up, Take);
    up := up + [Take];
    RunSnoc(1, up, Forward);
    up := up + [Forward];
    RunSnoc(1, up, CountSent);
    up := up + [CountSent];
  }
}
