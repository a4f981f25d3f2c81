/**
 * The alert queue between producers and pollers (`core-ffi/src/core.rs`), as a step system: any number of threads push
 * and poll, one atomic action or lock operation at a time, in any interleaving.
 */
module AlertQueue {
  import opened Ints
  import opened Wrappers
  import opened RuleSpec

  const ALERT_QUEUE_CAPACITY: nat := 1024

  /** Where a thread is inside `push_alert` or `pop_alert`. */
  datatype Pc =
    | Idle
    | Announced(alert: Alert)   // counted in the total, waiting for the lock
    | Holding(alert: Alert)     // has the lock
    | Evicted(alert: Alert)     // has popped the oldest alert, not yet counted as dropped
    | Ready(alert: Alert)       // there is room
    | Pushed                    // about to release
    | Polling                   // has the lock
    | Polled                    // about to release
  {
    predicate InCritical() {
      !Idle? && !Announced?
    }

    /** A push that is counted in the total but not yet committed. */
    predicate InFlight() {
      Announced? || Holding? || Evicted? || Ready?
    }
  }

  /** Why a committed alert left the queue; `commits` is how many alerts had been committed by then. */
  datatype Fate = Taken | Dropped(commits: nat)

  datatype State = State(
    total: nat,
    dropped: nat,
    queue: seq<Alert>,
    holder: Option<nat>,
    pcs: seq<Pc>,
    // What an observer has seen so far.
    committed: seq<Alert>,
    fates: seq<Fate>,
    received: seq<Alert>
  )

  datatype Action =
    | Announce(t: nat, alert: Alert)
    | Lock(t: nat)
    | MakeRoom(t: nat)
    | CountDrop(t: nat)
    | Push(t: nat)
    | Release(t: nat)
    | Poll(t: nat)
    | Pop(t: nat)

  function Start(threads: nat): State {
    State(0, 0, [], None, seq(threads, i => Idle), [], [], [])
  }

  /** One action of one thread; an action that is not enabled, such as locking a held lock, does not happen. */
  function Step(s: State, a: Action): State {
    if a.t >= |s.pcs| then s
    else
      var pc := s.pcs[a.t];
      match a
      case Announce(t, alert) =>
        if pc.Idle? then s.(total := s.total + 1, pcs := s.pcs[t := Announced(alert)]) else s
      case Lock(t) =>
        if pc.Announced? && s.holder.None? then s.(holder := Some(t), pcs := s.pcs[t := Holding(pc.alert)]) else s
      case MakeRoom(t) =>
        if !pc.Holding? then s
        else if |s.queue| == ALERT_QUEUE_CAPACITY then
          s.(queue := s.queue[1..], pcs := s.pcs[t := Evicted(pc.alert)], fates := s.fates + [Dropped(|s.committed|)])
        else s.(pcs := s.pcs[t := Ready(pc.alert)])
      case CountDrop(t) =>
        if pc.Evicted? then s.(dropped := s.dropped + 1, pcs := s.pcs[t := Ready(pc.alert)]) else s
      case Push(t) =>
        if pc.Ready? then
          s.(queue := s.queue + [pc.alert], pcs := s.pcs[t := Pushed], committed := s.committed + [pc.alert])
        else s
      case Release(t) =>
        if pc.Pushed? || pc.Polled? then s.(holder := None, pcs := s.pcs[t := Idle]) else s
      case Poll(t) =>
        if pc.Idle? && s.holder.None? then s.(holder := Some(t), pcs := s.pcs[t := Polling]) else s
      case Pop(t) =>
        if !pc.Polling? then s
        else if s.queue == [] then s.(pcs := s.pcs[t := Polled])
        else s.(queue := s.queue[1..], pcs := s.pcs[t := Polled], fates := s.fates + [Taken], received := s.received + [s.queue[0]])
  }

  function RunSteps(threads: nat, actions: seq<Action>): State {
    if actions == [] then Start(threads)
    else Step(RunSteps(threads, actions[..|actions| - 1]), actions[|actions| - 1])
  }

  // ---------------------------------------------------------------- what every run keeps

  function CountInFlight(pcs: seq<Pc>): nat {
    if pcs == [] then 0 else CountInFlight(pcs[..|pcs| - 1]) + if pcs[|pcs| - 1].InFlight() then 1 else 0
  }

  function CountDropped(fates: seq<Fate>): nat {
    if fates == [] then 0 else CountDropped(fates[..|fates| - 1]) + if fates[|fates| - 1].Dropped? then 1 else 0
  }

  /** The committed alerts that were taken, in commit order. */
  function TakenOf(committed: seq<Alert>, fates: seq<Fate>): seq<Alert>
    requires |fates| <= |committed|
  {
    if fates == [] then []
    else
      var n := |fates| - 1;
      TakenOf(committed, fates[..n]) + if fates[n].Taken? then [committed[n]] else []
  }

  /** An eviction that its producer has not counted yet. */
  function Uncounted(s: State): nat {
    if s.holder.Some? && s.holder.value < |s.pcs| && s.pcs[s.holder.value].Evicted? then 1 else 0
  }

  /** Exactly the lock's holder is inside a critical section, and only there can the queue have room made. */
  ghost predicate Excludes(s: State) {
    && (s.holder.Some? ==> s.holder.value < |s.pcs|)
    && (forall t :: 0 <= t < |s.pcs| ==> (s.pcs[t].InCritical() <==> s.holder == Some(t)))
    && |s.queue| <= 1_024
    && (forall t :: 0 <= t < |s.pcs| && (s.pcs[t].Ready? || s.pcs[t].Evicted?) ==> |s.queue| < 1_024)
  }

  /** The queue is the committed sequence without those that were taken or dropped, which left in commit order. */
  ghost predicate KeepsOrder(s: State) {
    && |s.fates| <= |s.committed|
    && s.queue == s.committed[|s.fates|..]
    && s.received == TakenOf(s.committed, s.fates)
  }

  /** A dropped alert had 1,023 later ones committed, and its dropper holds the lock to commit one more. */
  ghost predicate DropsLate(s: State) {
    forall i :: 0 <= i < |s.fates| && s.fates[i].Dropped? ==>
      && s.fates[i].commits == i + 1_024
      && (|s.committed| > i + 1_024
          || (s.holder.Some? && s.holder.value < |s.pcs| && (s.pcs[s.holder.value].Evicted? || s.pcs[s.holder.value].Ready?)
              && |s.committed| == i + 1_024))
  }

  ghost predicate Balances(s: State) {
    && CountDropped(s.fates) == s.dropped + Uncounted(s)
    && |s.received| == |s.fates| - CountDropped(s.fates)
    && s.total == CountInFlight(s.pcs) + |s.committed|
  }

  lemma {:induction false} InFlightUpdates(pcs: seq<Pc>, t: nat, pc: Pc)
    requires t < |pcs|
    ensures CountInFlight(pcs[t := pc])
            == CountInFlight(pcs) - (if pcs[t].InFlight() then 1 else 0) + (if pc.InFlight() then 1 else 0)
  {
    var last := |pcs| - 1;
    if t < last {
      InFlightUpdates(pcs[..last], t, pc);
      assert pcs[t := pc][..last] == pcs[..last][t := pc];
    } else {
      assert pcs[t := pc][..last] == pcs[..last];
    }
  }

  lemma {:induction false} DroppedSnoc(fates: seq<Fate>, f: Fate)
    ensures CountDropped(fates + [f]) == CountDropped(fates) + if f.Dropped? then 1 else 0
  {
    assert (fates + [f])[..|fates|] == fates;
  }

  lemma {:induction false} TakenSnoc(committed: seq<Alert>, fates: seq<Fate>, f: Fate)
    requires |fates| < |committed|
    ensures TakenOf(committed, fates + [f]) == TakenOf(committed, fates) + if f.Taken? then [committed[|fates|]] else []
  {
    assert (fates + [f])[..|fates|] == fates;
  }

  lemma {:induction false} TakenOfLonger(committed: seq<Alert>, alert: Alert, fates: seq<Fate>)
    requires |fates| <= |committed|
    ensures TakenOf(committed + [alert], fates) == TakenOf(committed, fates)
  {
    if fates == [] {
    } else {
      TakenOfLonger(committed, alert, fates[..|fates| - 1]);
    }
  }

  lemma {:induction false} StepExcludes(s: State, a: Action)
    requires Excludes(s)
    ensures Excludes(Step(s, a))
  {
  }

  lemma StepKeepsOrder(s: State, a: Action)
    requires Excludes(s) && KeepsOrder(s)
    ensures KeepsOrder(Step(s, a))
  {
    hide TakenOf;
    if a.t < |s.pcs| {
      if s.queue != [] {
        TakenSnoc(s.committed, s.fates, Taken);
        TakenSnoc(s.committed, s.fates, Dropped(|s.committed|));
      }
      if s.pcs[a.t].Ready? {
        TakenOfLonger(s.committed, s.pcs[a.t].alert, s.fates);
      }
    }
  }

  lemma StepDropsLate(s: State, a: Action)
    requires Excludes(s) && KeepsOrder(s) && DropsLate(s)
    ensures DropsLate(Step(s, a))
  {
    hide TakenOf;
  }

  lemma {:induction false} StepBalances(s: State, a: Action)
    requires Excludes(s) && KeepsOrder(s) && Balances(s)
    ensures Balances(Step(s, a))
  {
    hide TakenOf, CountInFlight, CountDropped;
    if a.t < |s.pcs| {
      var after := Step(s, a);
      InFlightUpdates(s.pcs, a.t, after.pcs[a.t]);
      assert after.pcs == s.pcs[a.t := after.pcs[a.t]];
      DroppedSnoc(s.fates, Taken);
      DroppedSnoc(s.fates, Dropped(|s.committed|));
    }
  }

  lemma {:induction false} NoneInFlight(n: nat)
    ensures CountInFlight(seq(n, i => Idle)) == 0
  {
    if n == 0 {
    } else {
      NoneInFlight(n - 1);
      assert seq(n, i => Idle)[..n - 1] == seq(n - 1, i => Idle);
    }
  }

  ghost predicate Safe(s: State) {
    Excludes(s) && KeepsOrder(s) && DropsLate(s) && Balances(s)
  }

  lemma {:induction false} RunIsSafe(threads: nat, actions: seq<Action>)
    ensures Safe(RunSteps(threads, actions))
  {
    hide Step, Excludes, KeepsOrder, DropsLate, Balances;
    if actions == [] {
      StartIsSafe(threads);
    } else {
      var before, a := RunSteps(threads, actions[..|actions| - 1]), actions[|actions| - 1];
      RunIsSafe(threads, actions[..|actions| - 1]);
      StepExcludes(before, a);
      StepKeepsOrder(before, a);
      StepDropsLate(before, a);
      StepBalances(before, a);
    }
  }

  lemma {:induction false} StartIsSafe(threads: nat)
    ensures Safe(Start(threads))
  {
    NoneInFlight(threads);
  }

  // ---------------------------------------------------------------- the main results

  /**
   * Nothing is lost or counted twice, in any interleaving: every announced alert is in flight, taken, dropped, or
   * queued; one that has been evicted is counted as dropped as soon as its evictor takes its next step.
   */
  lemma {:induction false} AlertsAreAccountedFor(threads: nat, actions: seq<Action>)
    ensures var s := RunSteps(threads, actions);
            && s.total == CountInFlight(s.pcs) + |s.received| + s.dropped + Uncounted(s) + |s.queue|
            && (s.holder.None? ==> s.total == CountInFlight(s.pcs) + |s.received| + s.dropped + |s.queue|)
            && |s.queue| <= 1_024
  {
    hide RunSteps, CountInFlight, CountDropped, DropsLate, TakenOf;
    RunIsSafe(threads, actions);
  }

  /** The queue is exactly the committed sequence after its first taken + dropped entries; pollers see commit order. */
  lemma {:induction false} QueueIsCommittedRest(threads: nat, actions: seq<Action>)
    ensures var s := RunSteps(threads, actions);
            && |s.received| + s.dropped + Uncounted(s) <= |s.committed|
            && s.queue == s.committed[|s.received| + s.dropped + Uncounted(s)..]
            && |s.fates| == |s.received| + s.dropped + Uncounted(s)
            && s.received == TakenOf(s.committed, s.fates)
  {
    hide RunSteps, CountInFlight, CountDropped, DropsLate, TakenOf, Excludes;
    RunIsSafe(threads, actions);
  }

  /** Whenever the lock is free, a dropped alert has at least 1,024 alerts committed after it. */
  lemma {:induction false} DropsAreLate(threads: nat, actions: seq<Action>, i: nat)
    requires var s := RunSteps(threads, actions);
             i < |s.fates| && s.fates[i].Dropped? && s.holder.None?
    ensures |RunSteps(threads, actions).committed| - (i + 1) >= 1_024
  {
    hide RunSteps, Excludes, KeepsOrder, Balances;
    RunIsSafe(threads, actions);
  }

  /** The lock is never stuck: its holder always has a next action, and a free lock goes to any thread waiting for it. */
  lemma {:induction false} NoDeadlock(threads: nat, actions: seq<Action>, t: nat)
    requires t < threads
    ensures |RunSteps(threads, actions).pcs| == threads
    ensures var s := RunSteps(threads, actions);
            && (s.holder == Some(t) ==> exists a: Action :: a.t == t && Step(s, a) != s)
            && (s.holder.None? && s.pcs[t].Announced? ==> Step(s, Lock(t)).holder == Some(t))
  {
    hide RunSteps, KeepsOrder, DropsLate, Balances;
    ThreadsStay(threads, actions);
    RunIsSafe(threads, actions);
    var s := RunSteps(threads, actions);
    if s.holder == Some(t) {
      var pc := s.pcs[t];
      var a := if pc.Holding? then MakeRoom(t) else if pc.Evicted? then CountDrop(t) else if pc.Ready? then Push(t)
               else if pc.Polling? then Pop(t) else Release(t);
      assert Step(s, a).pcs[t] != pc;
    }
  }

  lemma {:induction false} ThreadsStay(threads: nat, actions: seq<Action>)
    ensures |RunSteps(threads, actions).pcs| == threads
  {
    if actions == [] {
    } else {
      ThreadsStay(threads, actions[..|actions| - 1]);
    }
  }

  // ---------------------------------------------------------------- one push, one poll

  /** The newest 1,024 of a sequence. */
  function Newest<T>(s: seq<T>): (r: seq<T>)
    ensures |r| == Min(|s|, 1_024) && r == s[|s| - |r|..]
  {
    if |s| <= 1_024 then s else s[|s| - 1_024..]
  }

  function Overflow(size: nat): nat {
    if size <= 1_024 then 0 else size - 1_024
  }

  lemma SuffixOfJoin<T>(a: seq<T>, b: seq<T>, k: nat)
    requires k <= |a|
    ensures a[k..] + b == (a + b)[k..]
  {
  }

  lemma NewestOfSuffix<T>(s: seq<T>, k: nat)
    requires k + 1_024 <= |s|
    ensures Newest(s[k..]) == Newest(s)
  {
    assert s[k..][|s| - k - 1_024..] == s[|s| - 1_024..];
  }

  /** Keeping the newest alerts early or late makes no difference, nor does counting the rest. */
  lemma NewestOfMore<T>(a: seq<T>, b: seq<T>)
    ensures Newest(Newest(a) + b) == Newest(a + b)
    ensures Overflow(|a|) + Overflow(|Newest(a)| + |b|) == Overflow(|a| + |b|)
  {
    if |a| > 1_024 {
      var k := |a| - 1_024;
      SuffixOfJoin(a, b, k);
      NewestOfSuffix(a + b, k);
    } else {
      assert Newest(a) == a;
    }
  }

  /** One thread's push, step by step, with no other thread in between. */
  function PushBy(s: State, t: nat, alert: Alert): State {
    Step(Step(Step(Step(Step(Step(s, Announce(t, alert)), Lock(t)), MakeRoom(t)), CountDrop(t)), Push(t)), Release(t))
  }

  lemma Acquires(s: State, t: nat, alert: Alert)
    requires t < |s.pcs| && s.pcs[t].Idle? && s.holder.None?
    ensures Step(Step(s, Announce(t, alert)), Lock(t))
            == s.(total := s.total + 1, holder := Some(t), pcs := s.pcs[t := Holding(alert)])
  {
    assert s.pcs[t := Announced(alert)][t := Holding(alert)] == s.pcs[t := Holding(alert)];
  }

  lemma MakesRoom(s: State, t: nat)
    requires t < |s.pcs| && s.pcs[t].Holding? && |s.queue| <= 1_024
    ensures var after := Step(Step(s, MakeRoom(t)), CountDrop(t));
            && after.queue == (if |s.queue| == 1_024 then s.queue[1..] else s.queue)
            && after.dropped == s.dropped + Overflow(|s.queue| + 1)
            && after.pcs == s.pcs[t := Ready(s.pcs[t].alert)] && after.total == s.total && after.holder == s.holder
            && after.received == s.received
  {
    var alert := s.pcs[t].alert;
    assert s.pcs[t := Evicted(alert)][t := Ready(alert)] == s.pcs[t := Ready(alert)];
  }

  lemma Commits(s: State, t: nat)
    requires t < |s.pcs| && s.pcs[t].Ready?
    ensures var after := Step(Step(s, Push(t)), Release(t));
            && after.queue == s.queue + [s.pcs[t].alert] && after.pcs == s.pcs[t := Idle] && after.holder.None?
            && after.total == s.total && after.dropped == s.dropped && after.received == s.received
  {
    assert s.pcs[t := Pushed][t := Idle] == s.pcs[t := Idle];
  }

  /** A push that nobody interrupts keeps the newest alerts and counts what it displaces. */
  lemma UndisturbedPush(s: State, t: nat, alert: Alert)
    requires t < |s.pcs| && s.pcs[t].Idle? && s.holder.None? && |s.queue| <= 1_024
    ensures var after := PushBy(s, t, alert);
            && after.queue == Newest(s.queue + [alert])
            && after.total == s.total + 1
            && after.dropped == s.dropped + Overflow(|s.queue| + 1)
            && after.pcs == s.pcs && after.holder.None? && after.received == s.received
  {
    hide Step;
    Acquires(s, t, alert);
    var held := Step(Step(s, Announce(t, alert)), Lock(t));
    MakesRoom(held, t);
    Commits(Step(Step(held, MakeRoom(t)), CountDrop(t)), t);
  }

  /** One thread's poll, step by step, with no other thread in between. */
  function PollBy(s: State, t: nat): State {
    Step(Step(Step(s, Poll(t)), Pop(t)), Release(t))
  }

  /** A poll that nobody interrupts takes the oldest alert, if there is any, and changes nothing else. */
  lemma UndisturbedPoll(s: State, t: nat)
    requires t < |s.pcs| && s.pcs[t].Idle? && s.holder.None?
    ensures var after := PollBy(s, t);
            && after == s.(queue := after.queue, received := after.received, fates := after.fates)
            && (if s.queue == [] then after == s
                else s.queue == [after.received[|s.received|]] + after.queue
                     && after.received == s.received + [s.queue[0]] && after.fates == s.fates + [Taken])
  {
    assert s.pcs[t := Polling][t := Polled][t := Idle] == s.pcs;
  }

  lemma {:induction false} RunSnoc(threads: nat, actions: seq<Action>, a: Action)
    ensures RunSteps(threads, actions + [a]) == Step(RunSteps(threads, actions), a)
  {
    assert (actions + [a])[..|actions|] == actions;
  }

  /** From every state of every run in which two threads are idle and the lock is free, an alert goes in and one comes out. */
  lemma {:induction false} PushThenPoll(threads: nat, actions: seq<Action>, producer: nat, poller: nat, alert: Alert)
    returns (more: seq<Action>)
    requires producer < threads && poller < threads && producer != poller
    requires var s := RunSteps(threads, actions);
             s.holder.None? && |s.pcs| == threads && s.pcs[producer].Idle? && s.pcs[poller].Idle?
    ensures var s, after := RunSteps(threads, actions), RunSteps(threads, actions + more);
            && after.holder.None? && after.pcs == s.pcs && after.total == s.total + 1
            && after.received == s.received + [Newest(s.queue + [alert])[0]]
            && after.queue == Newest(s.queue + [alert])[1..]
  {
    hide RunSteps, Step, DropsLate, Balances, KeepsOrder;
    var s := RunSteps(threads, actions);
    RunIsSafe(threads, actions);
    UndisturbedPush(s, producer, alert);
    UndisturbedPoll(PushBy(s, producer, alert), poller);
    var pushed := actions + [Announce(producer, alert)];
    RunSnoc(threads, actions, Announce(producer, alert));
    RunSnoc(threads, pushed, Lock(producer));
    pushed := pushed + [Lock(producer)];
    RunSnoc(threads, pushed, MakeRoom(producer));
    pushed := pushed + [MakeRoom(producer)];
    RunSnoc(threads, pushed, CountDrop(producer));
    pushed := pushed + [CountDrop(producer)];
    RunSnoc(threads, pushed, Push(producer));
    pushed := pushed + [Push(producer)];
    RunSnoc(threads, pushed, Release(producer));
    pushed := pushed + [Release(producer)];
    RunSnoc(threads, pushed, Poll(poller));
    pushed := pushed + [Poll(poller)];
    RunSnoc(threads, pushed, Pop(poller));
    pushed := pushed + [Pop(poller)];
    RunSnoc(threads, pushed, Release(poller));
    pushed := pushed + [Release(poller)];
    more := [Announce(producer, alert), Lock(producer), MakeRoom(producer), CountDrop(producer), Push(producer),
             Release(producer), Poll(poller), Pop(poller), Release(poller)];
    assert pushed == actions + more;
  }
}
