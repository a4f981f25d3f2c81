/**
 * Sliding event windows (`rules/window.rs`): a deque of timestamped events and, for distinct
 * counts, an incremental index of how often each key occurs in it.
 */
module Window {
  import opened Ints

  const MAX_EVENTS_PER_SOURCE: nat := 65_536

  datatype Event<K> = Event(ts: u64, key: K)

  /** The deque after every leading event older than `cutoff` has been dropped. */
  function DropBefore<K>(events: seq<Event<K>>, cutoff: u64): seq<Event<K>> {
    if events != [] && events[0].ts < cutoff then DropBefore(events[1..], cutoff) else events
  }

  /** The deque after one `add`: the window is closed, so an event exactly `window` old stays. */
  function AddEvent<K>(events: seq<Event<K>>, e: Event<K>, window: u64): seq<Event<K>> {
    var kept := DropBefore(events, SatSub(e.ts, window));
    (if |kept| == MAX_EVENTS_PER_SOURCE then kept[1..] else kept) + [e]
  }

  /** The deque after a whole history of `add` calls. */
  function Run<K>(history: seq<Event<K>>, window: u64): seq<Event<K>> {
    if history == [] then []
    else AddEvent(Run(history[..|history| - 1], window), history[|history| - 1], window)
  }

  function KeySeq<K>(events: seq<Event<K>>): (keys: seq<K>)
    ensures |keys| == |events|
    ensures forall i :: 0 <= i < |events| ==> keys[i] == events[i].key
  {
    seq(|events|, i requires 0 <= i < |events| => events[i].key)
  }

  function KeySet<K>(events: seq<Event<K>>): set<K> {
    set k | k in KeySeq(events)
  }

  ghost predicate Monotone<K>(history: seq<Event<K>>) {
    forall i, j :: 0 <= i <= j < |history| ==> history[i].ts <= history[j].ts
  }

  // ---------------------------------------------------------------- what the deque holds

  ghost predicate IsSuffix<T>(s: seq<T>, whole: seq<T>) {
    |s| <= |whole| && s == whole[|whole| - |s|..]
  }

  lemma SuffixTransitive<T>(s: seq<T>, t: seq<T>, whole: seq<T>)
    requires IsSuffix(s, t) && IsSuffix(t, whole)
    ensures IsSuffix(s, whole)
  {
  }

  lemma {:induction false} DropBeforeIsSuffix<K>(events: seq<Event<K>>, cutoff: u64)
    ensures IsSuffix(DropBefore(events, cutoff), events)
  {
    if events == [] || events[0].ts >= cutoff {
    } else {
      DropBeforeIsSuffix(events[1..], cutoff);
    }
  }

  lemma AddKeepsSuffix<K>(events: seq<Event<K>>, whole: seq<Event<K>>, e: Event<K>, window: u64)
    requires IsSuffix(events, whole) && |events| <= MAX_EVENTS_PER_SOURCE
    ensures IsSuffix(AddEvent(events, e, window), whole + [e])
    ensures |AddEvent(events, e, window)| <= 65_536
  {
    var kept := DropBefore(events, SatSub(e.ts, window));
    DropBeforeIsSuffix(events, SatSub(e.ts, window));
    SuffixTransitive(kept, events, whole);
  }

  /** In any timestamp order the deque is a suffix of the added events, never longer than the cap. */
  lemma {:induction false} RunIsBoundedSuffix<K>(history: seq<Event<K>>, window: u64)
    ensures IsSuffix(Run(history, window), history)
    ensures |Run(history, window)| <= 65_536
  {
    if history == [] {
    } else {
      var before, e := history[..|history| - 1], history[|history| - 1];
      RunIsBoundedSuffix(before, window);
      AddKeepsSuffix(Run(before, window), before, e, window);
      assert history == before + [e];
    }
  }

  lemma {:induction false} RunSnoc<K>(before: seq<Event<K>>, e: Event<K>, window: u64)
    ensures Run(before + [e], window) == AddEvent(Run(before, window), e, window)
  {
    assert (before + [e])[..|before|] == before;
  }

  /** Where in the history the deque starts. */
  ghost function Start<K>(history: seq<Event<K>>, window: u64): (s: nat)
    ensures s <= |history| <= s + 65_536
    ensures Run(history, window) == history[s..]
  {
    RunIsBoundedSuffix(history, window);
    |history| - |Run(history, window)|
  }

  /** The first index from `from` on whose event is not older than `cutoff`. */
  function FirstInWindow<K>(history: seq<Event<K>>, from: nat, cutoff: u64): (a: nat)
    requires from <= |history|
    ensures from <= a <= |history|
    ensures forall i :: from <= i < a ==> history[i].ts < cutoff
    ensures a < |history| ==> history[a].ts >= cutoff
    decreases |history| - from
  {
    if from == |history| || history[from].ts >= cutoff then from else FirstInWindow(history, from + 1, cutoff)
  }

  lemma {:induction false} DropBeforeSlice<K>(history: seq<Event<K>>, from: nat, cutoff: u64)
    requires from <= |history|
    ensures DropBefore(history[from..], cutoff) == history[FirstInWindow(history, from, cutoff)..]
    decreases |history| - from
  {
    if from == |history| {
    } else {
      assert history[from..][1..] == history[from + 1..];
      if history[from].ts < cutoff {
        DropBeforeSlice(history, from + 1, cutoff);
      }
    }
  }

  /** Where the deque starts after one more event: at its first event in the window, or one later when it is full. */
  ghost function NextStart<K>(before: seq<Event<K>>, e: Event<K>, window: u64): (s: nat)
    ensures s <= |before|
  {
    var first := FirstInWindow(before, Start(before, window), SatSub(e.ts, window));
    if |before| - first == MAX_EVENTS_PER_SOURCE then first + 1 else first
  }

  lemma {:induction false} StartMoves<K>(before: seq<Event<K>>, e: Event<K>, window: u64)
    ensures Start(before + [e], window) == NextStart(before, e, window)
  {
    hide Run, DropBefore, FirstInWindow;
    RunSnoc(before, e, window);
    DropBeforeSlice(before, Start(before, window), SatSub(e.ts, window));
  }

  // ---------------------------------------------------------------- the orders in which the deque is the window

  /** `e` is not older than `window` when `now` arrives. */
  predicate InTime<K>(e: Event<K>, now: Event<K>, window: u64) {
    e.ts >= SatSub(now.ts, window)
  }

  /** The declarative window: the newest 65,536 events that are not older than `window`, by index. */
  ghost function Recent<K>(history: seq<Event<K>>, window: u64): set<nat>
    requires history != []
  {
    set i: nat | i < |history| && |history| <= i + 65_536 && InTime(history[i], history[|history| - 1], window)
  }

  ghost function Range(lo: nat, hi: nat): (r: set<nat>)
    requires lo <= hi
    ensures forall i: nat :: i in r <==> lo <= i < hi
    ensures |r| == hi - lo
    decreases hi
  {
    if lo == hi then {} else Range(lo, hi - 1) + {hi - 1}
  }

  /** The deque holds the declarative window, neither more nor less. */
  ghost predicate IsExact<K>(history: seq<Event<K>>, window: u64)
    requires history != []
  {
    Recent(history, window) == Range(Start(history, window), |history|)
  }

  ghost predicate AlwaysExact<K>(history: seq<Event<K>>, window: u64) {
    forall n {:trigger history[..n]} :: 0 < n <= |history| ==> IsExact(history[..n], window)
  }

  /**
   * The event at `i` is in the window when the one at `n` arrives, with fewer than 65,536 since; or exactly so many,
   * and it was in the window until then.
   */
  predicate Counts<K>(history: seq<Event<K>>, window: u64, i: nat, n: nat)
    requires i <= n < |history|
  {
    && InTime(history[i], history[n], window)
    && (n < i + 65_536 || (n == i + 65_536 && InTime(history[i], history[n - 1], window)))
  }

  /** A condition on timestamps: an event that counts has never been stale, and no later one is stale now. */
  ghost predicate Settled<K>(history: seq<Event<K>>, window: u64) {
    forall i, j, n :: 0 <= i <= j <= n < |history| && Counts(history, window, i, n) ==>
      InTime(history[i], history[j], window) && InTime(history[j], history[n], window)
  }

  /** `Settled` for the last event of the history. */
  ghost predicate SettledLast<K>(history: seq<Event<K>>, window: u64)
    requires history != []
  {
    forall i, j :: 0 <= i <= j < |history| && Counts(history, window, i, |history| - 1) ==>
      InTime(history[i], history[j], window) && InTime(history[j], history[|history| - 1], window)
  }

  lemma CountsEarlier<K>(before: seq<Event<K>>, e: Event<K>, window: u64, i: nat, n: nat)
    requires i <= n < |before|
    ensures Counts(before + [e], window, i, n) <==> Counts(before, window, i, n)
  {
    hide InTime;
  }

  lemma {:induction false} SettledSnoc<K>(before: seq<Event<K>>, e: Event<K>, window: u64)
    ensures Settled(before + [e], window) <==> Settled(before, window) && SettledLast(before + [e], window)
  {
    hide InTime, Counts;
    var history := before + [e];
    forall i, n | 0 <= i <= n < |before|
      ensures Counts(history, window, i, n) <==> Counts(before, window, i, n)
    {
      CountsEarlier(before, e, window, i, n);
    }
    if Settled(before, window) && SettledLast(history, window) {
      forall i, j, n | 0 <= i <= j <= n < |history| && Counts(history, window, i, n)
        ensures InTime(history[i], history[j], window) && InTime(history[j], history[n], window)
      {
        if n < |before| {
          assert Counts(before, window, i, n);
          assert InTime(before[i], before[j], window) && InTime(before[j], before[n], window);
        }
      }
    }
    if Settled(history, window) {
      forall i, j, n | 0 <= i <= j <= n < |before| && Counts(before, window, i, n)
        ensures InTime(before[i], before[j], window) && InTime(before[j], before[n], window)
      {
        assert Counts(history, window, i, n);
        assert InTime(history[i], history[j], window) && InTime(history[j], history[n], window);
      }
    }
  }

  lemma PrefixOfSnoc<T>(s: seq<T>, x: T, n: nat)
    requires n <= |s|
    ensures (s + [x])[..n] == s[..n] && (s + [x])[..|s| + 1] == s + [x]
  {
  }

  lemma {:induction false} AlwaysExactSnoc<K>(before: seq<Event<K>>, e: Event<K>, window: u64)
    ensures AlwaysExact(before + [e], window) <==> AlwaysExact(before, window) && IsExact(before + [e], window)
  {
    hide IsExact;
    var history := before + [e];
    PrefixOfSnoc(before, e, 0);
    if AlwaysExact(history, window) {
      forall n {:trigger before[..n]} | 0 < n <= |before|
        ensures IsExact(before[..n], window)
      {
        PrefixOfSnoc(before, e, n);
        assert IsExact(history[..n], window);
      }
      assert IsExact(history[..|history|], window);
    }
    if AlwaysExact(before, window) && IsExact(history, window) {
      forall n {:trigger history[..n]} | 0 < n <= |history|
        ensures IsExact(history[..n], window)
      {
        if n <= |before| {
          PrefixOfSnoc(before, e, n);
          assert IsExact(before[..n], window);
        }
      }
    }
  }

  /** What the window held before the last event. */
  lemma HeldBefore<K>(before: seq<Event<K>>, e: Event<K>, window: u64, i: nat)
    requires before != [] && IsExact(before, window) && i < |before|
    ensures i >= Start(before, window) <==>
            |before| <= i + 65_536 && InTime((before + [e])[i], (before + [e])[|before| - 1], window)
  {
    assert i in Recent(before, window) <==> i in Range(Start(before, window), |before|);
  }

  lemma {:induction false} SettledStaysExact<K>(before: seq<Event<K>>, e: Event<K>, window: u64)
    requires before != [] ==> IsExact(before, window)
    requires SettledLast(before + [e], window)
    ensures IsExact(before + [e], window)
  {
    hide IsExact, SettledLast;
    StartMoves(before, e, window);
    forall i: nat | i < |before|
      ensures i in Recent(before + [e], window) <==> i >= NextStart(before, e, window)
    {
      RecentNext(before, e, window, i);
    }
    ExactFrom(before + [e], window, NextStart(before, e, window));
  }

  lemma {:induction false} RecentNext<K>(before: seq<Event<K>>, e: Event<K>, window: u64, i: nat)
    requires i < |before| && IsExact(before, window) && SettledLast(before + [e], window)
    ensures i in Recent(before + [e], window) <==> i >= NextStart(before, e, window)
  {
    hide IsExact;
    var history, n := before + [e], |before|;
    var first := FirstInWindow(before, Start(before, window), SatSub(e.ts, window));
    HeldBefore(before, e, window, i);
    assert history[n] == e;
    if first < n {
      HeldBefore(before, e, window, first);
      assert history[first] == before[first] && history[first].ts >= SatSub(e.ts, window);
      assert Counts(history, window, first, n);
    }
  }

  lemma ExactFrom<K>(history: seq<Event<K>>, window: u64, s: nat)
    requires history != [] && s < |history| && Start(history, window) == s
    requires forall i: nat :: i < |history| - 1 ==> (i in Recent(history, window) <==> i >= s)
    ensures IsExact(history, window)
  {
  }

  lemma {:induction false} ExactIsSettledLast<K>(before: seq<Event<K>>, e: Event<K>, window: u64)
    requires before != [] ==> IsExact(before, window)
    requires Settled(before, window) && IsExact(before + [e], window)
    ensures SettledLast(before + [e], window)
  {
    hide FirstInWindow, IsExact, Settled;
    var history, n := before + [e], |before|;
    forall i, j | 0 <= i <= j <= n && Counts(history, window, i, n)
      ensures InTime(history[i], history[j], window) && InTime(history[j], history[n], window)
    {
      if i < n {
        CountedWasFresh(before, e, window, i, j);
        CountedComeFirst(before, e, window, i, j);
      }
    }
  }

  lemma {:induction false} CountedWasHeld<K>(before: seq<Event<K>>, e: Event<K>, window: u64, i: nat)
    requires before != [] && IsExact(before, window) && IsExact(before + [e], window)
    requires i < |before| && Counts(before + [e], window, i, |before|)
    ensures i >= Start(before, window) && Counts(before, window, i, |before| - 1)
  {
    var history, n := before + [e], |before|;
    HeldBefore(before, e, window, i);
    StartMoves(before, e, window);
    assert i in Recent(history, window) <==> i in Range(Start(history, window), n + 1);
  }

  lemma {:induction false} CountedWasFresh<K>(before: seq<Event<K>>, e: Event<K>, window: u64, i: nat, j: nat)
    requires before != [] && IsExact(before, window) && IsExact(before + [e], window) && Settled(before, window)
    requires i <= j <= |before| && i < |before| && Counts(before + [e], window, i, |before|)
    ensures InTime((before + [e])[i], (before + [e])[j], window)
  {
    hide IsExact;
    CountedWasHeld(before, e, window, i);
    if j < |before| {
      assert InTime(before[i], before[j], window);
    }
  }

  lemma {:induction false} CountedComeFirst<K>(before: seq<Event<K>>, e: Event<K>, window: u64, i: nat, j: nat)
    requires before != [] && IsExact(before, window) && IsExact(before + [e], window)
    requires i <= j <= |before| && i < |before| && Counts(before + [e], window, i, |before|)
    ensures InTime((before + [e])[j], (before + [e])[|before|], window)
  {
    hide IsExact;
    if i < j {
      CountedStarts(before, e, window, i);
      HeldIsFresh(before + [e], window, j);
    }
  }

  lemma HeldIsFresh<K>(history: seq<Event<K>>, window: u64, j: nat)
    requires history != [] && IsExact(history, window) && Start(history, window) <= j < |history|
    ensures InTime(history[j], history[|history| - 1], window)
  {
    hide Start;
    assert j in Recent(history, window);
  }

  lemma {:induction false} CountedStarts<K>(before: seq<Event<K>>, e: Event<K>, window: u64, i: nat)
    requires before != [] && IsExact(before, window) && IsExact(before + [e], window)
    requires i < |before| && Counts(before + [e], window, i, |before|)
    ensures Start(before + [e], window) <= i + 1
  {
    hide Start, IsExact, FirstInWindow;
    StartMoves(before, e, window);
    CountedWasHeld(before, e, window, i);
    assert before[i] == (before + [e])[i] && (before + [e])[|before|] == e;
  }

  /** The deque is the declarative window after every event exactly if the timestamps are settled, in whatever order. */
  lemma {:induction false} ExactIffSettled<K>(history: seq<Event<K>>, window: u64)
    ensures AlwaysExact(history, window) <==> Settled(history, window)
  {
    hide AlwaysExact, IsExact, Settled, SettledLast;
    if history == [] {
      NothingIsExact<K>(window);
    } else {
      var before, e := history[..|history| - 1], history[|history| - 1];
      assert history == before + [e];
      ExactIffSettled(before, window);
      SettledSnoc(before, e, window);
      AlwaysExactSnoc(before, e, window);
      if AlwaysExact(before, window) {
        LastIsExact(before, window);
        if SettledLast(history, window) {
          SettledStaysExact(before, e, window);
        }
        if IsExact(history, window) {
          ExactIsSettledLast(before, e, window);
        }
      }
    }
  }

  lemma NothingIsExact<K>(window: u64)
    ensures AlwaysExact<K>([], window) && Settled<K>([], window)
  {
  }

  lemma LastIsExact<K>(history: seq<Event<K>>, window: u64)
    requires AlwaysExact(history, window)
    ensures history != [] ==> IsExact(history, window)
  {
    assert history[..|history|] == history;
  }

  /** Timestamps that never decrease are settled under every window, however many events it holds. */
  lemma {:induction false} MonotoneIsSettled<K>(history: seq<Event<K>>, window: u64)
    requires Monotone(history)
    ensures Settled(history, window)
  {
  }

  lemma {:induction false} SettledPrefix<K>(history: seq<Event<K>>, window: u64, n: nat)
    requires Settled(history, window) && n <= |history|
    ensures Settled(history[..n], window)
  {
    hide IsExact, Settled;
    ExactIffSettled(history, window);
    ExactIffSettled(history[..n], window);
    assert forall m :: 0 < m <= n ==> history[..n][..m] == history[..m];
  }

  /**
   * With settled timestamps the deque is exactly the newest in-window events: those of the closed window
   * [now - window, now] among the last 65,536.
   */
  lemma {:induction false} RunIsRecent<K>(history: seq<Event<K>>, window: u64)
    requires history != [] && Settled(history, window)
    ensures Recent(history, window) == Range(Start(history, window), |history|)
  {
    hide Settled, Recent, Start;
    ExactIffSettled(history, window);
    LastIsExact(history, window);
  }

  ghost function KeysAt<K>(history: seq<Event<K>>, indices: set<nat>): set<K>
    requires forall i :: i in indices ==> i < |history|
  {
    set i | i in indices :: history[i].key
  }

  /** What the deque reports is what the declarative window holds. */
  lemma {:induction false} RunMeasuresRecent<K>(history: seq<Event<K>>, window: u64)
    requires history != [] && Settled(history, window)
    ensures |Run(history, window)| == |Recent(history, window)|
    ensures KeySet(Run(history, window)) == KeysAt(history, Recent(history, window))
  {
    hide Settled, Run;
    RunIsRecent(history, window);
    SliceKeys(history, Start(history, window));
    assert |history[Start(history, window)..]| == |history| - Start(history, window);
  }

  lemma {:induction false} SliceKeys<K>(history: seq<Event<K>>, b: nat)
    requires b <= |history|
    ensures KeySet(history[b..]) == KeysAt(history, Range(b, |history|))
  {
    var slice := history[b..];
    forall i: nat | b <= i < |history|
      ensures history[i].key in KeySet(slice)
    {
      assert slice[i - b] == history[i] && KeySeq(slice)[i - b] == slice[i - b].key;
    }
    forall k | k in KeySet(slice)
      ensures k in KeysAt(history, Range(b, |history|))
    {
      var j :| 0 <= j < |slice| && KeySeq(slice)[j] == k;
      assert history[b + j].key == k;
    }
  }

  ghost function AllInWindow<K>(history: seq<Event<K>>, window: u64): set<nat>
    requires history != []
  {
    set i: nat | i < |history| && InTime(history[i], history[|history| - 1], window)
  }

  /** In order, the cap does not show while at most 65,536 events lie in the closed window. */
  lemma {:induction false} UncappedWindow<K>(history: seq<Event<K>>, window: u64)
    requires history != [] && Monotone(history) && |AllInWindow(history, window)| <= 65_536
    ensures Recent(history, window) == AllInWindow(history, window)
  {
    var a := FirstInWindow(history, 0, SatSub(history[|history| - 1].ts, window));
    assert AllInWindow(history, window) == Range(a, |history|);
  }

  /** One `add` leaves no stale event exactly if no held event that is stale stands behind one that is not. */
  lemma {:induction false} AddIsFreshIff<K>(events: seq<Event<K>>, e: Event<K>, window: u64)
    requires |events| <= 65_536
    ensures (forall x :: x in AddEvent(events, e, window) ==> InTime(x, e, window))
            <==> forall i, j :: 0 <= i < j < |events| && InTime(events[i], e, window) ==> InTime(events[j], e, window)
  {
    hide DropBefore, FirstInWindow;
    var first := FirstInWindow(events, 0, SatSub(e.ts, window));
    DropBeforeSlice(events, 0, SatSub(e.ts, window));
    assert events[0..] == events;
    var s := if |events| - first == 65_536 then first + 1 else first;
    assert AddEvent(events, e, window) == events[s..] + [e];
    AllFreshIff(events[s..], e, window);
    AllFromIff(events, s, e, window);
  }

  lemma AllFreshIff<K>(kept: seq<Event<K>>, e: Event<K>, window: u64)
    ensures (forall x :: x in kept + [e] ==> InTime(x, e, window)) <==> forall x :: x in kept ==> InTime(x, e, window)
  {
    assert InTime(e, e, window);
  }

  lemma AllFromIff<K>(events: seq<Event<K>>, s: nat, e: Event<K>, window: u64)
    requires s <= |events|
    ensures (forall x :: x in events[s..] ==> InTime(x, e, window)) <==> forall k :: s <= k < |events| ==> InTime(events[k], e, window)
  {
    hide InTime;
    forall k | s <= k < |events|
      ensures events[k] in events[s..]
    {
      assert events[s..][k - s] == events[k];
    }
  }

  /** An event that comes late hides behind a newer one, outlives the window, and is counted. */
  lemma {:induction false} OutOfOrderOvercounts<K>(key: K)
    ensures var history := [Event(10, key), Event(3, key), Event(12, key)];
            |Run(history, 5)| == 3 && Recent(history, 5) == {0, 2} && !Settled(history, 5)
  {
    var a, b, c := Event(10, key), Event(3, key), Event(12, key);
    var history := [a, b, c];
    assert history[..2] == [a, b] && [a, b][..1] == [a] && [a][..0] == [];
    assert Run([a], 5) == [a];
    assert Run([a, b], 5) == [a, b];
    assert SatSub(12, 5) == 7;
    assert Counts(history, 5, 0, 2) && !InTime(history[1], history[2], 5);
  }

  /** A late event does no harm if nothing newer stands in its way: settled need not be in order. */
  lemma {:induction false} SettledOutOfOrder<K>(key: K)
    ensures var history := [Event(10, key), Event(9, key), Event(12, key)];
            !Monotone(history) && Settled(history, 5)
  {
    var history := [Event(10, key), Event(9, key), Event(12, key)];
    assert history[0].ts > history[1].ts;
  }

  // ---------------------------------------------------------------- the index

  /** `counts` is exactly the multiset of the deque's keys, without zero entries. */
  ghost predicate Indexes<K>(counts: map<K, nat>, events: seq<Event<K>>) {
    && counts.Keys == KeySet(events)
    && (forall k :: k in counts ==> counts[k] == multiset(KeySeq(events))[k])
  }

  lemma IndexSize<K>(counts: map<K, nat>, events: seq<Event<K>>)
    requires Indexes(counts, events)
    ensures |counts| == |KeySet(events)|
    ensures forall k :: k in counts ==> 0 < counts[k] <= |events|
  {
    assert |counts| == |counts.Keys|;
    forall k | k in counts
      ensures 0 < counts[k] <= |events|
    {
      assert k in KeySeq(events);
      assert multiset(KeySeq(events))[k] <= |multiset(KeySeq(events))|;
    }
  }

  lemma PopKey<K>(events: seq<Event<K>>)
    requires events != []
    ensures multiset(KeySeq(events)) == multiset{events[0].key} + multiset(KeySeq(events[1..]))
    ensures forall k :: k in KeySet(events) <==> k == events[0].key || k in KeySet(events[1..])
    ensures forall k :: k in KeySet(events[1..]) <==> k in multiset(KeySeq(events[1..]))
  {
    assert KeySeq(events) == [events[0].key] + KeySeq(events[1..]);
  }

  lemma PushKey<K>(events: seq<Event<K>>, e: Event<K>)
    ensures multiset(KeySeq(events + [e])) == multiset(KeySeq(events)) + multiset{e.key}
    ensures KeySet(events + [e]) == KeySet(events) + {e.key}
    ensures forall k :: k in KeySet(events) <==> k in multiset(KeySeq(events))
  {
    assert KeySeq(events + [e]) == KeySeq(events) + [e.key];
  }

  lemma PushIndexes<K>(counts: map<K, nat>, events: seq<Event<K>>, e: Event<K>)
    requires Indexes(counts, events)
    ensures Indexes(counts[e.key := (if e.key in counts then counts[e.key] else 0) + 1], events + [e])
  {
    PushKey(events, e);
  }

  /** The index after the oldest event has gone. */
  lemma PopIndexes<K>(counts: map<K, nat>, events: seq<Event<K>>)
    requires Indexes(counts, events) && events != []
    ensures var key := events[0].key;
            && key in counts && counts[key] > 0
            && Indexes(if counts[key] == 1 then counts[key := 0] - {key} else counts[key := counts[key] - 1], events[1..])
  {
    IndexSize(counts, events);
    PopKey(events);
  }

  /** Distinct keys seen in a sliding window. */
  class DistinctWindow<K(==)> {
    var events: seq<Event<K>>
    var counts: map<K, nat>

    ghost predicate Valid()
      reads this
    {
      |events| <= MAX_EVENTS_PER_SOURCE && Indexes(counts, events)
    }

    constructor ()
      ensures Valid() && events == []
    {
      events, counts := [], map[];
    }

    /** Records one event and reports how many distinct keys the window now holds. */
    method Add(ts: u64, key: K, window: u64) returns (n: nat)
      requires Valid()
      modifies this
      ensures Valid()
      ensures events == AddEvent(old(events), Event(ts, key), window)
      ensures n == |KeySet(events)|
    {
      EvictBefore(SatSub(ts, window));
      if |events| == MAX_EVENTS_PER_SOURCE {
        PopOldest();
      }
      n := PushNewest(ts, key);
    }

    method PushNewest(ts: u64, key: K) returns (n: nat)
      requires Valid() && |events| < MAX_EVENTS_PER_SOURCE
      modifies this
      ensures Valid()
      ensures events == old(events) + [Event(ts, key)]
      ensures n == |KeySet(events)|
    {
      PushIndexes(counts, events, Event(ts, key));
      events := events + [Event(ts, key)];
      counts := counts[key := (if key in counts then counts[key] else 0) + 1];
      IndexSize(counts, events);
      n := |counts|;
    }

    method EvictBefore(cutoff: u64)
      requires Valid()
      modifies this
      ensures Valid()
      ensures events == DropBefore(old(events), cutoff)
    {
      while events != [] && events[0].ts < cutoff
        invariant Valid()
        invariant DropBefore(events, cutoff) == DropBefore(old(events), cutoff)
        decreases |events|
      {
        PopOldest();
      }
    }

    method PopOldest()
      requires Valid()
      modifies this
      ensures Valid()
      ensures events == if old(events) == [] then [] else old(events)[1..]
    {
      if events == [] {
        return;
      }
      hide Indexes;
      var key := events[0].key;
      PopIndexes(counts, events);
      events := events[1..];
      if key in counts {
        counts := counts[key := counts[key] - 1];
        if counts[key] == 0 {
          counts := counts - {key};
        }
      }
    }
  }

  // ---------------------------------------------------------------- plain event counts

  function DropTimes(times: seq<u64>, cutoff: u64): seq<u64> {
    if times != [] && times[0] < cutoff then DropTimes(times[1..], cutoff) else times
  }

  function AddTime(times: seq<u64>, ts: u64, window: u64): seq<u64> {
    var kept := DropTimes(times, SatSub(ts, window));
    (if |kept| == MAX_EVENTS_PER_SOURCE then kept[1..] else kept) + [ts]
  }

  /** Timestamps seen as events that all carry the same key. */
  function Ticks<K>(times: seq<u64>, key: K): (events: seq<Event<K>>)
    ensures |events| == |times|
    ensures forall i :: 0 <= i < |times| ==> events[i] == Event(times[i], key)
  {
    seq(|times|, i requires 0 <= i < |times| => Event(times[i], key))
  }

  lemma {:induction false} DropTimesIsDrop<K>(times: seq<u64>, cutoff: u64, key: K)
    ensures Ticks(DropTimes(times, cutoff), key) == DropBefore(Ticks(times, key), cutoff)
  {
    if times == [] {
    } else {
      assert Ticks(times, key)[1..] == Ticks(times[1..], key);
      DropTimesIsDrop(times[1..], cutoff, key);
    }
  }

  /** A window of bare timestamps is an event window in which every event carries the same key. */
  lemma AddTimeIsAdd<K>(times: seq<u64>, ts: u64, window: u64, key: K)
    ensures Ticks(AddTime(times, ts, window), key) == AddEvent(Ticks(times, key), Event(ts, key), window)
  {
    DropTimesIsDrop(times, SatSub(ts, window), key);
  }

  /** Events, distinct or not, in a sliding window. */
  class CountWindow {
    var events: seq<u64>

    ghost predicate Valid()
      reads this
    {
      |events| <= MAX_EVENTS_PER_SOURCE
    }

    constructor ()
      ensures Valid() && events == []
    {
      events := [];
    }

    method Add(ts: u64, window: u64) returns (n: nat)
      requires Valid()
      modifies this
      ensures Valid()
      ensures events == AddTime(old(events), ts, window)
      ensures n == |events|
    {
      var cutoff := SatSub(ts, window);
      while events != [] && events[0] < cutoff
        invariant Valid()
        invariant DropTimes(events, cutoff) == DropTimes(old(events), cutoff)
        decreases |events|
      {
        events := events[1..];
      }
      if |events| == MAX_EVENTS_PER_SOURCE {
        events := events[1..];
      }
      events := events + [ts];
      n := |events|;
    }
  }
}
