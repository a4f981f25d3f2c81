/** The flow table as it runs (`flow.rs`): updates and expiry in place, and the heap-based top list. */
module FlowTables {
  import opened Ints
  import opened Wrappers
  import opened Lru
  import opened FlowSpec

  // ---------------------------------------------------------------- the top list's meaning

  type Entry = (FlowKey, FlowStats)
  type Ranked = (nat, FlowKey)

  /** The heap's order: fewer bytes first, then the smaller key. */
  predicate RankLess(x: Ranked, y: Ranked) {
    x.0 < y.0 || (x.0 == y.0 && KeyLess(x.1, y.1))
  }

  /** The list's order: more bytes first, then the smaller key. */
  predicate ListedBefore(x: Ranked, y: Ranked) {
    x.0 > y.0 || (x.0 == y.0 && KeyLess(x.1, y.1))
  }

  function Rank(e: Entry): Ranked {
    (e.1.TotalBytes(), e.0)
  }

  function Ranks(flows: seq<Entry>): set<Ranked> {
    set e | e in flows :: Rank(e)
  }

  /**
   * `top` lists, in order, the `n` largest flows under (bytes, key): ties on bytes are kept by the larger key but
   * listed by the smaller one.
   */
  ghost predicate IsTop(flows: seq<Entry>, n: nat, top: seq<Entry>) {
    && |top| == Min(n, |flows|)
    && (forall e :: e in top ==> e in flows)
    && (forall i, j :: 0 <= i < j < |top| ==> ListedBefore(Rank(top[i]), Rank(top[j])))
    && (forall e, t :: e in flows && e !in top && t in top ==> RankLess(Rank(e), Rank(t)))
  }

  /** More bytes in both directions together come first, and among equals the smaller key. */
  lemma ListedMeans(e: Entry, t: Entry)
    ensures var x, y := e.1.bytesAB + e.1.bytesBA, t.1.bytesAB + t.1.bytesBA;
            && (ListedBefore(Rank(e), Rank(t)) <==> x > y || (x == y && LexLess(KeyNumbers(e.0), KeyNumbers(t.0))))
            && (RankLess(Rank(e), Rank(t)) <==> x < y || (x == y && LexLess(KeyNumbers(e.0), KeyNumbers(t.0))))
  {
    hide KeyLess, LexLess, KeyNumbers;
    KeyLessIff(e.0, t.0);
  }

  // ---------------------------------------------------------------- orders

  lemma RankOrder(x: Ranked, y: Ranked, z: Ranked)
    ensures x == y || RankLess(x, y) || RankLess(y, x)
    ensures RankLess(x, y) && RankLess(y, z) ==> RankLess(x, z)
    ensures !RankLess(x, x) && !(RankLess(x, y) && RankLess(y, x))
    ensures x == y || ListedBefore(x, y) || ListedBefore(y, x)
    ensures ListedBefore(x, y) && ListedBefore(y, z) ==> ListedBefore(x, z)
    ensures !ListedBefore(x, x) && !(ListedBefore(x, y) && ListedBefore(y, x))
  {
    hide KeyLess;
    KeyOrder(x.1, y.1, z.1);
    KeyOrder(x.1, x.1, x.1);
  }

  lemma {:induction false} Least(s: set<Ranked>) returns (m: Ranked)
    requires s != {}
    ensures m in s && forall y :: y in s && y != m ==> RankLess(m, y)
  {
    hide RankLess, ListedBefore;
    var x :| x in s;
    m := x;
    if s == {x} {
    } else {
      var rest := Least(s - {x});
      m := if RankLess(x, rest) then x else rest;
      forall y | y in s && y != m
        ensures RankLess(m, y)
      {
        RankOrder(x, rest, y);
      }
    }
  }

  lemma {:induction false} First(s: set<Ranked>) returns (m: Ranked)
    requires s != {}
    ensures m in s && forall y :: y in s && y != m ==> ListedBefore(m, y)
  {
    hide RankLess, ListedBefore;
    var x :| x in s;
    m := x;
    if s == {x} {
    } else {
      var rest := First(s - {x});
      m := if ListedBefore(x, rest) then x else rest;
      forall y | y in s && y != m
        ensures ListedBefore(m, y)
      {
        RankOrder(x, rest, y);
      }
    }
  }

  // ---------------------------------------------------------------- the selection's invariant

  /** `heap` holds the ranks of the `n` largest of the flows seen so far. */
  ghost predicate KeepsLargest(seen: seq<Entry>, n: nat, heap: set<Ranked>) {
    && heap <= Ranks(seen)
    && |heap| == Min(n, |seen|)
    && (|seen| <= n ==> heap == Ranks(seen))
    && (forall r, t :: r in Ranks(seen) && r !in heap && t in heap ==> RankLess(r, t))
  }

  lemma NewRank(seen: seq<Entry>, e: Entry)
    requires Distinct(Keys(seen + [e]))
    ensures Rank(e) !in Ranks(seen) && Ranks(seen + [e]) == Ranks(seen) + {Rank(e)}
  {
    forall x | x in seen
      ensures x.0 != e.0
    {
      var i :| 0 <= i < |seen| && seen[i] == x;
      assert Keys(seen + [e])[i] == x.0 && Keys(seen + [e])[|seen|] == e.0;
    }
    assert forall x :: x in seen + [e] <==> x in seen || x == e;
  }

  lemma PrefixDistinct(flows: seq<Entry>, n: nat)
    requires Distinct(Keys(flows)) && n <= |flows|
    ensures Distinct(Keys(flows[..n]))
  {
    assert Keys(flows[..n]) == Keys(flows)[..n];
  }

  lemma PushKeepsLargest(seen: seq<Entry>, n: nat, heap: set<Ranked>, e: Entry)
    requires KeepsLargest(seen, n, heap) && |heap| < n && Distinct(Keys(seen + [e]))
    ensures KeepsLargest(seen + [e], n, heap + {Rank(e)})
  {
    hide RankLess;
    NewRank(seen, e);
  }

  lemma PopKeepsLargest(seen: seq<Entry>, n: nat, heap: set<Ranked>, e: Entry, least: Ranked)
    requires KeepsLargest(seen, n, heap) && |heap| == n && Distinct(Keys(seen + [e]))
    requires var next := heap + {Rank(e)};
             least in next && forall y :: y in next && y != least ==> RankLess(least, y)
    ensures KeepsLargest(seen + [e], n, heap + {Rank(e)} - {least})
  {
    hide RankLess;
    NewRank(seen, e);
    var next := heap + {Rank(e)};
    forall r, t | r in Ranks(seen + [e]) && r !in next - {least} && t in next - {least}
      ensures RankLess(r, t)
    {
      if r != least {
        if least != Rank(e) {
          assert RankLess(r, least);
        }
        RankOrder(r, least, t);
      }
    }
  }

  lemma {:induction false} LookupEntry(flows: seq<Entry>, e: Entry)
    requires Distinct(Keys(flows)) && e in flows
    ensures Lookup(flows, e.0) == Some(e.1)
  {
    var i :| 0 <= i < |flows| && flows[i] == e;
    assert Keys(flows)[i] == e.0;
    FoundIff(flows, e.0);
    assert Keys(flows)[Find(flows, e.0)] == e.0;
  }

  lemma RanksSnoc(top: seq<Entry>, e: Entry)
    ensures Ranks(top + [e]) == Ranks(top) + {Rank(e)}
  {
    assert forall x :: x in top + [e] <==> x in top || x == e;
  }

  /** `top` lists, in order, the ranks taken from the heap so far; `left` are the others, which come later. */
  ghost predicate Listing(heap: set<Ranked>, left: set<Ranked>, top: seq<Entry>) {
    && Ranks(top) == heap - left
    && |top| + |left| == |heap|
    && IsSorted(top)
    && forall e, r :: e in top && r in left ==> ListedBefore(Rank(e), r)
  }

  lemma NothingListed(heap: set<Ranked>)
    ensures Listing(heap, heap, [])
  {
  }

  lemma EverythingListed(heap: set<Ranked>, top: seq<Entry>)
    requires Listing(heap, {}, top)
    ensures Ranks(top) == heap && |top| == |heap| && IsSorted(top)
  {
  }

  lemma HeldRanks(seen: seq<Entry>, n: nat, heap: set<Ranked>)
    requires KeepsLargest(seen, n, heap)
    ensures heap <= Ranks(seen)
  {
  }

  lemma ListNext(heap: set<Ranked>, left: set<Ranked>, top: seq<Entry>, e: Entry)
    requires left <= heap && Listing(heap, left, top)
    requires Rank(e) in left && forall y :: y in left && y != Rank(e) ==> ListedBefore(Rank(e), y)
    ensures Listing(heap, left - {Rank(e)}, top + [e])
  {
    hide ListedBefore, Rank, Ranks;
    RanksSnoc(top, e);
    forall i | 0 <= i < |top|
      ensures ListedBefore(Rank(top[i]), Rank(e))
    {
      assert top[i] in top;
    }
  }

  lemma ListedIsTop(flows: seq<Entry>, n: nat, heap: set<Ranked>, top: seq<Entry>)
    requires KeepsLargest(flows, n, heap) && Distinct(Keys(flows))
    requires Ranks(top) == heap && |top| == |heap| && IsSorted(top)
    requires forall e :: e in top ==> e in flows
    ensures IsTop(flows, n, top)
  {
    hide ListedBefore, RankLess;
    forall e, t | e in flows && e !in top && t in top
      ensures RankLess(Rank(e), Rank(t))
    {
      if Rank(e) in heap {
        var f :| f in top && Rank(f) == Rank(e);
        LookupEntry(flows, e);
        LookupEntry(flows, f);
      }
    }
  }

  // ---------------------------------------------------------------- the list is determined

  ghost predicate IsSorted(top: seq<Entry>) {
    forall i, j :: 0 <= i < j < |top| ==> ListedBefore(Rank(top[i]), Rank(top[j]))
  }

  lemma {:induction false} SortedSize(top: seq<Entry>)
    requires IsSorted(top)
    ensures |set e | e in top| == |top|
  {
    hide ListedBefore;
    if top == [] {
    } else {
      SortedSize(top[1..]);
      forall e | e in top[1..]
        ensures e != top[0]
      {
        RankOrder(Rank(e), Rank(e), Rank(e));
      }
      assert (set e | e in top) == {top[0]} + (set e | e in top[1..]);
    }
  }

  lemma RestIsContained(s: seq<Entry>, t: seq<Entry>)
    requires IsSorted(s) && s != [] && t != [] && s[0] == t[0]
    requires forall e :: e in s ==> e in t
    ensures forall e :: e in s[1..] ==> e in t[1..]
  {
    hide ListedBefore;
    forall e | e in s[1..]
      ensures e in t[1..]
    {
      RankOrder(Rank(e), Rank(e), Rank(e));
      assert e in s && e != s[0];
      assert t == [t[0]] + t[1..];
    }
  }

  lemma EmptyOrMember(t: seq<Entry>)
    ensures t == [] || exists e :: e in t
  {
    if t != [] {
      assert t[0] in t;
    }
  }

  lemma {:induction false} SortedIsUnique(s: seq<Entry>, t: seq<Entry>)
    requires IsSorted(s) && IsSorted(t)
    requires forall e :: e in s <==> e in t
    ensures s == t
  {
    hide ListedBefore;
    if s == [] {
      EmptyOrMember(t);
    } else {
      assert s[0] in t && (t != [] ==> t[0] in s);
      RankOrder(Rank(s[0]), Rank(t[0]), Rank(s[0]));
      assert s[0] == t[0];
      RestIsContained(s, t);
      RestIsContained(t, s);
      SortedIsUnique(s[1..], t[1..]);
    }
  }

  /** There is only one such list, so the heap refines sorting everything and taking the first `n`. */
  lemma TopIsUnique(flows: seq<Entry>, n: nat, s: seq<Entry>, t: seq<Entry>)
    requires IsTop(flows, n, s) && IsTop(flows, n, t)
    ensures s == t
  {
    hide ListedBefore, RankLess;
    SortedSize(s);
    SortedSize(t);
    SameElements(flows, n, s, t);
    SameElements(flows, n, t, s);
    SortedIsUnique(s, t);
  }

  lemma SameElements(flows: seq<Entry>, n: nat, s: seq<Entry>, t: seq<Entry>)
    requires IsTop(flows, n, s) && IsTop(flows, n, t)
    requires |set e | e in s| == |s| && |set e | e in t| == |t|
    ensures forall e :: e in s ==> e in t
  {
    var ss, ts := set e | e in s, set e | e in t;
    forall e | e in s
      ensures e in t
    {
      if e !in t {
        assert exists f :: f in ts && f !in ss by {
          if ts <= ss {
            SmallerSet(ts, ss, e);
          }
        }
        var f :| f in ts && f !in ss;
        RankOrder(Rank(e), Rank(f), Rank(e));
      }
    }
  }

  lemma SmallerSet(a: set<Entry>, b: set<Entry>, x: Entry)
    requires a <= b && x in b && x !in a
    ensures |a| < |b|
  {
    assert a <= b - {x};
    assert b - {x} == a + (b - {x} - a);
  }

  // ---------------------------------------------------------------- the table

  class FlowTable {
    const limits: Limits
    var flows: Flows
    var evicted: nat
    var expired: nat

    ghost predicate Valid()
      reads this
    {
      limits.capacity > 0 && |flows| <= limits.capacity && Distinct(Keys(flows))
    }

    ghost function State(): FlowState
      reads this
    {
      FlowState(flows, evicted, expired)
    }

    constructor (limits: Limits)
      requires limits.capacity > 0
      ensures Valid() && this.limits == limits && State() == FlowState([], 0, 0)
    {
      this.limits := limits;
      flows, evicted, expired := [], 0, 0;
    }

    method Update(u: FlowUpdate) returns (stats: FlowStats)
      requires Valid()
      modifies this
      ensures Valid()
      ensures (State(), stats) == FlowSpec.Update(limits, old(State()), u)
    {
      hide OrFlags;
      var found := Lookup(flows, u.key);
      if found.Some? {
        stats := NextStats(found.value, u);
        PutSize(flows, limits.capacity, u.key, stats);
        flows := Put(flows, limits.capacity, u.key, stats);
        return;
      }
      stats := FirstStats(u);
      PutSize(flows, limits.capacity, u.key, stats);
      if |flows| == limits.capacity {
        evicted := evicted + 1;
      }
      flows := Put(flows, limits.capacity, u.key, stats);
    }

    method Expire(now: u64) returns (removed: nat)
      requires Valid()
      modifies this
      ensures Valid()
      ensures State() == FlowSpec.Expire(limits, old(State()), now)
      ensures removed == |old(flows)| - |flows|
    {
      removed := 0;
      while flows != [] && IsStale(limits, flows[0].1, now)
        invariant Valid() && evicted == old(evicted) && expired == old(expired)
        invariant |flows| + removed == |old(flows)|
        invariant DropStale(limits, flows, now) == DropStale(limits, old(flows), now)
        decreases |flows|
      {
        SuffixDistinct(flows, 1);
        flows := flows[1..];
        removed := removed + 1;
      }
      expired := expired + removed;
    }

    /** The `n` flows with the most bytes. */
    method TopByBytes(n: nat) returns (top: seq<Entry>)
      requires Valid()
      ensures IsTop(flows, n, top)
    {
      if n == 0 {
        return [];
      }
      var heap: set<Ranked> := {};
      for i := 0 to |flows|
        invariant KeepsLargest(flows[..i], n, heap)
      {
        hide KeepsLargest;
        assert flows[..i + 1] == flows[..i] + [flows[i]];
        PrefixDistinct(flows, i + 1);
        heap := Offer(flows[..i], n, heap, flows[i]);
      }
      assert flows[..|flows|] == flows;
      top := List(n, heap);
    }

    /** One round of the selection: push, and pop the least once more than `n` are held. */
    static method Offer(seen: seq<Entry>, n: nat, heap: set<Ranked>, e: Entry) returns (next: set<Ranked>)
      requires n > 0 && KeepsLargest(seen, n, heap) && Distinct(Keys(seen + [e]))
      ensures KeepsLargest(seen + [e], n, next)
    {
      hide RankLess;
      next := heap + {Rank(e)};
      NewRank(seen, e);
      if |next| > n {
        ghost var w := Least(next);
        var least :| least in next && forall y :: y in next && y != least ==> RankLess(least, y);
        PopKeepsLargest(seen, n, heap, e, least);
        next := next - {least};
      } else {
        PushKeepsLargest(seen, n, heap, e);
      }
    }

    /** The final sort: the held flows by bytes descending, then key ascending. */
    method List(n: nat, heap: set<Ranked>) returns (top: seq<Entry>)
      requires Valid() && KeepsLargest(flows, n, heap)
      ensures IsTop(flows, n, top)
    {
      hide ListedBefore, RankLess, Listing, KeepsLargest;
      top := [];
      var left := heap;
      NothingListed(heap);
      while left != {}
        invariant left <= heap && Listing(heap, left, top)
        invariant forall e :: e in top ==> e in flows
        decreases |left|
      {
        ghost var w := First(left);
        var first :| first in left && forall y :: y in left && y != first ==> ListedBefore(first, y);
        var stats := Lookup(flows, first.1);
        HeldRanks(flows, n, heap);
        RankIsEntry(first);
        ListNext(heap, left, top, (first.1, stats.value));
        top := top + [(first.1, stats.value)];
        left := left - {first};
      }
      EverythingListed(heap, top);
      ListedIsTop(flows, n, heap, top);
    }

    lemma RankIsEntry(r: Ranked)
      requires Valid() && r in Ranks(flows)
      ensures Lookup(flows, r.1).Some?
      ensures (r.1, Lookup(flows, r.1).value) in flows && Rank((r.1, Lookup(flows, r.1).value)) == r
    {
      var e :| e in flows && Rank(e) == r;
      LookupEntry(flows, e);
    }
  }
}
