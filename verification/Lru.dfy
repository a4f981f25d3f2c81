/**
 * The `lru` crate by its documented behaviour: entries in recency order, least recent first, with
 * distinct keys. A promoting lookup and an insert both make their key the most recent one, and an
 * insert of a new key into a full cache evicts the least recent entry.
 */
module Lru {
  import opened Wrappers

  function Keys<K, V>(cache: seq<(K, V)>): (keys: seq<K>)
    ensures |keys| == |cache|
    ensures forall i :: 0 <= i < |cache| ==> keys[i] == cache[i].0
  {
    seq(|cache|, i requires 0 <= i < |cache| => cache[i].0)
  }

  ghost predicate Distinct<K>(keys: seq<K>) {
    forall i, j :: 0 <= i < j < |keys| ==> keys[i] != keys[j]
  }

  /** The position of a key, or the cache's length. */
  function Find<K(==), V>(cache: seq<(K, V)>, k: K): (i: nat)
    ensures i <= |cache|
    ensures i < |cache| ==> cache[i].0 == k
    ensures forall j :: 0 <= j < i ==> cache[j].0 != k
  {
    if cache == [] || cache[0].0 == k then 0 else 1 + Find(cache[1..], k)
  }

  function Lookup<K(==), V>(cache: seq<(K, V)>, k: K): Option<V> {
    var i := Find(cache, k);
    if i < |cache| then Some(cache[i].1) else None
  }

  function Remove<K(==), V>(cache: seq<(K, V)>, k: K): seq<(K, V)> {
    if cache == [] then []
    else if cache[0].0 == k then Remove(cache[1..], k)
    else [cache[0]] + Remove(cache[1..], k)
  }

  /** Makes `k` the most recent key, holding `v`. */
  function Put<K(==), V>(cache: seq<(K, V)>, capacity: nat, k: K, v: V): seq<(K, V)>
    requires capacity > 0
  {
    var rest := Remove(cache, k);
    (if |rest| == capacity then rest[1..] else rest) + [(k, v)]
  }

  // ---------------------------------------------------------------- keys only

  function Without<K(==)>(keys: seq<K>, k: K): seq<K> {
    if keys == [] then []
    else if keys[0] == k then Without(keys[1..], k)
    else [keys[0]] + Without(keys[1..], k)
  }

  function Touch<K(==)>(keys: seq<K>, capacity: nat, k: K): seq<K>
    requires capacity > 0
  {
    var rest := Without(keys, k);
    (if |rest| == capacity then rest[1..] else rest) + [k]
  }

  /** The cache's keys after a history of insertions and promotions. */
  function Touched<K(==)>(history: seq<K>, capacity: nat): seq<K>
    requires capacity > 0
  {
    if history == [] then []
    else Touch(Touched(history[..|history| - 1], capacity), capacity, history[|history| - 1])
  }

  /** Every key of the history once, ordered by its last use, the latest at the end. */
  function Recency<K(==)>(history: seq<K>): seq<K> {
    if history == [] then []
    else Without(Recency(history[..|history| - 1]), history[|history| - 1]) + [history[|history| - 1]]
  }

  /** The keys used after the last use of `k`. */
  function Since<K(==)>(history: seq<K>, k: K): set<K> {
    if history == [] || history[|history| - 1] == k then {}
    else Since(history[..|history| - 1], k) + {history[|history| - 1]}
  }

  /** What follows `k` in a key list. */
  function After<K(==)>(keys: seq<K>, k: K): seq<K> {
    if keys == [] then [] else if keys[0] == k then keys[1..] else After(keys[1..], k)
  }

  function Elements<K>(keys: seq<K>): set<K> {
    set k | k in keys
  }

  function LastN<T>(s: seq<T>, n: nat): seq<T> {
    if |s| <= n then s else s[|s| - n..]
  }

  // ---------------------------------------------------------------- basic facts

  lemma {:induction false} WithoutElements<K(!new)>(keys: seq<K>, k: K)
    ensures forall x :: x in Without(keys, k) <==> x in keys && x != k
    ensures k !in keys ==> Without(keys, k) == keys
  {
    if keys == [] {
    } else {
      WithoutElements(keys[1..], k);
      assert forall x :: x in keys <==> x == keys[0] || x in keys[1..];
    }
  }

  lemma {:induction false} WithoutDistinct<K(!new)>(keys: seq<K>, k: K)
    requires Distinct(keys)
    ensures Distinct(Without(keys, k))
    ensures |Without(keys, k)| == if k in keys then |keys| - 1 else |keys|
  {
    if keys == [] {
    } else {
      WithoutDistinct(keys[1..], k);
      WithoutElements(keys[1..], k);
      var rest := Without(keys[1..], k);
      assert keys[0] !in rest;
      assert Distinct([keys[0]] + rest);
    }
  }

  lemma {:induction false} WithoutAppend<K(!new)>(a: seq<K>, b: seq<K>, k: K)
    ensures Without(a + b, k) == Without(a, k) + Without(b, k)
  {
    if a == [] {
      assert a + b == b;
    } else {
      assert (a + b)[1..] == a[1..] + b;
      WithoutAppend(a[1..], b, k);
    }
  }

  lemma {:induction false} RemoveKeys<K(!new), V>(cache: seq<(K, V)>, k: K)
    ensures Keys(Remove(cache, k)) == Without(Keys(cache), k)
  {
    if cache == [] {
    } else {
      RemoveKeys(cache[1..], k);
      assert Keys(cache) == [cache[0].0] + Keys(cache[1..]);
    }
  }

  lemma PutKeys<K(!new), V>(cache: seq<(K, V)>, capacity: nat, k: K, v: V)
    requires capacity > 0
    ensures Keys(Put(cache, capacity, k, v)) == Touch(Keys(cache), capacity, k)
  {
    RemoveKeys(cache, k);
  }

  lemma {:induction false} FindAppend<K(!new), V>(cache: seq<(K, V)>, entry: (K, V), k: K)
    ensures Find(cache + [entry], k)
            == if k in Keys(cache) then Find(cache, k) else if entry.0 == k then |cache| else |cache| + 1
  {
    if cache == [] {
    } else {
      assert (cache + [entry])[1..] == cache[1..] + [entry];
      assert Keys(cache) == [cache[0].0] + Keys(cache[1..]);
      FindAppend(cache[1..], entry, k);
    }
  }

  lemma {:induction false} LookupRemove<K(!new), V>(cache: seq<(K, V)>, k: K, other: K)
    requires k != other
    ensures Lookup(Remove(cache, k), other) == Lookup(cache, other)
  {
    if cache == [] {
    } else {
      LookupRemove(cache[1..], k, other);
      if cache[0].0 != k {
        assert Remove(cache, k) == [cache[0]] + Remove(cache[1..], k);
        assert Remove(cache, k)[1..] == Remove(cache[1..], k) && Remove(cache, k)[0] == cache[0];
      }
    }
  }

  /** A key just put is found with its new value. */
  lemma LookupPut<K(!new), V>(cache: seq<(K, V)>, capacity: nat, k: K, v: V)
    requires capacity > 0
    ensures Lookup(Put(cache, capacity, k, v), k) == Some(v)
  {
    var rest := Remove(cache, k);
    RemoveKeys(cache, k);
    WithoutElements(Keys(cache), k);
    var kept := if |rest| == capacity then rest[1..] else rest;
    assert k !in Keys(kept) by {
      assert forall i :: 0 <= i < |kept| ==> Keys(kept)[i] in Keys(rest);
    }
    FindAppend(kept, (k, v), k);
  }

  /** A put changes nothing for another key, as long as that key is not the one evicted. */
  lemma LookupPutOther<K(!new), V>(cache: seq<(K, V)>, capacity: nat, k: K, v: V, other: K)
    requires capacity > 0 && k != other && Distinct(Keys(cache))
    requires other in Keys(Put(cache, capacity, k, v)) || other !in Keys(cache)
    ensures Lookup(Put(cache, capacity, k, v), other) == Lookup(cache, other)
  {
    hide Remove, Without;
    var rest := Remove(cache, k);
    LookupRemove(cache, k, other);
    RemoveKeys(cache, k);
    WithoutElements(Keys(cache), k);
    WithoutDistinct(Keys(cache), k);
    var kept := if |rest| == capacity then rest[1..] else rest;
    FindAppend(kept, (k, v), other);
    FoundIff(rest, other);
    FoundIff(kept, other);
    assert Keys(kept + [(k, v)]) == Keys(kept) + [k];
    assert |rest| == capacity ==> Keys(rest) == [rest[0].0] + Keys(kept);
  }

  lemma {:induction false} SameFind<K(!new), V, W>(a: seq<(K, V)>, b: seq<(K, W)>, k: K)
    requires Keys(a) == Keys(b)
    ensures Find(a, k) == Find(b, k)
  {
    if a == [] {
    } else {
      assert Keys(a)[0] == Keys(b)[0];
      assert Keys(a[1..]) == Keys(a)[1..] == Keys(b)[1..] == Keys(b[1..]);
      SameFind(a[1..], b[1..], k);
    }
  }

  lemma {:induction false} RemoveAbsent<K(!new), V>(cache: seq<(K, V)>, k: K)
    requires forall i :: 0 <= i < |cache| ==> cache[i].0 != k
    ensures Remove(cache, k) == cache
  {
    if cache == [] {
    } else {
      RemoveAbsent(cache[1..], k);
    }
  }

  lemma {:induction false} RemoveAppend<K(!new), V>(a: seq<(K, V)>, b: seq<(K, V)>, k: K)
    ensures Remove(a + b, k) == Remove(a, k) + Remove(b, k)
  {
    if a == [] {
      assert a + b == b;
    } else {
      assert (a + b)[1..] == a[1..] + b;
      RemoveAppend(a[1..], b, k);
    }
  }

  lemma {:induction false} RemoveOne<K(!new), V>(entry: (K, V))
    ensures Remove([entry], entry.0) == []
  {
    assert [entry][1..] == [];
  }

  ghost predicate Absent<K, V>(cache: seq<(K, V)>, k: K) {
    forall i :: 0 <= i < |cache| ==> cache[i].0 != k
  }

  lemma {:induction false} RemoveBetween<K(!new), V>(before: seq<(K, V)>, entry: (K, V), after: seq<(K, V)>)
    requires Absent(before, entry.0) && Absent(after, entry.0)
    ensures Remove(before + ([entry] + after), entry.0) == before + after
  {
    hide Remove;
    RemoveAppend(before, [entry] + after, entry.0);
    RemoveAppend([entry], after, entry.0);
    RemoveOne(entry);
    RemoveAbsent(before, entry.0);
    RemoveAbsent(after, entry.0);
    assert [] + after == after;
  }

  lemma {:induction false} OnlyAt<K(!new), V>(cache: seq<(K, V)>, at: nat)
    requires Distinct(Keys(cache)) && at < |cache|
    ensures Absent(cache[..at], cache[at].0) && Absent(cache[at + 1..], cache[at].0)
  {
    assert forall i :: 0 <= i < |cache| ==> Keys(cache)[i] == cache[i].0;
  }

  lemma {:induction false} RemoveIsSlice<K(!new), V>(cache: seq<(K, V)>, k: K)
    requires Distinct(Keys(cache))
    ensures var at := Find(cache, k);
            Remove(cache, k) == if at < |cache| then cache[..at] + cache[at + 1..] else cache
  {
    hide Remove, Find, Absent, Distinct;
    var at := Find(cache, k);
    if at == |cache| {
      RemoveAbsent(cache, k);
    } else {
      OnlyAt(cache, at);
      RemoveBetween(cache[..at], cache[at], cache[at + 1..]);
      assert cache == cache[..at] + ([cache[at]] + cache[at + 1..]);
    }
  }

  /** Updating the entry just put is putting the updated entry. */
  lemma PutAgain<K(!new), V>(cache: seq<(K, V)>, capacity: nat, k: K, v: V, w: V)
    requires capacity > 0
    ensures var put := Put(cache, capacity, k, v);
            put != [] && put[|put| - 1] == (k, v) && put[|put| - 1 := (k, w)] == Put(cache, capacity, k, w)
  {
  }

  lemma {:induction false} FoundIff<K(!new), V>(cache: seq<(K, V)>, k: K)
    ensures k in Keys(cache) <==> Find(cache, k) < |cache|
  {
  }

  lemma DistinctSize<K(!new)>(keys: seq<K>)
    requires Distinct(keys)
    ensures |Elements(keys)| == |keys|
  {
    if keys == [] {
    } else {
      assert forall x :: x in keys <==> x == keys[0] || x in keys[1..];
      assert Elements(keys) == {keys[0]} + Elements(keys[1..]);
      DistinctSize(keys[1..]);
    }
  }

  // ---------------------------------------------------------------- recency

  lemma {:induction false} DistinctSnoc<K(!new)>(keys: seq<K>, k: K)
    requires Distinct(keys) && k !in keys
    ensures Distinct(keys + [k])
  {
  }

  lemma {:induction false} DistinctTail<K(!new)>(keys: seq<K>)
    requires Distinct(keys) && keys != []
    ensures Distinct(keys[1..]) && forall k :: k in keys[1..] ==> k in keys
  {
  }

  lemma {:induction false} RecencyIsDistinct<K(!new)>(history: seq<K>)
    ensures Distinct(Recency(history))
    ensures forall k :: k in Recency(history) <==> k in history
  {
    if history == [] {
    } else {
      var before, k := history[..|history| - 1], history[|history| - 1];
      RecencyIsDistinct(before);
      WithoutElements(Recency(before), k);
      WithoutDistinct(Recency(before), k);
      assert history == before + [k];
    }
  }

  lemma LastNOfAppend<K>(lost: seq<K>, kept: seq<K>, n: nat)
    requires lost == [] || |kept| >= n
    ensures LastN(lost + kept, n) == LastN(kept, n)
  {
    if lost == [] {
      assert lost + kept == kept;
    } else {
      assert (lost + kept)[|lost| + |kept| - n..] == kept[|kept| - n..];
    }
  }

  lemma {:induction false} DisjointParts<K(!new)>(lost: seq<K>, kept: seq<K>)
    requires Distinct(lost + kept)
    ensures Distinct(kept) && forall k :: k in kept ==> k !in lost
  {
    assert forall i :: 0 <= i < |kept| ==> kept[i] == (lost + kept)[|lost| + i];
    forall k | k in kept
      ensures k !in lost
    {
      var j :| 0 <= j < |kept| && kept[j] == k;
      assert (lost + kept)[|lost| + j] == k;
      assert forall i :: 0 <= i < |lost| ==> lost[i] == (lost + kept)[i];
    }
  }

  lemma {:induction false} TouchSplit<K(!new)>(lost: seq<K>, kept: seq<K>, capacity: nat, k: K)
    requires Distinct(lost + kept) && 0 < capacity
    requires |kept| <= capacity && (lost != [] ==> |kept| == capacity)
    ensures Touch(kept, capacity, k) == LastN(Without(lost + kept, k) + [k], capacity)
  {
    hide Distinct, Without;
    DisjointParts(lost, kept);
    WithoutAppend(lost, kept, k);
    WithoutElements(kept, k);
    WithoutElements(lost, k);
    WithoutDistinct(kept, k);
    assert Without(lost + kept, k) + [k] == Without(lost, k) + (Without(kept, k) + [k]);
    if lost == [] {
      assert Without(lost, k) == [];
    }
    LastNOfAppend(Without(lost, k), Without(kept, k) + [k], capacity);
  }

  lemma {:induction false} TouchOfLastN<K(!new)>(all: seq<K>, capacity: nat, k: K)
    requires Distinct(all) && capacity > 0
    ensures Touch(LastN(all, capacity), capacity, k) == LastN(Without(all, k) + [k], capacity)
  {
    var kept := LastN(all, capacity);
    var lost := all[..|all| - |kept|];
    assert all == lost + kept;
    TouchSplit(lost, kept, capacity, k);
  }

  /** The tracked keys are exactly the `capacity` most recently used ones, in recency order. */
  lemma {:induction false} TouchedIsMostRecent<K(!new)>(history: seq<K>, capacity: nat)
    requires capacity > 0
    ensures Touched(history, capacity) == LastN(Recency(history), capacity)
  {
    if history == [] {
    } else {
      var before := history[..|history| - 1];
      TouchedIsMostRecent(before, capacity);
      RecencyIsDistinct(before);
      TouchOfLastN(Recency(before), capacity, history[|history| - 1]);
    }
  }

  lemma {:induction false} AfterFacts<K(!new)>(keys: seq<K>, k: K)
    requires Distinct(keys) && k in keys
    ensures |After(keys, k)| < |keys|
    ensures After(keys, k) == keys[|keys| - |After(keys, k)|..]
    ensures keys[|keys| - |After(keys, k)| - 1] == k
  {
    if keys[0] == k {
    } else {
      AfterFacts(keys[1..], k);
    }
  }

  lemma {:induction false} AfterWithout<K(!new)>(keys: seq<K>, k: K, x: K)
    requires k in keys && k != x
    ensures After(Without(keys, x) + [x], k) == Without(After(keys, k), x) + [x]
  {
    WithoutElements(keys, x);
    if keys[0] == k {
      assert Without(keys, x) + [x] == [k] + (Without(keys[1..], x) + [x]);
    } else {
      AfterWithout(keys[1..], k, x);
      if keys[0] != x {
        assert Without(keys, x) + [x] == [keys[0]] + (Without(keys[1..], x) + [x]);
      }
    }
  }

  lemma {:induction false} AfterLast<K(!new)>(keys: seq<K>, k: K)
    requires k !in keys
    ensures After(keys + [k], k) == []
  {
    if keys == [] {
    } else {
      assert (keys + [k])[1..] == keys[1..] + [k];
      AfterLast(keys[1..], k);
    }
  }

  lemma {:induction false} TouchElements<K(!new)>(keys: seq<K>, k: K)
    ensures Elements(Without(keys, k) + [k]) == Elements(keys) + {k}
  {
    WithoutElements(keys, k);
    assert forall x :: x in Without(keys, k) + [k] <==> x in Without(keys, k) || x == k;
  }

  /** What makes `Recency` an order by last use: behind `k` stand exactly the keys used since. */
  lemma {:induction false} RecencyRanks<K(!new)>(history: seq<K>, k: K)
    requires k in history
    ensures k in Recency(history)
    ensures Elements(After(Recency(history), k)) == Since(history, k)
  {
    RecencyIsDistinct(history);
    var before, last := history[..|history| - 1], history[|history| - 1];
    assert history == before + [last];
    if last == k {
      WithoutElements(Recency(before), k);
      AfterLast(Without(Recency(before), k), k);
    } else {
      RecencyRanks(before, k);
      AfterWithout(Recency(before), k, last);
      TouchElements(After(Recency(before), k), last);
    }
  }

  lemma {:induction false} RankSize<K(!new)>(history: seq<K>, k: K)
    requires k in history
    ensures k in Recency(history) && |After(Recency(history), k)| == |Since(history, k)|
  {
    RecencyIsDistinct(history);
    RecencyRanks(history, k);
    AfterFacts(Recency(history), k);
    DistinctSize(After(Recency(history), k));
  }

  /** A key is tracked exactly while fewer than `capacity` other keys have been used since. */
  lemma {:induction false} TrackedIff<K(!new)>(history: seq<K>, capacity: nat, k: K)
    requires capacity > 0
    ensures k in Touched(history, capacity) <==> k in history && |Since(history, k)| < capacity
  {
    TouchedIsMostRecent(history, capacity);
    RecencyIsDistinct(history);
    var all := Recency(history);
    if k in history {
      RankSize(history, k);
      AfterFacts(all, k);
      var at := |all| - |Since(history, k)| - 1;
      assert forall i :: 0 <= i < |all| && all[i] == k ==> i == at;
      if |Since(history, k)| < capacity {
        var kept := LastN(all, capacity);
        assert kept[at - (|all| - |kept|)] == k;
      }
    }
  }
}
