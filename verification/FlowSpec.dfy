/** Bidirectional flows (`flow.rs`) as functions on values, and what every run of the flow table keeps. */
module FlowSpec {
  import opened Ints
  import opened Wrappers
  import opened PacketTypes
  import opened Lru

  datatype Endpoint = Endpoint(addr: IpAddr, port: u16)
  datatype FlowKey = FlowKey(a: Endpoint, b: Endpoint, proto: byte)
  datatype Direction = AtoB | BtoA

  // ---------------------------------------------------------------- keys

  /** The derived order on addresses: IPv4 before IPv6, then by octets. */
  predicate AddrLess(x: IpAddr, y: IpAddr) {
    match (x, y)
    case (V4(v), V4(w)) => v < w
    case (V4(_), V6(_)) => true
    case (V6(_), V4(_)) => false
    case (V6(v), V6(w)) => v < w
  }

  predicate EndpointLess(x: Endpoint, y: Endpoint) {
    AddrLess(x.addr, y.addr) || (x.addr == y.addr && x.port < y.port)
  }

  predicate KeyLess(x: FlowKey, y: FlowKey) {
    || EndpointLess(x.a, y.a)
    || (x.a == y.a && (EndpointLess(x.b, y.b) || (x.b == y.b && x.proto < y.proto)))
  }

  lemma KeyOrder(x: FlowKey, y: FlowKey, z: FlowKey)
    ensures x == y || KeyLess(x, y) || KeyLess(y, x)
    ensures !(KeyLess(x, y) && KeyLess(y, x)) && !KeyLess(x, x)
    ensures KeyLess(x, y) && KeyLess(y, z) ==> KeyLess(x, z)
  {
  }

  /** An address as numbers: its family, then its octets. */
  function AddrNumbers(a: IpAddr): seq<nat> {
    match a
    case V4(v) => [4, v]
    case V6(v) => [6, v]
  }

  function KeyNumbers(k: FlowKey): seq<nat> {
    AddrNumbers(k.a.addr) + [k.a.port] + AddrNumbers(k.b.addr) + [k.b.port] + [k.proto]
  }

  predicate LexLess(x: seq<nat>, y: seq<nat>)
    requires |x| == |y|
  {
    x != [] && (x[0] < y[0] || (x[0] == y[0] && LexLess(x[1..], y[1..])))
  }

  lemma {:induction false} LexUnfolds(x0: nat, x: seq<nat>, y0: nat, y: seq<nat>)
    requires |x| == |y|
    ensures LexLess([x0] + x, [y0] + y) <==> x0 < y0 || (x0 == y0 && LexLess(x, y))
  {
    assert ([x0] + x)[1..] == x && ([y0] + y)[1..] == y;
  }

  lemma LexEnds(x: nat, y: nat)
    ensures LexLess([x], [y]) <==> x < y
  {
    assert [x] == [x] + [] && [y] == [y] + [];
    LexUnfolds(x, [], y, []);
  }

  /** Keys compare field by field: first end, second end, protocol; and ends by family, octets, port. */
  lemma {:induction false} KeyLessIff(x: FlowKey, y: FlowKey)
    ensures KeyLess(x, y) <==> LexLess(KeyNumbers(x), KeyNumbers(y))
  {
    hide LexLess;
    var p, q := AddrNumbers(x.a.addr), AddrNumbers(y.a.addr);
    var r, s := AddrNumbers(x.b.addr), AddrNumbers(y.b.addr);
    assert KeyNumbers(x) == [p[0]] + ([p[1]] + ([x.a.port] + ([r[0]] + ([r[1]] + ([x.b.port] + [x.proto])))));
    assert KeyNumbers(y) == [q[0]] + ([q[1]] + ([y.a.port] + ([s[0]] + ([s[1]] + ([y.b.port] + [y.proto])))));
    LexEnds(x.proto, y.proto);
    LexUnfolds(x.b.port, [x.proto], y.b.port, [y.proto]);
    LexUnfolds(r[1], [x.b.port] + [x.proto], s[1], [y.b.port] + [y.proto]);
    LexUnfolds(r[0], [r[1]] + ([x.b.port] + [x.proto]), s[0], [s[1]] + ([y.b.port] + [y.proto]));
    var u, v := [r[0]] + ([r[1]] + ([x.b.port] + [x.proto])), [s[0]] + ([s[1]] + ([y.b.port] + [y.proto]));
    LexUnfolds(x.a.port, u, y.a.port, v);
    LexUnfolds(p[1], [x.a.port] + u, q[1], [y.a.port] + v);
    LexUnfolds(p[0], [p[1]] + ([x.a.port] + u), q[0], [q[1]] + ([y.a.port] + v));
  }

  /** The direction-independent key of a packet and the direction it travels in. */
  function Canonical(src: Endpoint, dst: Endpoint, proto: byte): (FlowKey, Direction) {
    if EndpointLess(dst, src) then (FlowKey(dst, src, proto), BtoA) else (FlowKey(src, dst, proto), AtoB)
  }

  /** Two packets share a flow exactly if they agree on the protocol and on the unordered pair of endpoints. */
  lemma SameFlowIff(src: Endpoint, dst: Endpoint, proto: byte, src': Endpoint, dst': Endpoint, proto': byte)
    ensures Canonical(src, dst, proto).0 == Canonical(src', dst', proto').0 <==>
            proto == proto' && ((src == src' && dst == dst') || (src == dst' && dst == src'))
    ensures src != dst ==> Canonical(src, dst, proto).1 != Canonical(dst, src, proto).1
  {
  }

  /** Key and direction together lose nothing: they give back who sent and who received. */
  lemma CanonicalKeepsSender(src: Endpoint, dst: Endpoint, proto: byte)
    ensures var (key, direction) := Canonical(src, dst, proto);
            key.proto == proto && (if direction == AtoB then (key.a, key.b) else (key.b, key.a)) == (src, dst)
  {
  }

  // ---------------------------------------------------------------- statistics

  datatype FlowStats = FlowStats(
    firstSeen: u64,
    lastSeen: u64,
    packetsAB: nat,
    packetsBA: nat,
    bytesAB: nat,
    bytesBA: nat,
    tcpFlags: byte
  ) {
    function TotalBytes(): nat {
      bytesAB + bytesBA
    }
  }

  datatype FlowUpdate = FlowUpdate(key: FlowKey, direction: Direction, ts: u64, bytes: u32, tcpFlags: byte)

  function OrFlags(a: byte, b: byte): byte {
    ((a as bv8) | (b as bv8)) as int
  }

  predicate HasBit(flags: bv8, mask: bv8) {
    flags & mask != 0
  }

  predicate HasFlag(flags: byte, mask: bv8) {
    HasBit(flags as bv8, mask)
  }

  lemma OrBits(a: bv8, b: bv8, mask: bv8)
    ensures HasBit(a | b, mask) <==> HasBit(a, mask) || HasBit(b, mask)
  {
  }

  lemma OrFlagsBits(a: byte, b: byte)
    ensures OrFlags(a, b) as bv8 == (a as bv8) | (b as bv8)
  {
  }

  lemma OrFlagsHas(a: byte, b: byte, mask: bv8)
    ensures HasFlag(OrFlags(a, b), mask) <==> HasFlag(a, mask) || HasFlag(b, mask)
  {
    hide OrFlags, HasBit;
    OrFlagsBits(a, b);
    OrBits(a as bv8, b as bv8, mask);
  }

  function FirstStats(u: FlowUpdate): FlowStats {
    if u.direction == AtoB then FlowStats(u.ts, u.ts, 1, 0, u.bytes, 0, u.tcpFlags)
    else FlowStats(u.ts, u.ts, 0, 1, 0, u.bytes, u.tcpFlags)
  }

  function NextStats(s: FlowStats, u: FlowUpdate): FlowStats {
    var seen := s.(lastSeen := Max(s.lastSeen, u.ts), tcpFlags := OrFlags(s.tcpFlags, u.tcpFlags));
    if u.direction == AtoB then seen.(packetsAB := s.packetsAB + 1, bytesAB := s.bytesAB + u.bytes)
    else seen.(packetsBA := s.packetsBA + 1, bytesBA := s.bytesBA + u.bytes)
  }

  // ---------------------------------------------------------------- the table

  type Flows = seq<(FlowKey, FlowStats)>

  datatype Limits = Limits(capacity: nat, idleTimeout: u64)
  datatype FlowState = FlowState(flows: Flows, evicted: nat, expired: nat)

  function Update(limits: Limits, st: FlowState, u: FlowUpdate): (FlowState, FlowStats)
    requires limits.capacity > 0
  {
    var found := Lookup(st.flows, u.key);
    var stats := if found.Some? then NextStats(found.value, u) else FirstStats(u);
    (FlowState(Put(st.flows, limits.capacity, u.key, stats),
               st.evicted + (if found.None? && |st.flows| == limits.capacity then 1 else 0),
               st.expired),
     stats)
  }

  predicate IsStale(limits: Limits, stats: FlowStats, now: u64) {
    stats.lastSeen + limits.idleTimeout <= now
  }

  /** The least recently touched flows, as long as they are stale, are dropped. */
  function DropStale(limits: Limits, flows: Flows, now: u64): Flows {
    if flows != [] && IsStale(limits, flows[0].1, now) then DropStale(limits, flows[1..], now) else flows
  }

  function Expire(limits: Limits, st: FlowState, now: u64): FlowState {
    var kept := DropStale(limits, st.flows, now);
    DropStaleIsSuffix(limits, st.flows, now);
    FlowState(kept, st.evicted, st.expired + (|st.flows| - |kept|))
  }

  lemma {:induction false} DropStaleIsSuffix(limits: Limits, flows: Flows, now: u64)
    ensures var kept := DropStale(limits, flows, now);
            var dropped := |flows| - |kept|;
            && 0 <= dropped && kept == flows[dropped..]
            && (forall i :: 0 <= i < dropped ==> IsStale(limits, flows[i].1, now))
            && (kept != [] ==> !IsStale(limits, kept[0].1, now))
  {
    if flows == [] || !IsStale(limits, flows[0].1, now) {
    } else {
      DropStaleIsSuffix(limits, flows[1..], now);
    }
  }

  /** Expiry keeps a flow whose last packet is less than the idle timeout ago, and removes none but such as are not. */
  lemma ExpireKeepsFresh(limits: Limits, st: FlowState, now: u64, i: nat)
    requires i < |st.flows|
    ensures st.flows[i].1.lastSeen + limits.idleTimeout > now ==> st.flows[i] in Expire(limits, st, now).flows
    ensures var gone := |st.flows| - |Expire(limits, st, now).flows|;
            && 0 <= gone && Expire(limits, st, now).flows == st.flows[gone..]
            && Expire(limits, st, now).expired == st.expired + gone && Expire(limits, st, now).evicted == st.evicted
            && (i < gone ==> st.flows[i].1.lastSeen + limits.idleTimeout <= now)
  {
    DropStaleIsSuffix(limits, st.flows, now);
    var kept := DropStale(limits, st.flows, now);
    if st.flows[i].1.lastSeen + limits.idleTimeout > now {
      assert kept[i - (|st.flows| - |kept|)] == st.flows[i];
    }
  }

  /** No flow past its timeout stands behind one that is not, in recency order. */
  ghost predicate StaleFirst(limits: Limits, flows: Flows, now: u64) {
    forall i, j :: 0 <= i < j < |flows| && flows[j].1.lastSeen + limits.idleTimeout <= now ==>
      flows[i].1.lastSeen + limits.idleTimeout <= now
  }

  ghost predicate AllFresh(limits: Limits, flows: Flows, now: u64) {
    forall i :: 0 <= i < |flows| ==> flows[i].1.lastSeen + limits.idleTimeout > now
  }

  /** Expiry leaves no stale flow behind exactly when recency order agrees with age. */
  lemma ExpireIsCompleteIff(limits: Limits, st: FlowState, now: u64)
    ensures AllFresh(limits, Expire(limits, st, now).flows, now) <==> StaleFirst(limits, st.flows, now)
  {
    DropStaleIsSuffix(limits, st.flows, now);
    var kept := DropStale(limits, st.flows, now);
    var dropped := |st.flows| - |kept|;
    if StaleFirst(limits, st.flows, now) {
      forall i | 0 <= i < |kept|
        ensures kept[i].1.lastSeen + limits.idleTimeout > now
      {
        assert kept[0] == st.flows[dropped] && kept[i] == st.flows[dropped + i];
      }
    }
    if AllFresh(limits, kept, now) {
      forall j | dropped <= j < |st.flows|
        ensures st.flows[j].1.lastSeen + limits.idleTimeout > now
      {
        assert kept[j - dropped] == st.flows[j];
      }
    }
  }

  // ---------------------------------------------------------------- runs

  datatype FlowOp = Touch(update: FlowUpdate) | Sweep(now: u64)

  /** A table together with everything that ever left it. */
  datatype Ledger = Ledger(state: FlowState, removed: Flows, created: nat)

  function RemovedBy(limits: Limits, st: FlowState, op: FlowOp): Flows {
    match op
    case Touch(u) =>
      if Lookup(st.flows, u.key).None? && |st.flows| == limits.capacity && st.flows != [] then [st.flows[0]] else []
    case Sweep(now) =>
      DropStaleIsSuffix(limits, st.flows, now);
      st.flows[..|st.flows| - |DropStale(limits, st.flows, now)|]
  }

  function Apply(limits: Limits, st: FlowState, op: FlowOp): FlowState
    requires limits.capacity > 0
  {
    match op
    case Touch(u) => Update(limits, st, u).0
    case Sweep(now) => Expire(limits, st, now)
  }

  function RunTable(limits: Limits, ops: seq<FlowOp>): Ledger
    requires limits.capacity > 0
  {
    if ops == [] then Ledger(FlowState([], 0, 0), [], 0)
    else
      var before, op := RunTable(limits, ops[..|ops| - 1]), ops[|ops| - 1];
      Ledger(Apply(limits, before.state, op),
             before.removed + RemovedBy(limits, before.state, op),
             before.created + if op.Touch? && Lookup(before.state.flows, op.update.key).None? then 1 else 0)
  }

  /** What is counted: packets or bytes, in one direction. */
  datatype Measure = Packets(direction: Direction) | Bytes(direction: Direction)

  function OfStats(m: Measure, s: FlowStats): nat {
    match m
    case Packets(AtoB) => s.packetsAB
    case Packets(BtoA) => s.packetsBA
    case Bytes(AtoB) => s.bytesAB
    case Bytes(BtoA) => s.bytesBA
  }

  function OfUpdate(m: Measure, u: FlowUpdate): nat {
    if u.direction != m.direction then 0 else if m.Packets? then 1 else u.bytes
  }

  function Sum(m: Measure, flows: Flows): nat {
    if flows == [] then 0 else OfStats(m, flows[0].1) + Sum(m, flows[1..])
  }

  function SumUpdates(m: Measure, ops: seq<FlowOp>): nat {
    if ops == [] then 0
    else
      var op := ops[|ops| - 1];
      SumUpdates(m, ops[..|ops| - 1]) + if op.Touch? then OfUpdate(m, op.update) else 0
  }

  ghost predicate WellFormed(limits: Limits, ledger: Ledger) {
    && Distinct(Keys(ledger.state.flows))
    && |ledger.state.flows| <= limits.capacity
    && |ledger.removed| == ledger.state.evicted + ledger.state.expired
    && ledger.created == |ledger.state.flows| + ledger.state.evicted + ledger.state.expired
    && AllOrdered(ledger.state.flows) && AllOrdered(ledger.removed)
  }

  ghost predicate AllOrdered(flows: Flows) {
    forall i :: 0 <= i < |flows| ==> flows[i].1.firstSeen <= flows[i].1.lastSeen
  }

  // ---------------------------------------------------------------- sums

  lemma {:induction false} SumAppend(m: Measure, a: Flows, b: Flows)
    ensures Sum(m, a + b) == Sum(m, a) + Sum(m, b)
  {
    if a == [] {
      assert a + b == b;
    } else {
      assert (a + b)[1..] == a[1..] + b;
      SumAppend(m, a[1..], b);
    }
  }

  lemma {:induction false} SumOne(m: Measure, entry: (FlowKey, FlowStats))
    ensures Sum(m, [entry]) == OfStats(m, entry.1)
  {
    assert Sum(m, [entry][1..]) == 0;
  }

  lemma {:induction false} SumRemove(m: Measure, flows: Flows, k: FlowKey)
    requires Distinct(Keys(flows))
    ensures var found := Lookup(flows, k);
            && Sum(m, Remove(flows, k)) == Sum(m, flows) - (if found.Some? then OfStats(m, found.value) else 0)
            && (found.None? ==> Remove(flows, k) == flows)
            && (found.Some? ==> |Remove(flows, k)| == |flows| - 1)
  {
    hide Remove, Find, OfStats, Sum, Distinct;
    RemoveIsSlice(flows, k);
    var at := Find(flows, k);
    if at < |flows| {
      assert flows == flows[..at] + ([flows[at]] + flows[at + 1..]);
      SumAppend(m, flows[..at], [flows[at]] + flows[at + 1..]);
      SumAppend(m, [flows[at]], flows[at + 1..]);
      SumAppend(m, flows[..at], flows[at + 1..]);
      SumOne(m, flows[at]);
    }
  }

  /** A put with eviction moves value only between the table, the evicted entry and the new value. */
  lemma {:induction false} SumPut(m: Measure, flows: Flows, capacity: nat, k: FlowKey, s: FlowStats)
    requires capacity > 0 && Distinct(Keys(flows)) && |flows| <= capacity
    ensures var found := Lookup(flows, k);
            Sum(m, Put(flows, capacity, k, s)) + (if found.None? && |flows| == capacity then OfStats(m, flows[0].1) else 0)
            == Sum(m, flows) - (if found.Some? then OfStats(m, found.value) else 0) + OfStats(m, s)
  {
    hide Remove, Lookup, OfStats, Distinct;
    SumRemove(m, flows, k);
    SumOne(m, (k, s));
    var rest := Remove(flows, k);
    SumAppend(m, if |rest| == capacity then rest[1..] else rest, [(k, s)]);
  }

  lemma LookupMember(flows: Flows, k: FlowKey)
    requires Lookup(flows, k).Some?
    ensures exists i :: 0 <= i < |flows| && flows[i] == (k, Lookup(flows, k).value)
  {
    assert flows[Find(flows, k)] == (k, Lookup(flows, k).value);
  }

  lemma PutKeepsOrder(flows: Flows, capacity: nat, k: FlowKey, s: FlowStats)
    requires capacity > 0 && Distinct(Keys(flows)) && |flows| <= capacity
    requires AllOrdered(flows) && s.firstSeen <= s.lastSeen
    ensures AllOrdered(Put(flows, capacity, k, s))
  {
    RemoveIsSlice(flows, k);
  }

  lemma PutSize(flows: Flows, capacity: nat, k: FlowKey, s: FlowStats)
    requires capacity > 0 && Distinct(Keys(flows)) && |flows| <= capacity
    ensures var put := Put(flows, capacity, k, s);
            && Distinct(Keys(put)) && |put| <= capacity
            && |put| == if Lookup(flows, k).Some? || |flows| == capacity then |flows| else |flows| + 1
  {
    hide Distinct, Without, Remove, Find;
    PutKeys(flows, capacity, k, s);
    RemoveKeys(flows, k);
    WithoutDistinct(Keys(flows), k);
    WithoutElements(Keys(flows), k);
    FoundIff(flows, k);
    var rest := Without(Keys(flows), k);
    if |rest| == capacity {
      DistinctTail(rest);
      DistinctSnoc(rest[1..], k);
    } else {
      DistinctSnoc(rest, k);
    }
  }

  ghost predicate Balanced(limits: Limits, st: FlowState, op: FlowOp, m: Measure)
    requires limits.capacity > 0
  {
    var after, gone := Apply(limits, st, op), RemovedBy(limits, st, op);
    && Distinct(Keys(after.flows)) && |after.flows| <= limits.capacity
    && |gone| == (after.evicted + after.expired) - (st.evicted + st.expired)
    && |after.flows| + |gone| == |st.flows| + (if op.Touch? && Lookup(st.flows, op.update.key).None? then 1 else 0)
    && Sum(m, after.flows) + Sum(m, gone) == Sum(m, st.flows) + if op.Touch? then OfUpdate(m, op.update) else 0
  }

  lemma NextValue(m: Measure, s: FlowStats, u: FlowUpdate)
    ensures OfStats(m, NextStats(s, u)) == OfStats(m, s) + OfUpdate(m, u)
    ensures OfStats(m, FirstStats(u)) == OfUpdate(m, u)
  {
    hide OrFlags;
  }

  lemma {:induction false} TouchBalances(limits: Limits, st: FlowState, u: FlowUpdate, m: Measure)
    requires limits.capacity > 0 && Distinct(Keys(st.flows)) && |st.flows| <= limits.capacity
    ensures Balanced(limits, st, Touch(u), m)
  {
    hide Put, Find, OfStats, OfUpdate, NextStats, FirstStats, Distinct;
    var found := Lookup(st.flows, u.key);
    var s := if found.Some? then NextStats(found.value, u) else FirstStats(u);
    SumPut(m, st.flows, limits.capacity, u.key, s);
    PutSize(st.flows, limits.capacity, u.key, s);
    NextValue(m, if found.Some? then found.value else s, u);
    if st.flows != [] {
      SumOne(m, st.flows[0]);
    }
  }

  lemma {:induction false} SweepBalances(limits: Limits, st: FlowState, now: u64, m: Measure)
    requires limits.capacity > 0 && Distinct(Keys(st.flows)) && |st.flows| <= limits.capacity
    ensures Balanced(limits, st, Sweep(now), m)
  {
    hide DropStale, OfStats, Distinct, Sum;
    DropStaleIsSuffix(limits, st.flows, now);
    var kept := DropStale(limits, st.flows, now);
    var gone := st.flows[..|st.flows| - |kept|];
    assert st.flows == gone + kept;
    SumAppend(m, gone, kept);
    SuffixDistinct(st.flows, |gone|);
  }

  /** One step keeps the books. */
  lemma {:induction false} StepBalances(limits: Limits, st: FlowState, op: FlowOp, m: Measure)
    requires limits.capacity > 0 && Distinct(Keys(st.flows)) && |st.flows| <= limits.capacity
    ensures Balanced(limits, st, op, m)
  {
    hide Balanced;
    match op
    case Touch(u) => TouchBalances(limits, st, u, m);
    case Sweep(now) => SweepBalances(limits, st, now, m);
  }

  lemma SuffixDistinct(flows: Flows, n: nat)
    requires n <= |flows| && Distinct(Keys(flows))
    ensures Distinct(Keys(flows[n..]))
  {
    assert Keys(flows[n..]) == Keys(flows)[n..];
  }

  lemma StepKeepsOrder(limits: Limits, st: FlowState, op: FlowOp)
    requires limits.capacity > 0 && Distinct(Keys(st.flows)) && |st.flows| <= limits.capacity && AllOrdered(st.flows)
    ensures AllOrdered(Apply(limits, st, op).flows) && AllOrdered(RemovedBy(limits, st, op))
  {
    match op
    case Touch(u) =>
      var found := Lookup(st.flows, u.key);
      var s := if found.Some? then NextStats(found.value, u) else FirstStats(u);
      hide Put, OrFlags;
      PutKeepsOrder(st.flows, limits.capacity, u.key, s);
    case Sweep(now) =>
      DropStaleIsSuffix(limits, st.flows, now);
  }

  /**
   * After every run: every flow ever created is live, evicted or expired; the table respects its capacity; and the
   * packets and bytes of all updates, in each direction, are exactly those of the live and the removed flows.
   */
  lemma {:induction false} FlowsAreConserved(limits: Limits, ops: seq<FlowOp>, m: Measure)
    requires limits.capacity > 0
    ensures WellFormed(limits, RunTable(limits, ops))
    ensures Sum(m, RunTable(limits, ops).state.flows) + Sum(m, RunTable(limits, ops).removed) == SumUpdates(m, ops)
  {
    hide Apply, RemovedBy, Distinct, AllOrdered;
    if ops != [] {
      var n := |ops| - 1;
      FlowsAreConserved(limits, ops[..n], m);
      var before := RunTable(limits, ops[..n]);
      StepBalances(limits, before.state, ops[n], m);
      StepKeepsOrder(limits, before.state, ops[n]);
      SumAppend(m, before.removed, RemovedBy(limits, before.state, ops[n]));
      OrderedAppend(before.removed, RemovedBy(limits, before.state, ops[n]));
    } else {
      EmptyBooks();
    }
  }

  lemma OrderedAppend(a: Flows, b: Flows)
    requires AllOrdered(a) && AllOrdered(b)
    ensures AllOrdered(a + b)
  {
  }

  lemma EmptyBooks()
    ensures Distinct(Keys<FlowKey, FlowStats>([])) && AllOrdered([])
  {
  }

  // ---------------------------------------------------------------- one flow

  /** The updates of a flow since it was last created. */
  function UpdatesOf(limits: Limits, ops: seq<FlowOp>, k: FlowKey): seq<FlowUpdate>
    requires limits.capacity > 0
  {
    if ops == [] then []
    else
      var before, op := ops[..|ops| - 1], ops[|ops| - 1];
      var earlier := UpdatesOf(limits, before, k);
      if op.Sweep? || op.update.key != k then earlier
      else if Lookup(RunTable(limits, before).state.flows, k).Some? then earlier + [op.update]
      else [op.update]
  }

  /** What a list of updates amounts to: counts and byte sums per direction, first and latest time, all flags. */
  function Aggregate(updates: seq<FlowUpdate>): FlowStats
    requires updates != []
  {
    var u := updates[|updates| - 1];
    if |updates| == 1 then FirstStats(u) else NextStats(Aggregate(updates[..|updates| - 1]), u)
  }

  function SumOf(m: Measure, updates: seq<FlowUpdate>): nat {
    if updates == [] then 0 else SumOf(m, updates[..|updates| - 1]) + OfUpdate(m, updates[|updates| - 1])
  }

  lemma {:induction false} AggregateTotals(updates: seq<FlowUpdate>, m: Measure)
    requires updates != []
    ensures OfStats(m, Aggregate(updates)) == SumOf(m, updates)
  {
    hide OfStats, OfUpdate, NextStats, FirstStats;
    var n := |updates| - 1;
    NextValue(m, FirstStats(updates[n]), updates[n]);
    if n == 0 {
      assert SumOf(m, updates[..0]) == 0;
    } else {
      AggregateTotals(updates[..n], m);
      NextValue(m, Aggregate(updates[..n]), updates[n]);
    }
  }

  lemma {:induction false} AggregateTimes(updates: seq<FlowUpdate>)
    requires updates != []
    ensures Aggregate(updates).firstSeen == updates[0].ts
    ensures forall i :: 0 <= i < |updates| ==> updates[i].ts <= Aggregate(updates).lastSeen
    ensures exists i :: 0 <= i < |updates| && updates[i].ts == Aggregate(updates).lastSeen
  {
    hide OrFlags;
    var n := |updates| - 1;
    if n == 0 {
    } else {
      var before := updates[..n];
      AggregateTimes(before);
      assert forall i :: 0 <= i < n ==> before[i] == updates[i];
      var i :| 0 <= i < n && before[i].ts == Aggregate(before).lastSeen;
      assert updates[i].ts == Aggregate(before).lastSeen;
    }
  }

  /** The aggregate holds the totals of each direction, the first time, and the latest. */
  lemma {:induction false} AggregateMeaning(updates: seq<FlowUpdate>, m: Measure)
    requires updates != []
    ensures OfStats(m, Aggregate(updates)) == SumOf(m, updates)
    ensures Aggregate(updates).firstSeen == updates[0].ts
    ensures forall i :: 0 <= i < |updates| ==> updates[i].ts <= Aggregate(updates).lastSeen
    ensures exists i :: 0 <= i < |updates| && updates[i].ts == Aggregate(updates).lastSeen
  {
    hide Aggregate, OfStats, SumOf;
    AggregateTotals(updates, m);
    AggregateTimes(updates);
  }

  /** A TCP flag is set in the aggregate exactly if some update has it. */
  lemma {:induction false} AggregateFlags(updates: seq<FlowUpdate>, mask: bv8)
    requires updates != []
    ensures HasFlag(Aggregate(updates).tcpFlags, mask) <==> exists i :: 0 <= i < |updates| && HasFlag(updates[i].tcpFlags, mask)
  {
    hide HasFlag, OrFlags;
    var n := |updates| - 1;
    if n == 0 {
    } else {
      var before := updates[..n];
      AggregateFlags(before, mask);
      OrFlagsHas(Aggregate(before).tcpFlags, updates[n].tcpFlags, mask);
      assert forall i :: 0 <= i < n ==> before[i] == updates[i];
    }
  }

  /** What the table holds for a flow: the aggregate of its updates since it was created. */
  ghost predicate IsExact(limits: Limits, ops: seq<FlowOp>, k: FlowKey)
    requires limits.capacity > 0
  {
    Lookup(RunTable(limits, ops).state.flows, k).Some? ==>
      UpdatesOf(limits, ops, k) != []
      && Lookup(RunTable(limits, ops).state.flows, k) == Some(Aggregate(UpdatesOf(limits, ops, k)))
  }

  lemma {:induction false} OwnTouchIsExact(limits: Limits, before: seq<FlowOp>, u: FlowUpdate)
    requires limits.capacity > 0 && IsExact(limits, before, u.key)
    ensures IsExact(limits, before + [Touch(u)], u.key)
  {
    hide Put, Find, FirstStats, NextStats;
    assert (before + [Touch(u)])[..|before|] == before;
    var flows := RunTable(limits, before).state.flows;
    var found := Lookup(flows, u.key);
    LookupPut(flows, limits.capacity, u.key, if found.Some? then NextStats(found.value, u) else FirstStats(u));
    if found.Some? {
      AggregateSnoc(UpdatesOf(limits, before, u.key), u);
    }
  }

  lemma {:induction false} OtherTouchIsExact(limits: Limits, before: seq<FlowOp>, u: FlowUpdate, k: FlowKey)
    requires limits.capacity > 0 && IsExact(limits, before, k) && u.key != k
    requires Distinct(Keys(RunTable(limits, before).state.flows))
    ensures IsExact(limits, before + [Touch(u)], k)
  {
    hide Put, Find, FirstStats, NextStats, Aggregate, Distinct;
    assert (before + [Touch(u)])[..|before|] == before;
    var flows := RunTable(limits, before).state.flows;
    var found := Lookup(flows, u.key);
    var s := if found.Some? then NextStats(found.value, u) else FirstStats(u);
    FoundIff(Put(flows, limits.capacity, u.key, s), k);
    if Lookup(Put(flows, limits.capacity, u.key, s), k).Some? {
      LookupPutOther(flows, limits.capacity, u.key, s, k);
    }
  }

  lemma {:induction false} SweepIsExact(limits: Limits, before: seq<FlowOp>, now: u64, k: FlowKey)
    requires limits.capacity > 0 && IsExact(limits, before, k)
    requires Distinct(Keys(RunTable(limits, before).state.flows))
    ensures IsExact(limits, before + [Sweep(now)], k)
  {
    hide DropStale, Lookup, Aggregate, Distinct;
    assert (before + [Sweep(now)])[..|before|] == before;
    var flows := RunTable(limits, before).state.flows;
    DropStaleIsSuffix(limits, flows, now);
    var n := |flows| - |DropStale(limits, flows, now)|;
    if Lookup(flows[n..], k).Some? {
      LookupSuffix(flows, n, k);
    }
  }

  lemma {:induction false} KeysStayDistinct(limits: Limits, ops: seq<FlowOp>)
    requires limits.capacity > 0
    ensures Distinct(Keys(RunTable(limits, ops).state.flows))
  {
    hide RunTable, Distinct, AllOrdered;
    FlowsAreConserved(limits, ops, Packets(AtoB));
  }

  lemma {:induction false} RunIsExact(limits: Limits, ops: seq<FlowOp>, k: FlowKey)
    requires limits.capacity > 0
    ensures IsExact(limits, ops, k)
  {
    hide IsExact, Distinct, RunTable;
    if ops == [] {
      NothingIsExact(limits, k);
    } else {
      var n := |ops| - 1;
      RunIsExact(limits, ops[..n], k);
      KeysStayDistinct(limits, ops[..n]);
      assert ops == ops[..n] + [ops[n]];
      match ops[n]
      case Touch(u) =>
        if u.key == k {
          OwnTouchIsExact(limits, ops[..n], u);
        } else {
          OtherTouchIsExact(limits, ops[..n], u, k);
        }
      case Sweep(now) => SweepIsExact(limits, ops[..n], now, k);
    }
  }

  lemma {:induction false} NothingIsExact(limits: Limits, k: FlowKey)
    requires limits.capacity > 0
    ensures IsExact(limits, [], k)
  {
  }

  /** A live flow's statistics are exactly the aggregate of its updates since it was created. */
  lemma {:induction false} LiveFlowIsExact(limits: Limits, ops: seq<FlowOp>, k: FlowKey)
    requires limits.capacity > 0 && Lookup(RunTable(limits, ops).state.flows, k).Some?
    ensures UpdatesOf(limits, ops, k) != []
    ensures Lookup(RunTable(limits, ops).state.flows, k) == Some(Aggregate(UpdatesOf(limits, ops, k)))
  {
    hide RunTable, UpdatesOf, Aggregate;
    RunIsExact(limits, ops, k);
  }

  lemma {:induction false} AggregateSnoc(updates: seq<FlowUpdate>, u: FlowUpdate)
    requires updates != []
    ensures Aggregate(updates + [u]) == NextStats(Aggregate(updates), u)
  {
    assert (updates + [u])[..|updates|] == updates;
  }

  lemma {:induction false} LookupSuffix(flows: Flows, n: nat, k: FlowKey)
    requires n <= |flows| && Distinct(Keys(flows)) && Lookup(flows[n..], k).Some?
    ensures Lookup(flows, k) == Lookup(flows[n..], k)
  {
    hide Find;
    var at, first := Find(flows[n..], k), Find(flows, k);
    assert flows[n + at] == flows[n..][at];
    assert Keys(flows)[n + at] == k && Keys(flows)[first] == k;
  }
}
