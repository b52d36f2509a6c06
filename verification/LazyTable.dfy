/**
 The mux's bounded, lazily expired tables, and the history they stand for. A table deletes expired entries
 only when it happens to look at them; the specification never mentions deletion, only when each key was
 last accepted.
 */
module LazyTable {
  import opened Text
  import opened Wrappers

  datatype Entry<V> = Entry(value: V, seen: int)

  type Table<V> = map<string, Entry<V>>

  /** The idle timeout may depend on what is stored. */
  datatype Policy<!V> = Policy(timeout: V -> int, capacity: nat)

  // ---------------------------------------------------------------- the tables as the code keeps them

  predicate Fresh<V>(e: Entry<V>, now: int, policy: Policy<V>) {
    now - e.seen <= policy.timeout(e.value)
  }

  function Expire<V>(t: Table<V>, now: int, policy: Policy<V>): Table<V> {
    map k | k in t && Fresh(t[k], now, policy) :: t[k]
  }

  /** `addFlow` and `putFragment`. */
  function Add<V>(t: Table<V>, key: string, value: V, now: int, policy: Policy<V>): (Table<V>, bool) {
    if key == "" then (t, false)
    else
      var e := Expire(t, now, policy);
      if |e| >= policy.capacity then (e, false) else (e[key := Entry(value, now)], true)
  }

  function Renewed<V>(renew: Option<V>, prior: V): V {
    match renew
    case None => prior
    case Some(v) => v
  }

  /** `touchFlow` and `getFragment`: the age is read at `at`, the new time stamp at `stored`. A touched flow stores
      the packet's protocol, a touched fragment keeps its value. */
  function Touch<V>(t: Table<V>, key: string, renew: Option<V>, at: int, stored: int,
                    policy: Policy<V>): (Table<V>, bool)
  {
    if key == "" then (t, false)
    else if key !in t || !Fresh(t[key], at, policy) then (t - {key}, false)
    else (t[key := Entry(Renewed(renew, t[key].value), stored)], true)
  }

  /** The prefix test of `purgeProfiles`. */
  predicate Purges(removed: set<string>, key: string) {
    exists id :: id in removed && HasPrefix(key, id + ['/'])
  }

  /** What `purgeProfiles` leaves of a table. */
  function Forget<V>(t: Table<V>, removed: set<string>): Table<V> {
    map k | k in t && !Purges(removed, k) :: t[k]
  }

  // ---------------------------------------------------------------- the history specification

  datatype TableEvent<V> = Accepted(key: string, value: V, at: int) | Withdrawn(removed: set<string>)

  /** The last acceptance of a key that no withdrawal has covered since. */
  function LastSeen<V>(h: seq<TableEvent<V>>, key: string): Option<Entry<V>> {
    if |h| == 0 then None
    else
      match h[|h| - 1]
      case Accepted(k, v, at) => if k == key then Some(Entry(v, at)) else LastSeen(h[..|h| - 1], key)
      case Withdrawn(removed) => if Purges(removed, key) then None else LastSeen(h[..|h| - 1], key)
  }

  predicate Live<V>(h: seq<TableEvent<V>>, key: string, now: int, policy: Policy<V>) {
    LastSeen(h, key).Some? && Fresh(LastSeen(h, key).value, now, policy)
  }

  function Mentioned<V>(h: seq<TableEvent<V>>): set<string> {
    set i | 0 <= i < |h| && h[i].Accepted? :: h[i].key
  }

  function LiveKeys<V>(h: seq<TableEvent<V>>, now: int, policy: Policy<V>): set<string> {
    set k | k in Mentioned(h) && Live(h, k, now, policy)
  }

  datatype Op<V> =
    | AddOp(key: string, value: V, now: int)
    | TouchOp(key: string, renew: Option<V>, at: int, stored: int)
    | ForgetOp(removed: set<string>)

  function TableStep<V>(t: Table<V>, op: Op<V>, policy: Policy<V>): (Table<V>, bool) {
    match op
    case AddOp(k, v, now) => Add(t, k, v, now, policy)
    case TouchOp(k, renew, at, stored) => Touch(t, k, renew, at, stored, policy)
    case ForgetOp(removed) => (Forget(t, removed), true)
  }

  /** An addition succeeds unless as many keys as the capacity are live; a touch, when its own key is live. */
  function SpecStep<V>(h: seq<TableEvent<V>>, op: Op<V>, policy: Policy<V>): (seq<TableEvent<V>>, bool) {
    match op
    case AddOp(k, v, now) =>
      if k != "" && |LiveKeys(h, now, policy)| < policy.capacity then (h + [Accepted(k, v, now)], true) else (h, false)
    case TouchOp(k, renew, at, stored) =>
      if k != "" && Live(h, k, at, policy)
          then (h + [Accepted(k, Renewed(renew, LastSeen(h, k).value.value), stored)], true)
      else (h, false)
    case ForgetOp(removed) => (h + [Withdrawn(removed)], true)
  }

  // ---------------------------------------------------------------- refinement of one step

  /** Every entry is its key's last acceptance, and every live key has an entry. */
  ghost predicate Refines<V>(t: Table<V>, h: seq<TableEvent<V>>, now: int, policy: Policy<V>) {
    && (forall k :: k in t ==> k != "" && LastSeen(h, k) == Some(t[k]))
    && (forall k :: Live(h, k, now, policy) ==> k in t)
  }

  function OpStart<V>(op: Op<V>, clock: int): int {
    match op
    case AddOp(_, _, now) => now
    case TouchOp(_, _, at, _) => at
    case ForgetOp(_) => clock
  }

  function OpEnd<V>(op: Op<V>, clock: int): int {
    match op
    case AddOp(_, _, now) => now
    case TouchOp(_, _, _, stored) => stored
    case ForgetOp(_) => clock
  }

  predicate Monotone<V>(op: Op<V>, clock: int) {
    clock <= OpStart(op, clock) <= OpEnd(op, clock)
  }

  function Afterwards<V>(e: TableEvent<V>, key: string, before: Option<Entry<V>>): Option<Entry<V>> {
    match e
    case Accepted(k, v, at) => if k == key then Some(Entry(v, at)) else before
    case Withdrawn(removed) => if Purges(removed, key) then None else before
  }

  lemma LastSeenAfter<V>(h: seq<TableEvent<V>>, e: TableEvent<V>)
    ensures forall k :: LastSeen(h + [e], k) == Afterwards(e, k, LastSeen(h, k))
  {
    var g := h + [e];
    assert g[..|g| - 1] == h && g[|g| - 1] == e;
  }

  lemma {:induction false} LastSeenMentioned<V>(h: seq<TableEvent<V>>, key: string)
    requires LastSeen(h, key).Some?
    ensures key in Mentioned(h)
  {
    var last := h[|h| - 1];
    if last.Accepted? && last.key == key {
      assert h[|h| - 1].key in Mentioned(h);
    } else {
      var g := h[..|h| - 1];
      LastSeenMentioned(g, key);
      var i :| 0 <= i < |g| && g[i].Accepted? && g[i].key == key;
      assert h[i] == g[i];
    }
  }

  lemma ExpireIsLive<V>(t: Table<V>, h: seq<TableEvent<V>>, clock: int, now: int, policy: Policy<V>)
    requires Refines(t, h, clock, policy) && clock <= now
    ensures Expire(t, now, policy).Keys == LiveKeys(h, now, policy)
    ensures |Expire(t, now, policy)| == |LiveKeys(h, now, policy)|
  {
    forall k ensures k in Expire(t, now, policy) <==> k in LiveKeys(h, now, policy) {
      if k in LiveKeys(h, now, policy) {
        assert Live(h, k, clock, policy);
      }
      if k in Expire(t, now, policy) {
        LastSeenMentioned(h, k);
      }
    }
    assert |Expire(t, now, policy)| == |Expire(t, now, policy).Keys|;
  }

  /** What is not live does not become live again by waiting. */
  lemma LiveEarlier<V>(h: seq<TableEvent<V>>, earlier: int, now: int, policy: Policy<V>)
    requires earlier <= now
    ensures forall k :: Live(h, k, now, policy) ==> Live(h, k, earlier, policy)
  {
  }

  lemma AddRefines<V>(t: Table<V>, h: seq<TableEvent<V>>, clock: int, k: string, v: V, now: int, policy: Policy<V>)
    requires Refines(t, h, clock, policy) && clock <= now
    ensures var (t2, ok) := Add(t, k, v, now, policy);
            var (h2, specOk) := SpecStep(h, AddOp(k, v, now), policy);
            ok == specOk && Refines(t2, h2, now, policy)
  {
    ExpireIsLive(t, h, clock, now, policy);
    LastSeenAfter(h, Accepted(k, v, now));
    LiveEarlier(h, clock, now, policy);
  }

  lemma TouchRefines<V>(t: Table<V>, h: seq<TableEvent<V>>, clock: int, k: string, renew: Option<V>, at: int,
                        stored: int, policy: Policy<V>)
    requires Refines(t, h, clock, policy) && clock <= at <= stored
    ensures var (t2, ok) := Touch(t, k, renew, at, stored, policy);
            var (h2, specOk) := SpecStep(h, TouchOp(k, renew, at, stored), policy);
            ok == specOk && Refines(t2, h2, stored, policy)
  {
    LiveEarlier(h, clock, at, policy);
    LiveEarlier(h, at, stored, policy);
    assert Live(h, k, at, policy) ==> k in t && LastSeen(h, k) == Some(t[k]);
    if k != "" && Live(h, k, at, policy) {
      LastSeenAfter(h, Accepted(k, Renewed(renew, LastSeen(h, k).value.value), stored));
    }
  }

  lemma ForgetRefines<V>(t: Table<V>, h: seq<TableEvent<V>>, clock: int, removed: set<string>, policy: Policy<V>)
    requires Refines(t, h, clock, policy)
    ensures Refines(Forget(t, removed), h + [Withdrawn(removed)], clock, policy)
  {
    hide Purges;
    LastSeenAfter(h, Withdrawn(removed));
  }

  /** One operation, from corresponding states under a clock that does not run back. */
  lemma StepRefines<V>(t: Table<V>, h: seq<TableEvent<V>>, clock: int, op: Op<V>, policy: Policy<V>)
    requires Refines(t, h, clock, policy) && Monotone(op, clock)
    ensures TableStep(t, op, policy).1 == SpecStep(h, op, policy).1
    ensures Refines(TableStep(t, op, policy).0, SpecStep(h, op, policy).0, OpEnd(op, clock), policy)
  {
    hide Refines, Live, LiveKeys, Fresh, Forget, LastSeen;
    match op
    case AddOp(k, v, now) =>
      AddRefines(t, h, clock, k, v, now, policy);
    case TouchOp(k, renew, at, stored) =>
      TouchRefines(t, h, clock, k, renew, at, stored, policy);
    case ForgetOp(removed) =>
      ForgetRefines(t, h, clock, removed, policy);
  }

  lemma AddedSize<V>(t: Table<V>, k: string, e: Entry<V>)
    ensures |t[k := e]| <= |t| + 1
  {
    assert t[k := e].Keys == t.Keys + {k};
    assert |t[k := e].Keys| == |t[k := e]| && |t.Keys| == |t|;
  }

  lemma SubsetSize<T>(a: set<T>, b: set<T>)
    requires a <= b
    ensures |a| <= |b|
  {
    assert b == a + (b - a);
  }

  lemma ExpiredSize<V>(t: Table<V>, now: int, policy: Policy<V>)
    ensures |Expire(t, now, policy)| <= |t|
  {
    SubsetSize(Expire(t, now, policy).Keys, t.Keys);
    assert |Expire(t, now, policy).Keys| == |Expire(t, now, policy)| && |t.Keys| == |t|;
  }

  lemma StepSize<V>(t: Table<V>, op: Op<V>, policy: Policy<V>)
    requires |t| <= policy.capacity
    ensures |TableStep(t, op, policy).0| <= policy.capacity
  {
    var (t2, _) := TableStep(t, op, policy);
    if op.AddOp? {
      ExpiredSize(t, op.now, policy);
      AddedSize(Expire(t, op.now, policy), op.key, Entry(op.value, op.now));
    } else {
      SubsetSize(t2.Keys, t.Keys);
      assert |t2.Keys| == |t2| && |t.Keys| == |t|;
    }
  }

  // ---------------------------------------------------------------- refinement over runs

  function TableRun<V>(t: Table<V>, ops: seq<Op<V>>, policy: Policy<V>): (Table<V>, seq<bool>)
    decreases |ops|
  {
    if |ops| == 0 then (t, [])
    else
      var (t2, ok) := TableStep(t, ops[0], policy);
      var (t3, oks) := TableRun(t2, ops[1..], policy);
      (t3, [ok] + oks)
  }

  function SpecRun<V>(h: seq<TableEvent<V>>, ops: seq<Op<V>>, policy: Policy<V>): (seq<TableEvent<V>>, seq<bool>)
    decreases |ops|
  {
    if |ops| == 0 then (h, [])
    else
      var (h2, ok) := SpecStep(h, ops[0], policy);
      var (h3, oks) := SpecRun(h2, ops[1..], policy);
      (h3, [ok] + oks)
  }

  predicate MonotoneRun<V>(ops: seq<Op<V>>, clock: int)
    decreases |ops|
  {
    |ops| == 0 || (Monotone(ops[0], clock) && MonotoneRun(ops[1..], OpEnd(ops[0], clock)))
  }

  lemma {:induction false} RunRefines<V>(t: Table<V>, h: seq<TableEvent<V>>, clock: int, ops: seq<Op<V>>,
                                         policy: Policy<V>)
    requires Refines(t, h, clock, policy) && MonotoneRun(ops, clock) && |t| <= policy.capacity
    ensures TableRun(t, ops, policy).1 == SpecRun(h, ops, policy).1
    ensures |TableRun(t, ops, policy).0| <= policy.capacity
    decreases |ops|
  {
    if |ops| > 0 {
      StepRefines(t, h, clock, ops[0], policy);
      StepSize(t, ops[0], policy);
      RunRefines(TableStep(t, ops[0], policy).0, SpecStep(h, ops[0], policy).0, OpEnd(ops[0], clock), ops[1..], policy);
    }
  }

  /**
   From an empty table and over every run with a non-decreasing clock, the answers of the lazily expired table
   are those of the history, and the table stays within its capacity.
   */
  lemma TableRefinesHistory<V>(clock: int, ops: seq<Op<V>>, policy: Policy<V>)
    requires MonotoneRun(ops, clock)
    ensures TableRun(map[], ops, policy).1 == SpecRun([], ops, policy).1
    ensures |TableRun(map[], ops, policy).0| <= policy.capacity
  {
    assert Refines(map[], [], clock, policy);
    RunRefines(map[], [], clock, ops, policy);
  }

  /**
   An entry within its timeout that is not withdrawn survives every operation on other keys, as it is: nothing is
   evicted for space.
   */
  lemma AcceptedStaysLive<V>(t: Table<V>, h: seq<TableEvent<V>>, clock: int, key: string, op: Op<V>, policy: Policy<V>)
    requires Refines(t, h, clock, policy) && Monotone(op, clock) && Live(h, key, OpEnd(op, clock), policy)
    requires op.ForgetOp? ==> !Purges(op.removed, key)
    requires !op.ForgetOp? ==> op.key != key
    ensures key in t && key in TableStep(t, op, policy).0 && TableStep(t, op, policy).0[key] == t[key]
    ensures Live(SpecStep(h, op, policy).0, key, OpEnd(op, clock), policy)
    ensures LastSeen(SpecStep(h, op, policy).0, key) == LastSeen(h, key) == Some(t[key])
  {
    var (h2, ok) := SpecStep(h, op, policy);
    LiveEarlier(h, clock, OpEnd(op, clock), policy);
    if ok {
      LastSeenAfter(h, h2[|h|]);
      assert h2 == h + [h2[|h|]];
    }
  }
}
