/**
 Persistent leases: the runtime database as a CIDR tag and a table of leases, and `EffectiveLeases` as a replay of
 the table into a fresh allocator followed by an allocation that is written back one row at a time.
 */
module LeaseStore {
  import opened Bytes
  import opened Sorting
  import opened Allocator
  import opened Wrappers

  datatype Db = Db(cidr: Option<Prefix>, leases: map<string, Addr>)

  // ---------------------------------------------------------------- specification

  /** `Open`: a different CIDR deletes all leases. The deletion and the new tag are separate statements. */
  function Opened(db: Db, cidr: Prefix, tagged: bool): Db {
    var changed := db.cidr.Some? && db.cidr.value != cidr;
    Db(if tagged then Some(cidr) else db.cidr, if changed then map[] else db.leases)
  }

  /** The loop over the persisted leases; a Go map is iterated in an arbitrary order. */
  function ReserveAll(s: Pool, m: map<string, Addr>, order: seq<string>): (r: Option<Pool>)
    requires ValidPrefix(s.prefix) && forall k :: k in order ==> k in m
    ensures r.Some? ==> r.value.prefix == s.prefix
    decreases |order|
  {
    if |order| == 0 then Some(s)
    else
      match Reserving(s, order[0], m[order[0]])
      case None => None
      case Some(s2) => ReserveAll(s2, m, order[1..])
  }

  /** The loop of `Put`s over the leases of the keys. */
  function PutAll(m: map<string, Addr>, keys: seq<string>, source: map<string, Addr>): map<string, Addr> {
    if |keys| == 0 then m
    else
      var before, last := PutAll(m, keys[..|keys| - 1], source), keys[|keys| - 1];
      if last in source then before[last := source[last]] else before
  }

  predicate Enumerates(order: seq<string>, m: map<string, Addr>) {
    (forall k :: k in order ==> k in m) && forall k :: k in m ==> k in order
  }

  /** `EffectiveLeases` for the inventory's keys; the first `stop` writes take place. */
  function Effective(db: Db, cidr: Prefix, order: seq<string>, keys: seq<string>, stop: nat, hash: Hash)
    : (Db, Option<map<string, Addr>>)
    requires ValidPrefix(cidr) && Enumerates(order, db.leases)
  {
    match ReserveAll(Pool(cidr, map[], map[]), db.leases, order)
    case None => (db, None)
    case Some(s) =>
      var sorted := StableSort(keys, StringLe);
      var (s2, ok) := LeaseAll(s, sorted, hash);
      if !ok then (db, None)
      else if stop < |sorted| then (db.(leases := PutAll(db.leases, sorted[..stop], s2.leases)), None)
      else (db.(leases := PutAll(db.leases, sorted, s2.leases)),
            Some(map k | k in sorted && k in s2.leases :: s2.leases[k]))
  }

  // ---------------------------------------------------------------- the invariant of the table

  /** Persisted leases are injective and lie in the pool, above the reserved addresses. */
  ghost predicate LeasesOk(m: map<string, Addr>, cidr: Prefix)
    requires ValidPrefix(cidr)
  {
    && (forall k, l :: k in m && l in m && m[k] == m[l] ==> k == l)
    && (forall k :: k in m ==> Base(cidr) + 3 <= AddrNum(m[k]) < Base(cidr) + Size(cidr))
  }

  ghost predicate DbOk(db: Db) {
    match db.cidr
    case None => db.leases == map[]
    case Some(c) => ValidPrefix(c) && LeasesOk(db.leases, c)
  }

  // ---------------------------------------------------------------- replay

  function Restricted(m: map<string, Addr>, done: set<string>): map<string, Addr> {
    map k | k in m && k in done :: m[k]
  }

  /** Exactly the addresses of the keys in `done` are used, each by its own key. */
  ghost predicate UsedBy(used: map<Addr, string>, m: map<string, Addr>, done: set<string>) {
    && (forall k :: k in m && k in done ==> m[k] in used && used[m[k]] == k)
    && (forall a :: a in used ==> a in Restricted(m, done).Values)
  }

  /** A partial replay of the keys in `done`. */
  ghost predicate Replayed(s: Pool, m: map<string, Addr>, done: set<string>) {
    s.leases == Restricted(m, done) && UsedBy(s.used, m, done)
  }

  lemma {:induction false} ReplayFrom(s: Pool, m: map<string, Addr>, done: set<string>, order: seq<string>)
    requires ValidPrefix(s.prefix) && LeasesOk(m, s.prefix) && Replayed(s, m, done)
    requires forall k :: k in order ==> k in m
    ensures ReserveAll(s, m, order).Some?
    ensures var s2 := ReserveAll(s, m, order).value;
            s2.prefix == s.prefix && Replayed(s2, m, done + set k | k in order)
    decreases |order|
  {
    hide LeasesOk, Replayed, Reserving, Reservable;
    if |order| == 0 {
      assert done + (set k | k in order) == done;
    } else {
      var key := order[0];
      assert key in order;
      ReplayStep(s, m, done, key);
      ReplayFrom(Reserving(s, key, m[key]).value, m, done + {key}, order[1..]);
      assert done + {key} + (set k | k in order[1..]) == done + (set k | k in order);
    }
  }

  lemma ReplayStep(s: Pool, m: map<string, Addr>, done: set<string>, key: string)
    requires ValidPrefix(s.prefix) && LeasesOk(m, s.prefix) && Replayed(s, m, done) && key in m
    ensures Reserving(s, key, m[key]).Some? && Reserving(s, key, m[key]).value.prefix == s.prefix
    ensures Replayed(Reserving(s, key, m[key]).value, m, done + {key})
  {
    hide Reservable, LeasesOk, UsedBy, Restricted;
    ReservableLease(m, s.prefix, key);
    InjectiveOk(m, s.prefix);
    UsedGrows(s.used, m, done, key);
    RestrictedGrows(m, done, key);
  }

  lemma RestrictedGrows(m: map<string, Addr>, done: set<string>, key: string)
    requires key in m
    ensures Restricted(m, done)[key := m[key]] == Restricted(m, done + {key})
  {
  }

  lemma UsedGrows(used: map<Addr, string>, m: map<string, Addr>, done: set<string>, key: string)
    requires UsedBy(used, m, done) && key in m
    requires forall k, l :: k in m && l in m && m[k] == m[l] ==> k == l
    ensures m[key] in used ==> used[m[key]] == key
    ensures UsedBy(used[m[key] := key], m, done + {key})
  {
    hide Restricted;
    var used2 := used[m[key] := key];
    RestrictedGrows(m, done, key);
    RestrictedValues(m, done);
    forall a | a in used2 ensures a in Restricted(m, done + {key}).Values {
      RestrictedHas(m, done + {key}, key);
      if a != m[key] {
        var k :| k in m && k in done && m[k] == a;
        RestrictedHas(m, done + {key}, k);
      }
    }
  }

  lemma RestrictedValues(m: map<string, Addr>, done: set<string>)
    ensures forall a :: a in Restricted(m, done).Values ==> exists k :: k in m && k in done && m[k] == a
  {
  }

  lemma RestrictedHas(m: map<string, Addr>, done: set<string>, k: string)
    requires k in m && k in done
    ensures m[k] in Restricted(m, done).Values
  {
    assert Restricted(m, done)[k] == m[k];
  }

  lemma ReservableLease(m: map<string, Addr>, cidr: Prefix, key: string)
    requires ValidPrefix(cidr) && LeasesOk(m, cidr) && key in m
    ensures Reservable(cidr, m[key])
  {
    hide Base, Size, AddrNum;
  }

  /** Replaying sound leases with Reserve never fails, whatever the order, and restores them exactly. */
  lemma ReplaySucceeds(m: map<string, Addr>, cidr: Prefix, order: seq<string>)
    requires ValidPrefix(cidr) && LeasesOk(m, cidr) && Enumerates(order, m)
    ensures ReserveAll(Pool(cidr, map[], map[]), m, order).Some?
    ensures var s := ReserveAll(Pool(cidr, map[], map[]), m, order).value;
            s.prefix == cidr && s.leases == m && Consistent(s) && s.used.Keys == m.Values
  {
    hide LeasesOk;
    ReplayFrom(Pool(cidr, map[], map[]), m, {}, order);
    var s := ReserveAll(Pool(cidr, map[], map[]), m, order).value;
    var all := {} + set k | k in order;
    assert all == m.Keys;
    assert Restricted(m, all) == m;
    assert forall a :: a in s.used ==> a in m.Values;
    assert forall k :: k in m ==> m[k] in s.used;
    assert s.used.Keys == m.Values;
  }

  // ---------------------------------------------------------------- one call

  lemma {:induction false} PutAllEntries(m: map<string, Addr>, keys: seq<string>, source: map<string, Addr>)
    requires forall k :: k in keys ==> k in source
    ensures var r := PutAll(m, keys, source);
            && (forall k :: k in r <==> k in m || k in keys)
            && (forall k :: k in keys ==> r[k] == source[k])
            && (forall k :: k in m && k !in keys ==> r[k] == m[k])
  {
    if |keys| > 0 {
      var front, last := keys[..|keys| - 1], keys[|keys| - 1];
      PutAllEntries(m, front, source);
      assert forall k :: k in keys <==> k in front || k == last;
    }
  }

  /** Writing some of an allocation's leases over the replayed ones keeps the table sound and every old row. */
  lemma WriteBack(m: map<string, Addr>, s: Pool, s2: Pool, keys: seq<string>, written: seq<string>, hash: Hash)
    requires ValidPrefix(s.prefix) && LeasesOk(m, s.prefix) && s.leases == m && Consistent(s)
    requires LeaseAll(s, keys, hash) == (s2, true) && forall k :: k in written ==> k in s2.leases
    ensures var r := PutAll(m, written, s2.leases);
            LeasesOk(r, s.prefix) && forall k :: k in m ==> k in r && r[k] == m[k]
  {
    hide LeasesOk, Consistent, PutAll;
    AllocatedOk(m, s, s2, keys, hash);
    PutAllEntries(m, written, s2.leases);
    PartOk(PutAll(m, written, s2.leases), s2.leases, s.prefix);
  }

  lemma AllocatedOk(m: map<string, Addr>, s: Pool, s2: Pool, keys: seq<string>, hash: Hash)
    requires ValidPrefix(s.prefix) && LeasesOk(m, s.prefix) && s.leases == m && Consistent(s)
    requires LeaseAll(s, keys, hash) == (s2, true)
    ensures LeasesOk(s2.leases, s.prefix) && forall k :: k in m ==> k in s2.leases && s2.leases[k] == m[k]
  {
    hide LeaseAll, Base, Size, AddrNum, Consistent;
    LeaseAllEffect(s, keys, hash);
    ConsistentIsInjective(s2);
  }

  lemma PartOk(r: map<string, Addr>, m: map<string, Addr>, cidr: Prefix)
    requires ValidPrefix(cidr) && LeasesOk(m, cidr) && forall k :: k in r ==> k in m && r[k] == m[k]
    ensures LeasesOk(r, cidr)
  {
    hide Base, Size, AddrNum;
  }

  /** One call, complete or stopped after any number of writes, keeps the table sound and every row in it. */
  lemma EffectiveKeeps(db: Db, cidr: Prefix, order: seq<string>, keys: seq<string>, stop: nat, hash: Hash)
    requires DbOk(db) && db.cidr == Some(cidr) && Enumerates(order, db.leases)
    ensures var (db2, out) := Effective(db, cidr, order, keys, stop, hash);
            && DbOk(db2) && db2.cidr == db.cidr
            && (forall k :: k in db.leases ==> k in db2.leases && db2.leases[k] == db.leases[k])
            && (out.Some? ==> forall k :: k in keys <==> k in out.value)
            && (out.Some? ==> forall k :: k in out.value ==> k in db2.leases && db2.leases[k] == out.value[k])
            && (out.Some? ==> forall k, l :: k in out.value && l in out.value && out.value[k] == out.value[l] ==>
                    k == l)
  {
    hide LeasesOk, LeaseAll, ReserveAll, Consistent;
    ReplaySucceeds(db.leases, cidr, order);
    var s := ReserveAll(Pool(cidr, map[], map[]), db.leases, order).value;
    var sorted := StableSort(keys, StringLe);
    var (s2, ok) := LeaseAll(s, sorted, hash);
    SortedMembers(keys);
    if ok {
      LeaseAllEffect(s, sorted, hash);
      var written := if stop < |sorted| then sorted[..stop] else sorted;
      WriteBack(db.leases, s, s2, sorted, written, hash);
      PutAllEntries(db.leases, written, s2.leases);
      InjectiveOk(PutAll(db.leases, written, s2.leases), cidr);
    }
  }

  lemma InjectiveOk(m: map<string, Addr>, cidr: Prefix)
    requires ValidPrefix(cidr) && LeasesOk(m, cidr)
    ensures forall k, l :: k in m && l in m && m[k] == m[l] ==> k == l
  {
  }

  // ---------------------------------------------------------------- exact capacity of a call

  function Range(lo: int, n: nat): set<int> {
    if n == 0 then {} else Range(lo, n - 1) + {lo + n - 1}
  }

  lemma {:induction false} RangeSize(lo: int, n: nat)
    ensures |Range(lo, n)| == n
    ensures forall v :: v in Range(lo, n) <==> lo <= v < lo + n
  {
    if n > 0 {
      RangeSize(lo, n - 1);
    }
  }

  /** As many slots are taken as there are rows. */
  lemma {:induction false} TakenSlots(m: map<string, Addr>)
    requires forall k, l :: k in m && l in m && m[k] == m[l] ==> k == l
    ensures |set k | k in m :: AddrNum(m[k])| == |m|
    decreases |m|
  {
    hide AddrNum, NumAddr;
    var nums := set k | k in m :: AddrNum(m[k]);
    if |m| == 0 {
      assert m.Keys == {};
      assert nums == {};
    } else {
      assert m.Keys != {};
      var key :| key in m;
      var rest := m - {key};
      assert rest.Keys == m.Keys - {key};
      assert |rest.Keys| == |rest| && |m.Keys| == |m|;
      TakenSlots(rest);
      var restNums := set k | k in rest :: AddrNum(rest[k]);
      AddrNumRoundTrip(m[key]);
      forall k | k in rest ensures AddrNum(rest[k]) != AddrNum(m[key]) {
        AddrNumRoundTrip(rest[k]);
      }
      assert forall k :: k in m <==> k == key || k in rest;
      forall x ensures x in nums <==> x in restNums || x == AddrNum(m[key]) {
        if x in nums {
          var k :| k in m && AddrNum(m[k]) == x;
          assert k == key || (k in rest && AddrNum(rest[k]) == x);
        }
        if x in restNums {
          var k :| k in rest && AddrNum(rest[k]) == x;
          assert k in m && AddrNum(m[k]) == x;
        }
      }
      assert nums == restNums + {AddrNum(m[key])};
    }
  }

  lemma FreeSlots(s: Pool)
    requires ValidPrefix(s.prefix) && LeasesOk(s.leases, s.prefix) && s.used.Keys == s.leases.Values
    requires Size(s.prefix) >= 4
    ensures |FreeSet(s)| == Size(s.prefix) - 3 - |s.leases|
  {
    hide AddrNum, Size, Base, FreeSet, Range;
    var all := Range(Base(s.prefix) + 3, Size(s.prefix) - 3);
    var taken := set k | k in s.leases :: AddrNum(s.leases[k]);
    RangeSize(Base(s.prefix) + 3, Size(s.prefix) - 3);
    TakenSlots(s.leases);
    forall v ensures v in FreeSet(s) <==> v in all && v !in taken {
      FreeIff(s, v);
    }
    DifferenceSize(FreeSet(s), all, taken);
  }

  lemma DifferenceSize(free: set<int>, all: set<int>, taken: set<int>)
    requires taken <= all && forall v :: v in free <==> v in all && v !in taken
    ensures |free| == |all| - |taken|
  {
    forall v ensures v in free <==> v in all - taken {
    }
    assert free == all - taken;
  }

  lemma FreeIff(s: Pool, v: int)
    requires ValidPrefix(s.prefix) && s.used.Keys == s.leases.Values
    ensures v in FreeSet(s) <==>
              Base(s.prefix) + 3 <= v < Base(s.prefix) + Size(s.prefix)
                  && v !in set k | k in s.leases :: AddrNum(s.leases[k])
  {
    hide AddrNum, NumAddr, Size, Base, IsFree;
    PoolFits(s.prefix);
    if 0 <= v < U32_LIMIT {
      TakenIff(s, v);
    }
  }

  lemma TakenIff(s: Pool, v: U32)
    requires s.used.Keys == s.leases.Values
    ensures IsFree(s, v) <==> v !in set k | k in s.leases :: AddrNum(s.leases[k])
  {
    hide AddrNum, NumAddr;
    var taken := set k | k in s.leases :: AddrNum(s.leases[k]);
    NumAddrRoundTrip(v);
    if v in taken {
      var k :| k in s.leases && AddrNum(s.leases[k]) == v;
      AddrNumRoundTrip(s.leases[k]);
      assert NumAddr(v) in s.leases.Values;
    }
    if NumAddr(v) in s.leases.Values {
      var k :| k in s.leases && s.leases[k] == NumAddr(v);
      assert AddrNum(s.leases[k]) == v;
    }
  }

  lemma UnionSize(m: map<string, Addr>, added: set<string>, keys: set<string>)
    requires forall k :: k in added <==> k in keys && k !in m
    ensures |m.Keys + keys| == |m| + |added|
  {
    assert m.Keys + keys == m.Keys + added && m.Keys !! added;
    assert |m.Keys + added| == |m.Keys| + |added|;
    assert |m.Keys| == |m|;
  }

  /**
   A call hands out leases exactly when all targets ever leased under this CIDR and the requested ones together
   fit the pool; rows of departed targets count.
   */
  lemma EffectiveSucceedsIff(db: Db, cidr: Prefix, order: seq<string>, keys: seq<string>, hash: Hash)
    requires DbOk(db) && db.cidr == Some(cidr) && Enumerates(order, db.leases) && cidr.bits >= 1
    ensures Effective(db, cidr, order, keys, |keys|, hash).1.Some? <==>
              |db.leases.Keys + set k | k in keys| <= Size(cidr) - 3
  {
    hide LeaseAll, ReserveAll, Consistent, FreeSet, Size, Base, LeasesOk, Reservable;
    ReplaySucceeds(db.leases, cidr, order);
    var s := ReserveAll(Pool(cidr, map[], map[]), db.leases, order).value;
    var sorted := StableSort(keys, StringLe);
    SortedMembers(keys);
    CapacityExact(s, sorted, hash);
    SizeBounds(cidr);
    FreeSlots(s);
    UnionSize(db.leases, NewKeys(s, sorted), set k | k in keys);
  }

  // ---------------------------------------------------------------- runs

  /** A restart (possibly cut off before the tag is written), or one call of EffectiveLeases while it runs. */
  datatype Event =
    | Restart(cidr: Prefix, tagged: bool)
    | Call(order: seq<string>, keys: seq<string>, stop: nat)

  ghost predicate Enabled(db: Db, e: Event) {
    match e
    case Restart(cidr, _) => ValidPrefix(cidr)
    case Call(order, _, _) => db.cidr.Some? && Enumerates(order, db.leases)
  }

  function Step(db: Db, e: Event, hash: Hash): Db {
    match e
    case Restart(cidr, tagged) => Opened(db, cidr, tagged)
    case Call(order, keys, stop) =>
      if db.cidr.Some? && ValidPrefix(db.cidr.value) && Enumerates(order, db.leases)
      then Effective(db, db.cidr.value, order, keys, stop, hash).0 else db
  }

  function Run(db: Db, es: seq<Event>, hash: Hash): Db
    decreases |es|
  {
    if |es| == 0 then db else Run(Step(db, es[0], hash), es[1..], hash)
  }

  ghost predicate EnabledRun(db: Db, es: seq<Event>, hash: Hash)
    decreases |es|
  {
    |es| == 0 || (Enabled(db, es[0]) && EnabledRun(Step(db, es[0], hash), es[1..], hash))
  }

  lemma StepKeepsDb(db: Db, e: Event, hash: Hash)
    requires DbOk(db) && Enabled(db, e)
    ensures DbOk(Step(db, e, hash))
    ensures !(e.Restart? && db.cidr.Some? && db.cidr.value != e.cidr) ==>
              && (db.cidr.Some? ==> Step(db, e, hash).cidr == db.cidr)
              && forall k :: k in db.leases ==>
                      k in Step(db, e, hash).leases && Step(db, e, hash).leases[k] == db.leases[k]
  {
    hide LeasesOk, Effective, Enumerates;
    match e
    case Restart(cidr, _) =>
      NothingLeasedOk(cidr);
      if db.cidr.Some? {
        NothingLeasedOk(db.cidr.value);
      }
    case Call(order, keys, stop) =>
      EffectiveKeeps(db, db.cidr.value, order, keys, stop, hash);
  }

  lemma NothingLeasedOk(cidr: Prefix)
    requires ValidPrefix(cidr)
    ensures LeasesOk(map[], cidr)
  {
  }

  /**
   From an empty store and over every sequence of restarts and calls, cut off anywhere, the persisted leases stay
   injective and inside the recorded CIDR, so that replaying them never fails.
   */
  lemma {:induction false} StoreStaysSound(db: Db, es: seq<Event>, hash: Hash)
    requires DbOk(db) && EnabledRun(db, es, hash)
    ensures DbOk(Run(db, es, hash))
    decreases |es|
  {
    hide DbOk, Enabled, Step;
    if |es| > 0 {
      StepKeepsDb(db, es[0], hash);
      StoreStaysSound(Step(db, es[0], hash), es[1..], hash);
    }
  }

  lemma ReplayNeverFails(es: seq<Event>, order: seq<string>, hash: Hash)
    requires EnabledRun(Db(None, map[]), es, hash)
    requires Run(Db(None, map[]), es, hash).cidr.Some? && Enumerates(order, Run(Db(None, map[]), es, hash).leases)
    ensures var db := Run(Db(None, map[]), es, hash);
            && ValidPrefix(db.cidr.value)
            && (forall k :: k in db.leases ==> Contains(db.cidr.value, AddrNum(db.leases[k])))
            && ReserveAll(Pool(db.cidr.value, map[], map[]), db.leases, order).Some?
            && forall k, l :: k in db.leases && l in db.leases && db.leases[k] == db.leases[l] ==> k == l
  {
    hide Run, EnabledRun, ReserveAll, Enumerates, Base, Size, AddrNum;
    StoreStaysSound(Db(None, map[]), es, hash);
    var db := Run(Db(None, map[]), es, hash);
    ReplaySucceeds(db.leases, db.cidr.value, order);
  }

  /** A target keeps its address across restarts and calls until a restart with a different CIDR. */
  lemma {:induction false} LeasesAreStable(db: Db, es: seq<Event>, hash: Hash)
    requires DbOk(db) && EnabledRun(db, es, hash) && db.cidr.Some?
    requires forall e :: e in es && e.Restart? ==> e.cidr == db.cidr.value
    ensures var db2 := Run(db, es, hash);
            db2.cidr == db.cidr && forall k :: k in db.leases ==> k in db2.leases && db2.leases[k] == db.leases[k]
    decreases |es|
  {
    hide DbOk, Enabled, Step;
    if |es| > 0 {
      assert es[0] in es;
      StepKeepsDb(db, es[0], hash);
      LeasesAreStable(Step(db, es[0], hash), es[1..], hash);
    }
  }

  /** What opening records: the new tag once it is written, and no rows under a tag that was different before. */
  lemma RestartRecords(db: Db, c: Prefix, tagged: bool, hash: Hash)
    ensures Step(db, Restart(c, tagged), hash).cidr == if tagged then Some(c) else db.cidr
    ensures Step(db, Restart(c, tagged), hash).leases ==
            if db.cidr == None || db.cidr == Some(c) then db.leases else map[]
  {
  }

  lemma {:induction false} RunInParts(db: Db, es: seq<Event>, n: nat, hash: Hash)
    requires n <= |es| && EnabledRun(db, es, hash)
    ensures EnabledRun(db, es[..n], hash) && EnabledRun(Run(db, es[..n], hash), es[n..], hash)
    ensures Run(db, es, hash) == Run(Run(db, es[..n], hash), es[n..], hash)
    decreases n
  {
    hide Enabled, Step;
    if n == 0 {
      assert es[0..] == es;
    } else {
      RunInParts(Step(db, es[0], hash), es[1..], n - 1, hash);
      assert es[..n][1..] == es[1..][..n - 1] && es[1..][n - 1..] == es[n..];
    }
  }

  /**
   Stability across a change of CIDR: after a completed restart with c, from any sound store, and any events whose
   restarts all use c, the tag is c and every row that was there after some of them is there unchanged.
   */
  lemma {:induction false} StableAfterRestart(db: Db, c: Prefix, es: seq<Event>, n: nat, hash: Hash)
    requires DbOk(db) && ValidPrefix(c) && n <= |es| && EnabledRun(Step(db, Restart(c, true), hash), es, hash)
    requires forall e :: e in es && e.Restart? ==> e.cidr == c
    ensures var db1 := Step(db, Restart(c, true), hash);
            && Run(db1, es, hash).cidr == Some(c)
            && forall k :: k in Run(db1, es[..n], hash).leases ==>
                 k in Run(db1, es, hash).leases && Run(db1, es, hash).leases[k] == Run(db1, es[..n], hash).leases[k]
  {
    hide DbOk, Enabled, Step, Run, EnabledRun;
    var db1 := Step(db, Restart(c, true), hash);
    RestartRecords(db, c, true, hash);
    RestartSound(db, c, hash);
    RunInParts(db1, es, n, hash);
    StoreStaysSound(db1, es[..n], hash);
    LeasesAreStable(db1, es[..n], hash);
    LeasesAreStable(Run(db1, es[..n], hash), es[n..], hash);
  }

  lemma RestartSound(db: Db, c: Prefix, hash: Hash)
    requires DbOk(db) && ValidPrefix(c)
    ensures DbOk(Step(db, Restart(c, true), hash))
  {
    hide DbOk, Step;
    StepKeepsDb(db, Restart(c, true), hash);
  }

  /**
   A call stopped after `stop` writes leaves the old rows and those of the first `stop` keys in sorted order, with
   the addresses the completed call returns.
   */
  lemma InterruptedWritesPrefix(db: Db, cidr: Prefix, order: seq<string>, keys: seq<string>, stop: nat, hash: Hash)
    requires DbOk(db) && db.cidr == Some(cidr) && Enumerates(order, db.leases) && stop < |keys|
    requires Effective(db, cidr, order, keys, |keys|, hash).1.Some?
    ensures var out := Effective(db, cidr, order, keys, |keys|, hash).1.value;
            var rows := Effective(db, cidr, order, keys, stop, hash).0.leases;
            var written := StableSort(keys, StringLe)[..stop];
            && (forall k :: k in rows <==> k in db.leases || k in written)
            && (forall k :: k in written ==> k in out && rows[k] == out[k])
            && (forall k :: k in db.leases ==> rows[k] == db.leases[k])
  {
    hide LeasesOk, LeaseAll, ReserveAll, Consistent, StableSort;
    ReplaySucceeds(db.leases, cidr, order);
    var s := ReserveAll(Pool(cidr, map[], map[]), db.leases, order).value;
    var sorted := StableSort(keys, StringLe);
    var s2 := LeaseAll(s, sorted, hash).0;
    LeaseAllEffect(s, sorted, hash);
    PutAllEntries(db.leases, sorted[..stop], s2.leases);
    EffectiveKeeps(db, cidr, order, keys, stop, hash);
  }

  // ---------------------------------------------------------------- the objects

  class Store {
    var cidr: Option<Prefix>
    var leases: map<string, Addr>

    ghost function State(): Db
      reads this
    {
      Db(cidr, leases)
    }

    constructor ()
      ensures State() == Db(None, map[]) && DbOk(State())
    {
      cidr, leases := None, map[];
    }

    /** `Open` on an existing database. */
    method Open(wanted: Prefix) returns (changed: bool)
      modifies this
      ensures State() == Opened(old(State()), wanted, true)
      ensures cidr == Some(wanted)
      ensures changed <==> old(cidr).Some? && old(cidr).value != wanted
      ensures leases == if changed then map[] else old(leases)
    {
      changed := cidr.Some? && cidr.value != wanted;
      if changed {
        leases := map[];
      }
      cidr := Some(wanted);
    }

    /** `Put`. */
    method Put(key: string, ip: Addr)
      modifies this`leases
      ensures leases == old(leases)[key := ip]
    {
      leases := leases[key := ip];
    }
  }

  /** The replay loop of `EffectiveLeases`, in the order the persisted map is iterated. */
  method Replay(a: Allocator, persisted: map<string, Addr>, order: seq<string>) returns (ok: bool)
    requires ValidPrefix(a.prefix) && Enumerates(order, persisted)
    modifies a
    ensures match ReserveAll(old(a.State()), persisted, order)
            case None => !ok
            case Some(s) => ok && a.State() == s
  {
    ghost var start := a.State();
    for i := 0 to |order|
      invariant ReserveAll(start, persisted, order) == ReserveAll(a.State(), persisted, order[i..])
    {
      assert order[i..][1..] == order[i + 1..];
      assert order[i] in order;
      var done := a.Reserve(order[i], persisted[order[i]]);
      if !done {
        return false;
      }
    }
    return true;
  }

  lemma PutNext(m: map<string, Addr>, keys: seq<string>, i: nat, source: map<string, Addr>)
    requires i < |keys| && keys[i] in source
    ensures PutAll(m, keys[..i + 1], source) == PutAll(m, keys[..i], source)[keys[i] := source[keys[i]]]
  {
    assert keys[..i + 1][..i] == keys[..i];
  }

  /** The loop that collects and persists the allocated leases. */
  method WriteLeases(store: Store, leased: seq<Lease>, stop: nat, ghost sorted: seq<string>,
                     ghost source: map<string, Addr>)
    returns (out: Option<map<string, Addr>>)
    requires |leased| == |sorted| && forall j :: 0 <= j < |leased| ==>
               leased[j].key == sorted[j] && sorted[j] in source && source[sorted[j]] == leased[j].ip
    modifies store`leases
    ensures if stop < |sorted| then out == None && store.leases == PutAll(old(store.leases), sorted[..stop], source)
            else out == Some(map k | k in sorted && k in source :: source[k])
                 && store.leases == PutAll(old(store.leases), sorted, source)
  {
    var result: map<string, Addr> := map[];
    for i := 0 to |leased|
      invariant i <= stop
      invariant store.leases == PutAll(old(store.leases), sorted[..i], source)
      invariant result == map k | k in sorted[..i] && k in source :: source[k]
    {
      if i == stop {
        return None;
      }
      var l := leased[i];
      result := result[l.key := l.ip];
      PutNext(old(store.leases), sorted, i, source);
      assert forall k :: k in sorted[..i + 1] <==> k in sorted[..i] || k == l.key;
      store.Put(l.key, l.ip);
    }
    assert sorted[..|sorted|] == sorted;
    return Some(result);
  }

  /** `EffectiveLeases`. The write after `stop` successful ones fails, if there are that many. */
  method EffectiveLeases(store: Store, cidr: Prefix, hash: Hash, keys: seq<string>, order: seq<string>, stop: nat)
    returns (out: Option<map<string, Addr>>)
    requires ValidPrefix(cidr) && Enumerates(order, store.leases)
    modifies store
    ensures (store.State(), out) == Effective(old(store.State()), cidr, order, keys, stop, hash)
  {
    hide LeaseAll, ReserveAll, Consistent, StableSort, Reservable, StringLe, PutAll;
    var a := new Allocator(cidr, hash);
    var replayed := Replay(a, store.leases, order);
    if !replayed {
      return None;
    }
    ReserveAllConsistent(Pool(cidr, map[], map[]), store.leases, order);
    var leased := a.Allocate(keys);
    if leased == None {
      return None;
    }
    out := WriteLeases(store, leased.value, stop, StableSort(keys, StringLe), a.leases);
  }

  lemma {:induction false} ReserveAllConsistent(s: Pool, m: map<string, Addr>, order: seq<string>)
    requires ValidPrefix(s.prefix) && Consistent(s) && forall k :: k in order ==> k in m
    ensures ReserveAll(s, m, order).Some? ==>
              Consistent(ReserveAll(s, m, order).value) && ReserveAll(s, m, order).value.prefix == s.prefix
    decreases |order|
  {
    hide Consistent, Reservable;
    if |order| > 0 && Reserving(s, order[0], m[order[0]]).Some? {
      ReserveKeepsConsistent(s, order[0], m[order[0]]);
      ReserveAllConsistent(Reserving(s, order[0], m[order[0]]).value, m, order[1..]);
    }
  }
}
