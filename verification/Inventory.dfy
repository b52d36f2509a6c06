/** The aggregate view of the active profiles, and the ordered first match on raw canonical addresses. */
module Inventory {
  import opened Bytes
  import opened Sorting
  import opened Text
  import opened Wrappers

  datatype Kind = Node | Service

  function KindText(k: Kind): string {
    match k
    case Node => "node"
    case Service => "service"
  }

  datatype Target = Target(profileID: string, profileName: string, order: int, kind: Kind, id: string,
                           fqdn: string, online: bool, canonical: Addr)

  datatype Profile = Profile(id: string, name: string, order: int, targets: seq<Target>)

  /** The stable identity that leases are keyed by. */
  function Key(t: Target): string {
    t.profileID + ['/'] + (KindText(t.kind) + ['/'] + (t.id + ['/'] + Dotted(t.canonical)))
  }

  lemma KeyFaithful(t: Target, u: Target)
    requires Free('/', t.profileID) && Free('/', u.profileID) && Free('/', t.id) && Free('/', u.id)
    ensures Key(t) == Key(u) <==>
              t.profileID == u.profileID && t.kind == u.kind && t.id == u.id && t.canonical == u.canonical
  {
    if Key(t) == Key(u) {
      var t2, u2 := t.id + ['/'] + Dotted(t.canonical), u.id + ['/'] + Dotted(u.canonical);
      var t1, u1 := KindText(t.kind) + ['/'] + t2, KindText(u.kind) + ['/'] + u2;
      SplitUnique('/', t.profileID, t1, u.profileID, u1);
      SplitUnique('/', KindText(t.kind), t2, KindText(u.kind), u2);
      SplitUnique('/', t.id, Dotted(t.canonical), u.id, Dotted(u.canonical));
      assert KindText(Node)[0] != KindText(Service)[0];
      DottedInjective(t.canonical, u.canonical);
    }
  }

  // ---------------------------------------------------------------- specification of Build

  function Stamped(p: Profile, t: Target): Target {
    t.(profileID := p.id, profileName := p.name, order := p.order)
  }

  function StampedTargets(p: Profile, n: nat): (r: seq<Target>)
    requires n <= |p.targets|
    ensures |r| == n && forall i :: 0 <= i < n ==> r[i] == Stamped(p, p.targets[i])
  {
    if n == 0 then [] else StampedTargets(p, n - 1) + [Stamped(p, p.targets[n - 1])]
  }

  /** All targets, in profile order and then in each profile's own order. */
  function AllTargets(profiles: seq<Profile>): seq<Target> {
    if |profiles| == 0 then []
    else
      var p := profiles[|profiles| - 1];
      AllTargets(profiles[..|profiles| - 1]) + StampedTargets(p, |p.targets|)
  }

  function WithAddress(ts: seq<Target>, ip: Addr): seq<Target> {
    if |ts| == 0 then []
    else
      var before := WithAddress(ts[..|ts| - 1], ip);
      if ts[|ts| - 1].canonical == ip then before + [ts[|ts| - 1]] else before
  }

  /** The targets of one name; the empty name is not indexed. */
  function WithName(ts: seq<Target>, name: string): seq<Target> {
    if |ts| == 0 || name == "" then []
    else
      var before := WithName(ts[..|ts| - 1], name);
      if ts[|ts| - 1].fqdn == name then before + [ts[|ts| - 1]] else before
  }

  predicate AddrLe(x: Addr, y: Addr) {
    AddrNum(x) <= AddrNum(y)
  }

  /** The order of `sort.Slice` in Build. */
  predicate TargetLe(a: Target, b: Target) {
    if a.order != b.order then a.order < b.order
    else if a.kind != b.kind then a.kind == Node
    else if a.id != b.id then StringLe(a.id, b.id)
    else AddrLe(a.canonical, b.canonical)
  }

  datatype Snapshot = Snapshot(targets: seq<Target>, canonical: map<Addr, seq<Target>>, fqdn: map<string, seq<Target>>)

  /** `sort.Slice` is not stable, so Build promises only some sorted arrangement of all targets. */
  ghost predicate Builds(s: Snapshot, profiles: seq<Profile>) {
    && multiset(s.targets) == multiset(AllTargets(profiles))
    && SortedBy(s.targets, TargetLe)
    && CanonicalIndex(s.canonical, AllTargets(profiles))
    && NameIndex(s.fqdn, AllTargets(profiles))
  }

  ghost predicate CanonicalIndex(m: map<Addr, seq<Target>>, ts: seq<Target>) {
    forall ip :: WithAddress(ts, ip) == if ip in m then m[ip] else []
  }

  ghost predicate NameIndex(m: map<string, seq<Target>>, ts: seq<Target>) {
    forall name :: WithName(ts, name) == if name in m then m[name] else []
  }

  lemma TargetLeIsTotalPreorder()
    ensures TotalPreorder(TargetLe)
  {
    forall a, b ensures TargetLe(a, b) || TargetLe(b, a) {
      StringLeTotal(a.id, b.id);
    }
    forall a, b, c | TargetLe(a, b) && TargetLe(b, c) ensures TargetLe(a, c) {
      if a.order == b.order == c.order && a.kind == b.kind == c.kind {
        if a.id != b.id && b.id != c.id {
          StringLeTransitive(a.id, b.id, c.id);
          if a.id == c.id {
            StringLeAntisymmetric(a.id, b.id);
            assert false;
          }
        }
      }
    }
  }

  // ---------------------------------------------------------------- Build and ResolveRaw

  method Build(profiles: seq<Profile>) returns (s: Snapshot)
    ensures Builds(s, profiles)
  {
    hide CanonicalIndex, NameIndex, WithAddress, WithName, TargetLe, StableSort, StampedTargets;
    EmptyIndexes();
    var targets: seq<Target>, canonical: map<Addr, seq<Target>>, fqdn: map<string, seq<Target>> := [], map[], map[];
    for i := 0 to |profiles|
      invariant targets == AllTargets(profiles[..i])
      invariant CanonicalIndex(canonical, targets) && NameIndex(fqdn, targets)
    {
      var p := profiles[i];
      ghost var before := targets;
      StampedNone(p);
      for j := 0 to |p.targets|
        invariant targets == before + StampedTargets(p, j)
        invariant CanonicalIndex(canonical, targets) && NameIndex(fqdn, targets)
      {
        var t := p.targets[j].(profileID := p.id, profileName := p.name, order := p.order);
        StampedNext(p, j);
        CanonicalIndexGrows(canonical, targets, t);
        NameIndexGrows(fqdn, targets, t);
        targets := targets + [t];
        canonical := canonical[t.canonical := (if t.canonical in canonical then canonical[t.canonical] else []) + [t]];
        if t.fqdn != "" {
          fqdn := fqdn[t.fqdn := (if t.fqdn in fqdn then fqdn[t.fqdn] else []) + [t]];
        }
      }
      assert profiles[..i + 1][..i] == profiles[..i];
    }
    assert profiles[..|profiles|] == profiles;
    TargetLeIsTotalPreorder();
    StableSortSorted(targets, TargetLe);
    s := Snapshot(StableSort(targets, TargetLe), canonical, fqdn);
  }

  lemma EmptyIndexes()
    ensures CanonicalIndex(map[], []) && NameIndex(map[], [])
  {
  }

  lemma CanonicalIndexGrows(m: map<Addr, seq<Target>>, ts: seq<Target>, t: Target)
    requires CanonicalIndex(m, ts)
    ensures CanonicalIndex(m[t.canonical := (if t.canonical in m then m[t.canonical] else []) + [t]], ts + [t])
  {
    assert (ts + [t])[..|ts + [t]| - 1] == ts;
  }

  lemma NameIndexGrows(m: map<string, seq<Target>>, ts: seq<Target>, t: Target)
    requires NameIndex(m, ts)
    ensures NameIndex(if t.fqdn == "" then m else m[t.fqdn := (if t.fqdn in m then m[t.fqdn] else []) + [t]], ts + [t])
  {
    assert (ts + [t])[..|ts + [t]| - 1] == ts;
  }

  lemma StampedNone(p: Profile)
    ensures StampedTargets(p, 0) == []
  {
  }

  lemma StampedNext(p: Profile, j: nat)
    requires j < |p.targets|
    ensures StampedTargets(p, j + 1) == StampedTargets(p, j) + [Stamped(p, p.targets[j])]
  {
  }

  predicate OrderLe(a: Target, b: Target) {
    a.order <= b.order
  }

  /** `ResolveRaw`: the first target after a stable sort by profile order. */
  function ResolveRaw(s: Snapshot, ip: Addr): Option<Target> {
    var v := if ip in s.canonical then s.canonical[ip] else [];
    if |v| == 0 then None else Some(StableSort(v, OrderLe)[0])
  }

  // ---------------------------------------------------------------- what it picks

  lemma {:induction false} WithAddressMembers(ts: seq<Target>, ip: Addr)
    ensures forall t :: t in WithAddress(ts, ip) <==> t in ts && t.canonical == ip
  {
    if |ts| > 0 {
      var front := ts[..|ts| - 1];
      WithAddressMembers(front, ip);
      assert ts == front + [ts[|ts| - 1]];
    }
  }

  /** t is a target of one of the profiles, with that profile's identity and its own other fields. */
  ghost predicate Owned(t: Target, profiles: seq<Profile>) {
    exists i :: 0 <= i < |profiles| && OwnedBy(t, profiles[i])
  }

  ghost predicate OwnedBy(t: Target, p: Profile) {
    exists j :: 0 <= j < |p.targets| &&
      var u := p.targets[j];
      t == Target(p.id, p.name, p.order, u.kind, u.id, u.fqdn, u.online, u.canonical)
  }

  function TargetCount(profiles: seq<Profile>): nat {
    if |profiles| == 0 then 0 else |profiles[0].targets| + TargetCount(profiles[1..])
  }

  lemma {:induction false} CountLast(profiles: seq<Profile>)
    requires |profiles| > 0
    ensures TargetCount(profiles)
         == TargetCount(profiles[..|profiles| - 1]) + |profiles[|profiles| - 1].targets|
  {
    var n := |profiles| - 1;
    if n > 0 {
      CountLast(profiles[1..]);
      assert profiles[1..][..n - 1] == profiles[..n][1..];
    }
  }

  lemma StampedMembers(p: Profile, t: Target)
    ensures t in StampedTargets(p, |p.targets|) <==> OwnedBy(t, p)
  {
    var stamped := StampedTargets(p, |p.targets|);
    if j :| 0 <= j < |stamped| && stamped[j] == t {
      assert p.targets[j] in p.targets;
    }
    if OwnedBy(t, p) {
      var j :| 0 <= j < |p.targets| && var u := p.targets[j];
               t == Target(p.id, p.name, p.order, u.kind, u.id, u.fqdn, u.online, u.canonical);
      assert stamped[j] == t;
    }
  }

  lemma OwnedLast(t: Target, front: seq<Profile>, p: Profile)
    ensures Owned(t, front + [p]) <==> Owned(t, front) || OwnedBy(t, p)
  {
    hide OwnedBy;
    var profiles := front + [p];
    assert profiles[|front|] == p && forall i :: 0 <= i < |front| ==> profiles[i] == front[i];
  }

  lemma {:induction false} AllTargetsMembers(profiles: seq<Profile>)
    ensures forall t :: t in AllTargets(profiles) <==> Owned(t, profiles)
    ensures |AllTargets(profiles)| == TargetCount(profiles)
  {
    if |profiles| > 0 {
      var n := |profiles| - 1;
      var front, p := profiles[..n], profiles[n];
      AllTargetsMembers(front);
      CountLast(profiles);
      assert AllTargets(profiles) == AllTargets(front) + StampedTargets(p, |p.targets|);
      assert profiles == front + [p];
      hide OwnedBy, Owned, AllTargets, StampedTargets;
      forall t ensures t in AllTargets(profiles) <==> Owned(t, profiles) {
        StampedMembers(p, t);
        OwnedLast(t, front, p);
      }
    }
  }

  lemma {:induction false} WithNameMembers(ts: seq<Target>, name: string)
    ensures forall t :: t in WithName(ts, name) <==> t in ts && t.fqdn == name != ""
  {
    if |ts| > 0 && name != "" {
      var front := ts[..|ts| - 1];
      WithNameMembers(front, name);
      assert ts == front + [ts[|ts| - 1]];
    }
  }

  /** The snapshot lists exactly the profiles' targets, and each index exactly those with its key. */
  lemma SnapshotMembers(s: Snapshot, profiles: seq<Profile>, t: Target, ip: Addr, name: string)
    requires Builds(s, profiles)
    ensures |s.targets| == TargetCount(profiles) && (t in s.targets <==> Owned(t, profiles))
    ensures ip in s.canonical && t in s.canonical[ip] <==> Owned(t, profiles) && t.canonical == ip
    ensures name in s.fqdn && t in s.fqdn[name] <==> Owned(t, profiles) && t.fqdn == name != ""
  {
    var all := AllTargets(profiles);
    AllTargetsMembers(profiles);
    SameMembers(s.targets, all);
    assert |s.targets| == |multiset(s.targets)| == |all|;
    WithAddressMembers(all, ip);
    WithNameMembers(all, name);
    assert WithAddress(all, ip) == if ip in s.canonical then s.canonical[ip] else [];
    assert WithName(all, name) == if name in s.fqdn then s.fqdn[name] else [];
  }

  /**
   Targets are listed by profile order, nodes before services, then by identifier with a prefix first and
   otherwise by the first differing character, and then by address.
   */
  lemma SnapshotOrder(s: Snapshot, profiles: seq<Profile>, i: nat, j: nat)
    requires Builds(s, profiles) && i < j < |s.targets|
    ensures var t, u := s.targets[i], s.targets[j];
            && t.order <= u.order
            && (t.order == u.order && t.kind == Service ==> u.kind == Service)
            && (t.order == u.order && t.kind == u.kind && !(t.id <= u.id) ==>
                  exists k :: 0 <= k < |t.id| && k < |u.id| && t.id[..k] == u.id[..k] && t.id[k] < u.id[k])
            && (t.order == u.order && t.kind == u.kind && t.id == u.id ==> AddrNum(t.canonical) <= AddrNum(u.canonical))
  {
    StringLeIff(s.targets[i].id, s.targets[j].id);
  }

  /** The choice is a target with the address, and of the lowest order among those. */
  lemma ResolvePicksLowest(s: Snapshot, profiles: seq<Profile>, ip: Addr)
    requires Builds(s, profiles)
    ensures ResolveRaw(s, ip) == None <==> forall t :: t in AllTargets(profiles) ==> t.canonical != ip
    ensures ResolveRaw(s, ip).Some? ==>
              var r := ResolveRaw(s, ip).value;
              && r in AllTargets(profiles) && r.canonical == ip
              && forall t :: t in AllTargets(profiles) && t.canonical == ip ==> r.order <= t.order
  {
    var v := WithAddress(AllTargets(profiles), ip);
    WithAddressMembers(AllTargets(profiles), ip);
    if v != [] {
      var sorted := StableSort(v, OrderLe);
      StableSortSorted(v, OrderLe);
      assert forall t :: t in v <==> t in multiset(sorted);
      assert sorted[0] in multiset(sorted);
      assert v[0] in v;
    }
  }

  /** Where the elements of a filtered list were: in the same order, and none with the address is missing. */
  lemma {:induction false} WithAddressPositions(ts: seq<Target>, ip: Addr) returns (at: seq<nat>)
    ensures |at| == |WithAddress(ts, ip)|
    ensures forall k :: 0 <= k < |at| ==> at[k] < |ts| && ts[at[k]] == WithAddress(ts, ip)[k]
    ensures forall k, l :: 0 <= k < l < |at| ==> at[k] < at[l]
    ensures forall i: nat :: i < |ts| && ts[i].canonical == ip ==> i in at
  {
    at := [];
    if |ts| > 0 {
      var n := |ts| - 1;
      at := WithAddressPositions(ts[..n], ip);
      if ts[n].canonical == ip {
        at := at + [n];
      }
    }
  }

  /** ts[i] has the address and the lowest order among those that do, and no earlier one has that order. */
  ghost predicate FirstLowest(ts: seq<Target>, ip: Addr, i: int) {
    && 0 <= i < |ts| && ts[i].canonical == ip
    && (forall j :: 0 <= j < |ts| && ts[j].canonical == ip ==> ts[i].order <= ts[j].order)
    && (forall j :: 0 <= j < i && ts[j].canonical == ip ==> ts[i].order < ts[j].order)
  }

  lemma FirstLeastIsFirstLowest(ts: seq<Target>, ip: Addr, v: seq<Target>, at: seq<nat>, k: nat)
    requires FirstLeast(v, OrderLe, k) && |at| == |v|
    requires forall l :: 0 <= l < |at| ==> at[l] < |ts| && ts[at[l]] == v[l] && v[l].canonical == ip
    requires forall l, m :: 0 <= l < m < |at| ==> at[l] < at[m]
    requires forall i: nat :: i < |ts| && ts[i].canonical == ip ==> i in at
    ensures FirstLowest(ts, ip, at[k])
  {
    var i := at[k];
    forall j: nat | j < |ts| && ts[j].canonical == ip
      ensures ts[i].order <= ts[j].order && (j < i ==> ts[i].order < ts[j].order)
    {
      var l :| 0 <= l < |at| && at[l] == j;
      assert OrderLe(v[k], v[l]);
      if j < i {
        assert l < k;
        assert !OrderLe(v[l], v[k]);
      }
    }
  }

  /** Of the targets with the address, the choice is the first in list order among those of the lowest order. */
  lemma ResolveTakesFirst(s: Snapshot, profiles: seq<Profile>, ip: Addr)
    requires Builds(s, profiles) && ResolveRaw(s, ip).Some?
    ensures exists i :: FirstLowest(AllTargets(profiles), ip, i) && AllTargets(profiles)[i] == ResolveRaw(s, ip).value
  {
    hide WithAddress, StableSort, AllTargets, SortedBy, NameIndex, FirstLowest;
    var all := AllTargets(profiles);
    var v := WithAddress(all, ip);
    HeadIsFirstLeast(v, OrderLe);
    var k: int :| FirstLeast(v, OrderLe, k) && v[k] == StableSort(v, OrderLe)[0];
    var at := WithAddressPositions(all, ip);
    WithAddressMembers(all, ip);
    FirstLeastIsFirstLowest(all, ip, v, at, k);
    assert all[at[k]] == ResolveRaw(s, ip).value;
  }

  /** Orders are list positions and identifiers are validated, so both tell profiles apart. */
  predicate DistinctProfiles(profiles: seq<Profile>) {
    forall i, j :: 0 <= i < j < |profiles| ==>
      profiles[i].order != profiles[j].order && profiles[i].id != profiles[j].id
  }

  lemma {:induction false} TargetHasProfile(profiles: seq<Profile>, t: Target)
    requires t in AllTargets(profiles)
    ensures exists p :: p in profiles && p.id == t.profileID && p.order == t.order
  {
    var last := |profiles| - 1;
    if t in AllTargets(profiles[..last]) {
      TargetHasProfile(profiles[..last], t);
    } else {
      assert profiles[last] in profiles;
    }
  }

  /** A target's order determines its profile, and the other way round. */
  lemma SameOrderSameProfile(profiles: seq<Profile>, t: Target, u: Target)
    requires DistinctProfiles(profiles) && t in AllTargets(profiles) && u in AllTargets(profiles)
    ensures t.order == u.order <==> t.profileID == u.profileID
  {
    TargetHasProfile(profiles, t);
    TargetHasProfile(profiles, u);
  }
}
