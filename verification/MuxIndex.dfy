/** What the binding indexes contain, and that the raw index agrees with the ordered first match. */
module MuxIndex {
  import opened Bytes
  import opened Text
  import opened Sorting
  import opened Inventory
  import opened Mux
  import opened Wrappers

  /** t is one of the targets, can be bound, and b is its binding. */
  ghost predicate BoundTo(b: Binding, t: Target, targets: seq<Target>, leases: map<string, Addr>,
                          index: map<string, DatapathProfile>)
  {
    t in targets && Eligible(t, leases, index) && b == Bind(t, leases, index)
  }

  ghost predicate EffectiveSound(x: Index, targets: seq<Target>, leases: map<string, Addr>,
                                 index: map<string, DatapathProfile>)
  {
    forall e :: e in x.byEffective ==>
      x.byEffective[e].effective == e && BoundTo(x.byEffective[e], x.byEffective[e].target, targets, leases, index)
  }

  ghost predicate RawSound(x: Index, targets: seq<Target>, leases: map<string, Addr>,
                           index: map<string, DatapathProfile>)
  {
    forall ip :: ip in x.raw ==>
      x.raw[ip].target.canonical == ip && BoundTo(x.raw[ip], x.raw[ip].target, targets, leases, index)
  }

  ghost predicate InboundSound(x: Index, targets: seq<Target>, leases: map<string, Addr>,
                               index: map<string, DatapathProfile>)
  {
    forall k :: k in x.byInbound ==>
      && k == InboundKey(x.byInbound[k].target.profileID, x.byInbound[k].target.canonical)
      && BoundTo(x.byInbound[k], x.byInbound[k].target, targets, leases, index)
  }

  ghost predicate Complete(x: Index, targets: seq<Target>, leases: map<string, Addr>,
                           index: map<string, DatapathProfile>)
  {
    forall t :: t in targets && Eligible(t, leases, index) ==>
      && leases[Key(t)] in x.byEffective && t.canonical in x.raw
      && InboundKey(t.profileID, t.canonical) in x.byInbound
  }

  /** Every entry is some eligible target's binding under that target's key, and every eligible target has entries. */
  ghost predicate IndexSound(x: Index, targets: seq<Target>, leases: map<string, Addr>,
                             index: map<string, DatapathProfile>)
  {
    && EffectiveSound(x, targets, leases, index) && RawSound(x, targets, leases, index)
    && InboundSound(x, targets, leases, index) && Complete(x, targets, leases, index)
  }

  lemma {:induction false} BuildIndexSound(targets: seq<Target>, leases: map<string, Addr>,
                                           index: map<string, DatapathProfile>)
    ensures IndexSound(BuildIndex(targets, leases, index), targets, leases, index)
  {
    if |targets| > 0 {
      hide Key, InboundKey, EffectiveSound, RawSound, InboundSound, Complete;
      var front, last := targets[..|targets| - 1], targets[|targets| - 1];
      var x := BuildIndex(front, leases, index);
      BuildIndexSound(front, leases, index);
      EffectiveSoundAfter(x, front, last, leases, index);
      RawSoundAfter(x, front, last, leases, index);
      InboundSoundAfter(x, front, last, leases, index);
      CompleteAfter(x, front, last, leases, index);
      assert targets == front + [last];
    }
  }

  /** One round of the loop in `New`. */
  function Extended(x: Index, t: Target, leases: map<string, Addr>, index: map<string, DatapathProfile>): Index {
    if Eligible(t, leases, index) then AddBinding(x, Bind(t, leases, index)) else x
  }

  lemma EffectiveSoundAfter(x: Index, front: seq<Target>, t: Target, leases: map<string, Addr>,
                            index: map<string, DatapathProfile>)
    requires EffectiveSound(x, front, leases, index)
    ensures EffectiveSound(Extended(x, t, leases, index), front + [t], leases, index)
  {
    hide Key, InboundKey;
    assert forall u :: u in front + [t] <==> u in front || u == t;
  }

  lemma RawSoundAfter(x: Index, front: seq<Target>, t: Target, leases: map<string, Addr>,
                      index: map<string, DatapathProfile>)
    requires RawSound(x, front, leases, index)
    ensures RawSound(Extended(x, t, leases, index), front + [t], leases, index)
  {
    hide Key, InboundKey;
    assert forall u :: u in front + [t] <==> u in front || u == t;
  }

  lemma InboundSoundAfter(x: Index, front: seq<Target>, t: Target, leases: map<string, Addr>,
                          index: map<string, DatapathProfile>)
    requires InboundSound(x, front, leases, index)
    ensures InboundSound(Extended(x, t, leases, index), front + [t], leases, index)
  {
    hide Key, InboundKey;
    assert forall u :: u in front + [t] <==> u in front || u == t;
  }

  lemma CompleteAfter(x: Index, front: seq<Target>, t: Target, leases: map<string, Addr>,
                      index: map<string, DatapathProfile>)
    requires Complete(x, front, leases, index)
    ensures Complete(Extended(x, t, leases, index), front + [t], leases, index)
  {
    hide Key, InboundKey;
    assert forall u :: u in front + [t] <==> u in front || u == t;
  }

  /**
   `raw` in hostLoop: a looked-up destination differs from the binding's effective address iff it is not effective.
   */
  lemma RawIffNotEffective(x: Index, targets: seq<Target>, leases: map<string, Addr>,
                           index: map<string, DatapathProfile>, dst: Addr)
    requires IndexSound(x, targets, leases, index) && Lookup(x, dst).Some?
    ensures dst != Lookup(x, dst).value.effective <==> dst !in x.byEffective
    ensures dst !in x.byEffective ==> Lookup(x, dst).value.target.canonical == dst
  {
    hide Key, InboundKey, InboundSound;
    var b := Lookup(x, dst).value;
    if dst !in x.byEffective {
      assert b == x.raw[dst];
      assert b.target in targets && b.effective == leases[Key(b.target)];
      assert b.effective in x.byEffective;
    }
  }

  /** A lookup finds some eligible target's binding, under its effective or its canonical address. */
  lemma LookupSound(x: Index, targets: seq<Target>, leases: map<string, Addr>, index: map<string, DatapathProfile>,
                    dst: Addr)
    requires IndexSound(x, targets, leases, index) && Lookup(x, dst).Some?
    ensures var b := Lookup(x, dst).value;
            BoundTo(b, b.target, targets, leases, index) && (dst == b.target.canonical || dst == b.effective)
  {
    hide Key, InboundKey, InboundSound, Complete, BoundTo;
  }

  // ---------------------------------------------------------------- uniqueness gives inversion

  /** No two keys share a lease. */
  ghost predicate InjectiveLeases(leases: map<string, Addr>) {
    forall k, l :: k in leases && l in leases && leases[k] == leases[l] ==> k == l
  }

  ghost predicate FreeTargets(targets: seq<Target>) {
    forall t :: t in targets ==> Free('/', t.profileID) && Free('/', t.id)
  }

  /** Within a profile, a canonical address belongs to one lease key. */
  ghost predicate UniqueCanonical(targets: seq<Target>, leases: map<string, Addr>, index: map<string, DatapathProfile>)
  {
    forall t, u :: (t in targets && u in targets && Eligible(t, leases, index) && Eligible(u, leases, index)
                    && t.profileID == u.profileID && t.canonical == u.canonical) ==> Key(t) == Key(u)
  }

  /** With injective leases, an effective address leads back to its target's profile and canonical address. */
  lemma EffectiveLookup(targets: seq<Target>, leases: map<string, Addr>, index: map<string, DatapathProfile>, t: Target)
    requires t in targets && Eligible(t, leases, index) && InjectiveLeases(leases) && FreeTargets(targets)
    ensures var x := BuildIndex(targets, leases, index);
            var e := leases[Key(t)];
            && e in x.byEffective && Lookup(x, e) == Some(x.byEffective[e])
            && x.byEffective[e].effective == e
            && x.byEffective[e].target.profileID == t.profileID && x.byEffective[e].target.canonical == t.canonical
            && x.byEffective[e].self == index[t.profileID].self && x.byEffective[e].tun == index[t.profileID].tun
  {
    hide Key, InboundKey, BuildIndex;
    BuildIndexSound(targets, leases, index);
    var b := BuildIndex(targets, leases, index).byEffective[leases[Key(t)]];
    assert BoundTo(b, b.target, targets, leases, index);
    KeyFaithful(b.target, t);
  }

  /** With canonical addresses unique per profile, the inbound index gives a target's own lease. */
  lemma InboundLookup(targets: seq<Target>, leases: map<string, Addr>, index: map<string, DatapathProfile>, t: Target)
    requires t in targets && Eligible(t, leases, index) && FreeTargets(targets)
    requires UniqueCanonical(targets, leases, index)
    ensures var x := BuildIndex(targets, leases, index);
            var k := InboundKey(t.profileID, t.canonical);
            k in x.byInbound && x.byInbound[k].effective == leases[Key(t)]
  {
    hide Key, BuildIndex, Dotted, Free;
    BuildIndexSound(targets, leases, index);
    var k := InboundKey(t.profileID, t.canonical);
    var b := BuildIndex(targets, leases, index).byInbound[k];
    var u := b.target;
    SplitUnique('/', t.profileID, Dotted(t.canonical), u.profileID, Dotted(u.canonical));
    DottedInjective(t.canonical, u.canonical);
  }

  // ---------------------------------------------------------------- agreement with ResolveRaw

  /** Position i holds the first eligible target with the address. */
  ghost predicate FirstAt(targets: seq<Target>, leases: map<string, Addr>, index: map<string, DatapathProfile>,
                          ip: Addr, i: int)
  {
    && 0 <= i < |targets|
    && forall j :: 0 <= j < i && Eligible(targets[j], leases, index) ==> targets[j].canonical != ip
  }

  /** The raw index holds the first eligible target in list order. */
  lemma {:induction false} RawIsFirst(targets: seq<Target>, leases: map<string, Addr>,
                                      index: map<string, DatapathProfile>, ip: Addr)
    requires ip in BuildIndex(targets, leases, index).raw
    ensures exists i :: 0 <= i < |targets| && FirstAt(targets, leases, index, ip, i)
                        && BuildIndex(targets, leases, index).raw[ip].target == targets[i]
  {
    if |targets| > 0 {
      hide Key, InboundKey, BuildIndex;
      var n := |targets| - 1;
      var front := targets[..n];
      var x := BuildIndex(front, leases, index);
      RawAfter(targets, leases, index, ip);
      hide Eligible, FirstAt, IndexSound;
      if ip in x.raw {
        RawIsFirst(front, leases, index, ip);
        var i :| 0 <= i < n && FirstAt(front, leases, index, ip, i) && x.raw[ip].target == front[i];
        FirstAtStays(targets, leases, index, ip, n, i);
      } else {
        BuildIndexSound(front, leases, index);
        NotBefore(x, targets, leases, index, ip, n);
      }
    }
  }

  lemma FirstAtStays(targets: seq<Target>, leases: map<string, Addr>, index: map<string, DatapathProfile>, ip: Addr,
                     n: nat, i: int)
    requires n <= |targets| && FirstAt(targets[..n], leases, index, ip, i)
    ensures FirstAt(targets, leases, index, ip, i) && targets[i] == targets[..n][i]
  {
    hide Eligible;
    assert forall j :: 0 <= j < n ==> targets[..n][j] == targets[j];
  }

  /** An address already in the raw index keeps its binding; otherwise the new target's binding is entered. */
  lemma RawAfter(targets: seq<Target>, leases: map<string, Addr>, index: map<string, DatapathProfile>, ip: Addr)
    requires |targets| > 0
    ensures var x := BuildIndex(targets[..|targets| - 1], leases, index);
            var y := BuildIndex(targets, leases, index);
            && (ip in x.raw ==> ip in y.raw && y.raw[ip] == x.raw[ip])
            && (ip in y.raw && ip !in x.raw ==> y.raw[ip].target == targets[|targets| - 1])
  {
    hide Key, InboundKey;
  }

  lemma NotBefore(x: Index, targets: seq<Target>, leases: map<string, Addr>, index: map<string, DatapathProfile>,
                  ip: Addr, n: nat)
    requires n < |targets| && IndexSound(x, targets[..n], leases, index) && ip !in x.raw
    ensures FirstAt(targets, leases, index, ip, n)
  {
    hide Key, InboundKey, Eligible;
    assert forall j :: 0 <= j < n ==> targets[j] in targets[..n];
  }

  /**
   For any arrangement that Build may produce, the raw index selects ResolveRaw's profile exactly when that
   profile has an eligible target with the address.
   */
  lemma RawIndexAgreesIff(s: Snapshot, profiles: seq<Profile>, leases: map<string, Addr>,
                          index: map<string, DatapathProfile>, ip: Addr)
    requires Builds(s, profiles) && DistinctProfiles(profiles)
    ensures var x := BuildIndex(s.targets, leases, index);
            var r := ResolveRaw(s, ip);
            && (ip in x.raw ==> r.Some?)
            && (r.Some? ==>
                  ((ip in x.raw && x.raw[ip].target.profileID == r.value.profileID) <==>
                   exists t :: t in s.targets && Eligible(t, leases, index) && t.canonical == ip
                               && t.profileID == r.value.profileID))
  {
    hide BuildIndex, ResolveRaw, Key, InboundKey, TargetLe, Eligible, FirstAt;
    var x := BuildIndex(s.targets, leases, index);
    var r := ResolveRaw(s, ip);
    ResolvePicksLowest(s, profiles, ip);
    SameMembers(s.targets, AllTargets(profiles));
    RawMember(s.targets, leases, index, ip);
    if r.Some? {
      forall t | t in s.targets && Eligible(t, leases, index) && t.canonical == ip && t.profileID == r.value.profileID
        ensures ip in x.raw && x.raw[ip].target.profileID == r.value.profileID
      {
        RawIsFirst(s.targets, leases, index, ip);
        var i :| 0 <= i < |s.targets| && FirstAt(s.targets, leases, index, ip, i) && x.raw[ip].target == s.targets[i];
        OrderOfFirst(s.targets, leases, index, ip, i, t);
        SameOrderSameProfile(profiles, r.value, t);
        SameOrderSameProfile(profiles, r.value, x.raw[ip].target);
      }
    }
  }

  lemma RawMember(targets: seq<Target>, leases: map<string, Addr>, index: map<string, DatapathProfile>, ip: Addr)
    ensures var x := BuildIndex(targets, leases, index);
            && (ip in x.raw ==>
                  x.raw[ip].target in targets && x.raw[ip].target.canonical == ip
                      && Eligible(x.raw[ip].target, leases, index))
            && (forall t :: t in targets && Eligible(t, leases, index) && t.canonical == ip ==> ip in x.raw)
  {
    hide Key, InboundKey, BuildIndex;
    BuildIndexSound(targets, leases, index);
  }

  /** When every target has a lease and a datapath profile, the two agree on domain and profile. */
  lemma RawIndexAgrees(s: Snapshot, profiles: seq<Profile>, leases: map<string, Addr>,
                       index: map<string, DatapathProfile>, ip: Addr)
    requires Builds(s, profiles) && DistinctProfiles(profiles)
    requires forall t :: t in s.targets ==> Eligible(t, leases, index)
    ensures var x := BuildIndex(s.targets, leases, index);
            var r := ResolveRaw(s, ip);
            (ip in x.raw <==> r.Some?) && (r.Some? ==> x.raw[ip].target.profileID == r.value.profileID)
  {
    hide BuildIndex, ResolveRaw, Key, TargetLe, Eligible;
    RawIndexAgreesIff(s, profiles, leases, index, ip);
    ResolvePicksLowest(s, profiles, ip);
    SameMembers(s.targets, AllTargets(profiles));
  }

  lemma OrderOfFirst(ts: seq<Target>, leases: map<string, Addr>, index: map<string, DatapathProfile>, ip: Addr,
                     i: int, t: Target)
    requires SortedBy(ts, TargetLe) && t in ts && Eligible(t, leases, index) && t.canonical == ip
    requires 0 <= i < |ts| && FirstAt(ts, leases, index, ip, i)
    ensures ts[i].order <= t.order
  {
    var k :| 0 <= k < |ts| && ts[k] == t;
    assert i <= k;
    assert i < k ==> TargetLe(ts[i], ts[k]);
  }
}
