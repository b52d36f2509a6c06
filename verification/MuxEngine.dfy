/**
 The multiplexer's engine as the object it is: fields updated in place, loops over its maps, packets rewritten
 in their buffers, and packet devices on the heap. Each method computes the state function of the same name.
 */
module MuxEngine {
  import opened Bytes
  import opened Rewrite
  import opened Text
  import opened Keys
  import opened LazyTable
  import opened Inventory
  import opened PacketTun
  import M = Mux
  import opened Wrappers

  /** Every device that a lookup can select is known. */
  ghost predicate UsesOnly(x: M.Index, known: set<nat>) {
    && (forall ip :: ip in x.byEffective ==> x.byEffective[ip].tun in known)
    && (forall ip :: ip in x.raw ==> x.raw[ip].tun in known)
  }

  lemma ProfileDevices(profiles: seq<M.DatapathProfile>, known: set<nat>)
    requires forall p :: p in profiles ==> p.tun in known
    ensures forall id :: id in M.ProfileIndex(profiles) ==> M.ProfileIndex(profiles)[id].tun in known
  {
    hide M.ProfileIndex;
    M.ProfileIndexSound(profiles);
  }

  lemma {:induction false} BindingsUseDevices(targets: seq<Target>, leases: map<string, Addr>,
                                              index: map<string, M.DatapathProfile>, known: set<nat>)
    requires forall id :: id in index ==> index[id].tun in known
    ensures UsesOnly(M.BuildIndex(targets, leases, index), known)
  {
    if |targets| > 0 {
      BindingsUseDevices(targets[..|targets| - 1], leases, index, known);
    }
  }

  class Engine {
    const natAddr: Addr
    /** The packet devices by identity. */
    const tuns: map<nat, Device>
    var byEffective: map<Addr, M.Binding>
    var byInbound: map<string, M.Binding>
    var raw: map<Addr, M.Binding>
    var selfByProfile: map<string, Addr>
    var flows: Table<Byte>
    var fragments: Table<M.FragmentState>
    var profileSeen: map<nat, string>
    var hostPackets: nat
    var profilePackets: nat
    var drops: nat
    var flowLimitDrops: nat
    var fragmentLimitDrops: nat
    var purgedFlows: nat
    var purgedFragments: nat

    ghost function State(): M.State
      reads this
    {
      M.State(natAddr, M.Index(byEffective, byInbound, raw), selfByProfile, flows, fragments,
              M.Counters(hostPackets, profilePackets, drops, flowLimitDrops, fragmentLimitDrops, purgedFlows,
                         purgedFragments),
              profileSeen)
    }

    /** Every binding's device exists. */
    ghost predicate Valid()
      reads `byEffective, `byInbound, `raw
    {
      UsesOnly(M.Index(byEffective, byInbound, raw), tuns.Keys)
    }

    /** One round of the loop over the targets in `New`. */
    static method IndexTargets(targets: seq<Target>, leases: map<string, Addr>, index: map<string, M.DatapathProfile>)
      returns (byEffective: map<Addr, M.Binding>, byInbound: map<string, M.Binding>, raw: map<Addr, M.Binding>)
      ensures M.Index(byEffective, byInbound, raw) == M.BuildIndex(targets, leases, index)
    {
      byEffective, byInbound, raw := map[], map[], map[];
      for i := 0 to |targets|
        invariant M.Index(byEffective, byInbound, raw) == M.BuildIndex(targets[..i], leases, index)
      {
        var t := targets[i];
        assert targets[..i + 1][..i] == targets[..i];
        if t.profileID in index && Key(t) in leases {
          var p := index[t.profileID];
          var b := M.Binding(t, leases[Key(t)], p.self, p.tun);
          byEffective := byEffective[b.effective := b];
          byInbound := byInbound[t.profileID + ['/'] + Dotted(t.canonical) := b];
          if t.canonical !in raw {
            raw := raw[t.canonical := b];
          }
        }
      }
      assert targets[..|targets|] == targets;
    }

    static method IndexProfiles(profiles: seq<M.DatapathProfile>) returns (index: map<string, M.DatapathProfile>)
      ensures index == M.ProfileIndex(profiles)
    {
      index := map[];
      for i := 0 to |profiles|
        invariant index == M.ProfileIndex(profiles[..i])
      {
        assert profiles[..i + 1][..i] == profiles[..i];
        index := index[profiles[i].id := profiles[i]];
      }
      assert profiles[..|profiles|] == profiles;
    }

    /** `New` followed by `Run`. */
    constructor (natAddr: Addr, tuns: map<nat, Device>, targets: seq<Target>, leases: map<string, Addr>,
                 profiles: seq<M.DatapathProfile>)
      requires forall p :: p in profiles ==> p.tun in tuns
      ensures State() == M.NewState(natAddr, targets, leases, profiles)
      ensures this.tuns == tuns && Valid()
    {
      var index := IndexProfiles(profiles);
      var e, i, r := IndexTargets(targets, leases, index);
      this.natAddr, this.tuns := natAddr, tuns;
      byEffective, byInbound, raw := e, i, r;
      selfByProfile := M.Selfs(index);
      flows, fragments, profileSeen := map[], map[], map[];
      hostPackets, profilePackets, drops, flowLimitDrops, fragmentLimitDrops := 0, 0, 0, 0, 0;
      purgedFlows, purgedFragments := 0, 0;
      new;
      M.ProfileIndexSound(profiles);
      BindingsUseDevices(targets, leases, index, tuns.Keys);
      EnsureProfileLoops(profiles);
    }

    method EnsureProfileLoops(profiles: seq<M.DatapathProfile>)
      modifies this`profileSeen
      ensures profileSeen == M.StartLoops(old(profileSeen), profiles)
    {
      for i := 0 to |profiles|
        invariant profileSeen == M.StartLoops(old(profileSeen), profiles[..i])
      {
        assert profiles[..i + 1][..i] == profiles[..i];
        if profiles[i].tun !in profileSeen {
          profileSeen := profileSeen[profiles[i].tun := profiles[i].id];
        }
      }
      assert profiles[..|profiles|] == profiles;
    }

    method Install(targets: seq<Target>, leases: map<string, Addr>, index: map<string, M.DatapathProfile>)
      requires forall id :: id in index ==> index[id].tun in tuns
      modifies `byEffective, `byInbound, `raw
      ensures Valid() && M.Index(byEffective, byInbound, raw) == M.BuildIndex(targets, leases, index)
    {
      byEffective, byInbound, raw := IndexTargets(targets, leases, index);
      BindingsUseDevices(targets, leases, index, tuns.Keys);
    }

    /** The profiles that the next generation no longer serves. */
    method Withdrawn(next: map<string, M.DatapathProfile>) returns (removed: set<string>)
      ensures removed == selfByProfile.Keys - next.Keys
    {
      var pending;
      removed, pending := {}, selfByProfile.Keys;
      while pending != {}
        invariant pending <= selfByProfile.Keys
        invariant removed == selfByProfile.Keys - pending - next.Keys
        decreases pending
      {
        var id :| id in pending;
        if id !in next {
          removed := removed + {id};
        }
        pending := pending - {id};
      }
    }

    /** `Update`. */
    method Update(targets: seq<Target>, leases: map<string, Addr>, profiles: seq<M.DatapathProfile>)
      requires Valid() && forall p :: p in profiles ==> p.tun in tuns
      modifies this
      ensures State() == M.Reconfigure(old(State()), targets, leases, profiles)
      ensures Valid()
    {
      hide M.BuildIndex, M.ProfileIndex, M.StartLoops, M.PurgedKeys, M.Selfs, Forget, Purges, Valid;
      var index := IndexProfiles(profiles);
      var removed := Withdrawn(index);
      ProfileDevices(profiles, tuns.Keys);
      Install(targets, leases, index);
      Retire(removed, index, profiles);
    }

    /** The part of `Update` after the bindings are in place. */
    method Retire(removed: set<string>, index: map<string, M.DatapathProfile>, profiles: seq<M.DatapathProfile>)
      modifies this`selfByProfile, this`flows, this`fragments, this`purgedFlows, this`purgedFragments, this`profileSeen
      ensures selfByProfile == M.Selfs(index) && profileSeen == M.StartLoops(old(profileSeen), profiles)
      ensures flows == Forget(old(flows), removed) && fragments == Forget(old(fragments), removed)
      ensures purgedFlows == old(purgedFlows) + |M.PurgedKeys(old(flows), removed)|
      ensures purgedFragments == old(purgedFragments) + |M.PurgedKeys(old(fragments), removed)|
    {
      hide M.StartLoops, M.PurgedKeys, M.Selfs, Forget, Purges;
      selfByProfile := M.Selfs(index);
      PurgeProfiles(removed);
      EnsureProfileLoops(profiles);
    }

    /** The inner loop of `purgeProfiles`: does any removed profile's prefix match? */
    static method Matches(removed: set<string>, key: string) returns (found: bool)
      ensures found == Purges(removed, key)
    {
      var pending := removed;
      while pending != {}
        invariant pending <= removed
        invariant !Purges(removed - pending, key)
        decreases pending
      {
        var id :| id in pending;
        if HasPrefix(key, id + ['/']) {
          return true;
        }
        pending := pending - {id};
      }
      assert removed - {} == removed;
      return false;
    }

    static method Purge<V>(t: Table<V>, removed: set<string>) returns (kept: Table<V>, count: nat)
      ensures kept == Forget(t, removed) && count == |M.PurgedKeys(t, removed)|
    {
      kept, count := t, 0;
      var pending := t.Keys;
      ghost var deleted: set<string> := {};
      while pending != {}
        invariant pending <= t.Keys
        invariant deleted == set k | k in t && k !in pending && Purges(removed, k)
        invariant kept == t - deleted && count == |deleted|
        decreases pending
      {
        var key :| key in pending;
        var found := Matches(removed, key);
        if found {
          kept, count := kept - {key}, count + 1;
          deleted := deleted + {key};
        }
        pending := pending - {key};
      }
      assert deleted == M.PurgedKeys(t, removed);
    }

    /** `purgeProfiles`. */
    method PurgeProfiles(removed: set<string>)
      modifies this`flows, this`fragments, this`purgedFlows, this`purgedFragments
      ensures flows == Forget(old(flows), removed) && fragments == Forget(old(fragments), removed)
      ensures purgedFlows == old(purgedFlows) + |M.PurgedKeys(old(flows), removed)|
      ensures purgedFragments == old(purgedFragments) + |M.PurgedKeys(old(fragments), removed)|
    {
      if |removed| == 0 {
        assert M.PurgedKeys(flows, removed) == {} && M.PurgedKeys(fragments, removed) == {};
        return;
      }
      var n;
      flows, n := Purge(flows, removed);
      purgedFlows := purgedFlows + n;
      fragments, n := Purge(fragments, removed);
      purgedFragments := purgedFragments + n;
    }

    /** The expiry loop that `addFlow` and `putFragment` start with. */
    static method ExpireIdle<V>(t: Table<V>, now: int, policy: Policy<V>) returns (kept: Table<V>)
      ensures kept == Expire(t, now, policy)
    {
      kept := t;
      var pending := t.Keys;
      while pending != {}
        invariant pending <= t.Keys && pending <= kept.Keys
        invariant kept == map k | k in t && (k in pending || Fresh(t[k], now, policy)) :: t[k]
        decreases pending
      {
        var key :| key in pending;
        if now - t[key].seen > policy.timeout(t[key].value) {
          kept := kept - {key};
        }
        pending := pending - {key};
      }
    }

    /** `addFlow`. */
    method AddFlow(key: string, proto: Byte, now: int) returns (ok: bool)
      modifies this`flows, this`flowLimitDrops
      ensures (State(), ok) == M.AddFlow(old(State()), key, proto, now)
    {
      if key == "" {
        return false;
      }
      flows := ExpireIdle(flows, now, M.FLOWS);
      if |flows| >= 65536 {
        flowLimitDrops := flowLimitDrops + 1;
        return false;
      }
      flows := flows[key := Entry(proto, now)];
      return true;
    }

    /** `touchFlow`. */
    method TouchFlow(key: string, proto: Byte, at: int, stored: int) returns (ok: bool)
      modifies this`flows
      ensures (flows, ok) == Touch(old(flows), key, Some(proto), at, stored, M.FLOWS)
    {
      if key == "" {
        return false;
      }
      if key !in flows || at - flows[key].seen > M.FlowTimeout(flows[key].value) {
        flows := flows - {key};
        return false;
      }
      flows := flows[key := Entry(proto, stored)];
      return true;
    }

    /** `putFragment`. */
    method PutFragment(key: string, v: M.FragmentState, now: int)
      modifies this`fragments, this`fragmentLimitDrops
      ensures State() == M.PutFragment(old(State()), key, v, now)
    {
      if key == "" {
        return;
      }
      fragments := ExpireIdle(fragments, now, M.FRAGMENTS);
      if |fragments| >= 8192 {
        fragmentLimitDrops := fragmentLimitDrops + 1;
        return;
      }
      fragments := fragments[key := Entry(v, now)];
    }

    /** `getFragment`. */
    method GetFragment(key: string, at: int, stored: int) returns (v: Option<M.FragmentState>)
      requires key != ""
      modifies this`fragments
      ensures (fragments, v.Some?) == Touch(old(fragments), key, None, at, stored, M.FRAGMENTS)
      ensures v.Some? ==> key in old(fragments) && v.value == old(fragments)[key].value
    {
      if key !in fragments || at - fragments[key].seen > 30 * M.SECOND {
        fragments := fragments - {key};
        return None;
      }
      v := Some(fragments[key].value);
      fragments := fragments[key := Entry(v.value, stored)];
    }

    /** The device's part of one delivery. */
    twostate predicate Sends(d: Device, bytes: seq<Byte>, pick: bool, result: SendResult)
      reads d, d.toEngine
    {
      (d.ToEngine(), result) == TrySend(old(d.ToEngine()), old(d.closed), bytes, pick)
    }

    /** The tail of `hostLoop`: translate, hand over, count. */
    method ForwardPacket(b: M.Binding, p: array<Byte>, proto: Byte, pick: bool)
      returns (alive: bool, ghost result: SendResult)
      requires b.tun in tuns && WellFormed(p[..]) && p.Length <= 0xffff
      requires tuns[b.tun].Valid() && tuns[b.tun].Foreign(p)
      modifies this`drops, p, tuns[b.tun]
      ensures tuns[b.tun].Valid() && tuns[b.tun].closed == old(tuns[b.tun].closed)
      ensures forall x: array<Byte> :: old(allocated(x)) && old(tuns[b.tun].Foreign(x)) ==> tuns[b.tun].Foreign(x)
      ensures var (m, action) := M.Forward(old(State()), b, old(p[..]), proto);
              match action
              case HostPanic => !alive
              case HostDrop => alive && State() == m && tuns[b.tun].ToEngine() == old(tuns[b.tun].ToEngine())
              case Deliver(_, bytes) =>
                && alive && Sends(tuns[b.tun], bytes, pick, result)
                && State() == if result == Sent then m else M.CountDrop(m)
    {
      hide Translate, TrySend;
      var outcome := RewritePacket(p, b.self, b.target.canonical, proto);
      match outcome
      case IndexPanic =>
        return false, Sent;
      case Failed =>
        drops := drops + 1;
        return true, Sent;
      case Done =>
        var r := tuns[b.tun].TryInject(p, pick);
        if r != Sent {
          drops := drops + 1;
        }
        return true, r;
    }

    /** The head of `hostLoop`: validate, look up, record a raw flow. */
    method AdmitPacket(p: seq<Byte>, now: int) returns (b: Option<M.Binding>)
      requires Valid()
      modifies this`hostPackets, this`drops, this`flows, this`flowLimitDrops
      ensures (State(), b) == M.Admit(old(State()), p, now)
      ensures b.Some? ==> b.value.tun in tuns && WellFormed(p)
    {
      hide FlowKey, FragmentOffset, M.AddFlow, HeaderLength;
      hostPackets := hostPackets + 1;
      if !WellFormed(p) || AddrAt(p, 12) != natAddr {
        drops := drops + 1;
        return None;
      }
      var dst := AddrAt(p, 16);
      var found: M.Binding;
      if dst in byEffective {
        found := byEffective[dst];
      } else if dst in raw {
        found := raw[dst];
      } else {
        drops := drops + 1;
        return None;
      }
      if dst != found.effective && FragmentOffset(p) == 0 {
        var ok := AddFlow(FlowKey(found.target.profileID, p, false), p[9], now);
        if !ok {
          drops := drops + 1;
          return None;
        }
      }
      return Some(found);
    }

    /**
     One round of `hostLoop` on the packet in the read buffer. The outcome says whether the process survived.
     Afterwards the engine is in the state HostStep gives, only the chosen device's queue has changed, and the read
     buffer, like every other buffer no device held, is free for the next round.
     */
    method HostRound(p: array<Byte>, now: int, pick: bool) returns (alive: bool, ghost result: SendResult)
      requires Valid() && p.Length <= 0xffff
      requires forall d :: d in tuns.Values ==> d.Valid() && d.Foreign(p)
      modifies this, p, tuns.Values
      ensures Valid()
      ensures forall d :: d in tuns.Values ==> d.Valid() && d.closed == old(d.closed)
      ensures forall d, x: array<Byte> :: d in tuns.Values && old(allocated(x)) && old(d.Foreign(x)) ==> d.Foreign(x)
      ensures var (m, action) := M.HostStep(old(State()), old(p[..]), now);
              match action
              case HostPanic => !alive
              case HostDrop => alive && State() == m
                               && forall d :: d in tuns.Values ==> d.ToEngine() == old(d.ToEngine())
              case Deliver(b, bytes) =>
                && alive && b.tun in tuns && Sends(tuns[b.tun], bytes, pick, result)
                && State() == (if result == Sent then m else M.CountDrop(m))
                && forall d :: d in tuns.Values && d != tuns[b.tun] ==> d.ToEngine() == old(d.ToEngine())
    {
      hide M.Admit, M.Forward, TrySend, Device.ToEngine, Device.Valid, UsesOnly;
      var b := AdmitPacket(p[..], now);
      if b == None {
        return true, Sent;
      }
      alive, result := ForwardPacket(b.value, p, p[9], pick);
    }

    /** The fragment branch of `profileLoop`. */
    method LaterFragment(pid: string, p: array<Byte>, t: M.Times) returns (alive: bool, written: bool)
      requires p.Length <= 0xffff && WellFormed(p[..])
      modifies this`fragments, p
      ensures match M.LaterFragment(old(State()), pid, old(p[..]), ParseIPv4(old(p[..])).value, t)
              case (_, ProfilePanic) => !alive
              case (m, ProfileDrop) => alive && !written && State() == m
              case (m, ToHost(bytes)) => alive && written && State() == m && p[..] == bytes
    {
      hide Translate, Touch, FragmentKey;
      var src, proto := AddrAt(p[..], 12), p[9];
      FragmentKeyPresent(pid, p[..]);
      var state := GetFragment(FragmentKey(pid, p[..]), t.at, t.stored);
      if state == None {
        return true, false;
      }
      var outcome := RewritePacket(p, M.FragmentSource(state.value, src), natAddr, proto);
      return outcome != IndexPanic, outcome == Done;
    }

    /** The flow and binding branches of `profileLoop`. */
    method FirstPacket(pid: string, p: array<Byte>, t: M.Times) returns (alive: bool, written: bool)
      requires p.Length <= 0xffff && WellFormed(p[..])
      modifies this`flows, this`fragments, this`fragmentLimitDrops, p
      ensures match M.FirstPacket(old(State()), pid, old(p[..]), ParseIPv4(old(p[..])).value, t)
              case (_, ProfilePanic) => !alive
              case (m, ProfileDrop) => alive && !written && State() == m
              case (m, ToHost(bytes)) => alive && written && State() == m && p[..] == bytes
    {
      hide Translate, Touch, FragmentKey, FlowKey, MoreFragments, Add;
      var src, proto := AddrAt(p[..], 12), p[9];
      var replied := TouchFlow(FlowKey(pid, p[..], true), proto, t.at, t.stored);
      if replied {
        if MoreFragments(p[..]) {
          PutFragment(FragmentKey(pid, p[..]), M.RawReply, t.put);
        }
        var outcome := RewritePacket(p, src, natAddr, proto);
        return outcome != IndexPanic, outcome == Done;
      }
      var key := pid + ['/'] + Dotted(src);
      if key !in byInbound {
        return true, false;
      }
      var b := byInbound[key];
      if MoreFragments(p[..]) {
        PutFragment(FragmentKey(pid, p[..]), M.Bound(b), t.put);
      }
      var outcome := RewritePacket(p, b.effective, natAddr, proto);
      return outcome != IndexPanic, outcome == Done;
    }

    /** One round of `profileLoop` for pid. `written` says whether the buffer went to the host. */
    method ProfileRound(pid: string, p: array<Byte>, t: M.Times) returns (alive: bool, written: bool)
      requires p.Length <= 0xffff
      modifies this, p
      ensures match M.ProfileStep(old(State()), pid, old(p[..]), t)
              case (_, ProfilePanic) => !alive
              case (m, ProfileDrop) => alive && !written && State() == m
              case (m, ToHost(bytes)) => alive && written && State() == m && p[..] == bytes
    {
      hide M.FirstPacket, M.LaterFragment, FragmentOffset, HeaderLength;
      profilePackets := profilePackets + 1;
      if !WellFormed(p[..]) || pid !in selfByProfile || AddrAt(p[..], 16) != selfByProfile[pid] {
        return true, false;
      }
      if FragmentOffset(p[..]) > 0 {
        alive, written := LaterFragment(pid, p, t);
      } else {
        alive, written := FirstPacket(pid, p, t);
      }
    }
  }
}
