/**
 Where the runs are coarser than the code: hostLoop releases the lock on the bindings between its lookup and its
 flow entry, and profileLoop between its lookups and its fragment entry, and an Update may run in between. Here
 that Update is put there.
 */
module LockRelease {
  import opened Bytes
  import opened Rewrite
  import opened Text
  import opened Keys
  import opened LazyTable
  import opened Mux
  import opened MuxRuns

  /** Looked up under the old bindings, entered after the update. */
  function LateEntry(m: State, p: seq<Byte>, c: Config, now: int): (State, bool)
    requires RecordsFlow(m, p)
  {
    var pid := Lookup(m.index, AddrAt(p, 16)).value.target.profileID;
    AddFlow(Reconfigure(m, c.targets, c.leases, c.profiles), FlowKey(pid, p, false), p[9], now)
  }

  /** The key belongs to a profile being served. */
  ghost predicate KeyServed(key: string, selfs: map<string, Addr>) {
    exists id :: id in selfs && Free('/', id) && HasPrefix(key, id + ['/'])
  }

  lemma FlowServedIff(f: FlowId, selfs: map<string, Addr>)
    requires Free('/', f.profile)
    ensures KeyServed(RenderFlow(f), selfs) <==> f.profile in selfs
  {
    hide RenderFlow, HasPrefix, Free;
    FlowPrefix(f.profile, f);
    forall id | id in selfs && Free('/', id) && HasPrefix(RenderFlow(f), id + ['/']) ensures id == f.profile {
      FlowPrefix(id, f);
    }
  }

  lemma OwnedKeysServed(m: State, openings: seq<Opening>)
    requires FlowsOwned(m, openings)
    ensures forall k :: k in m.flows ==> KeyServed(k, m.selfs)
  {
    hide RenderFlow, HostOpened, KeyServed, Free;
    forall k | k in m.flows ensures KeyServed(k, m.selfs) {
      var f: FlowId :| k == RenderFlow(f) && Free('/', f.profile) && f.profile in m.selfs;
      FlowServedIff(f, m.selfs);
    }
  }

  /** The profiles that installing c withdraws. */
  function WithdrawnBy(m: State, c: Config): set<string> {
    m.selfs.Keys - ProfileIndex(c.profiles).Keys
  }

  /**
   The update in between leaves a flow of a profile no longer served if and only if it withdrew the packet's own
   profile, the packet has a flow key, and fewer than 65536 unexpired flows are left after the purge.
   */
  lemma LateEntryStaleIff(w: World, p: seq<Byte>, c: Config, now: int)
    requires Inv(w) && ConfigOk(c, |w.queues|) && RecordsFlow(w.mux, p)
    ensures var m := LateEntry(w.mux, p, c, now).0;
            var pid := Lookup(w.mux.index, AddrAt(p, 16)).value.target.profileID;
            (exists k :: k in m.flows && !KeyServed(k, m.selfs)) <==>
            && pid in WithdrawnBy(w.mux, c) && FlowKey(pid, p, false) != ""
            && |Expire(Forget(w.mux.flows, WithdrawnBy(w.mux, c)), now, FLOWS)| < 65536
  {
    hide BuildIndex, ProfileIndex, Lookup, FlowsOwned, FragmentsOwned, QueuesSound, RecordsSound, Isolated, Forget,
         PurgedKeys, StartLoops, KeyServed, Expire, RenderFlow, FragmentOffset, HeaderLength, Free, FlowOf, ConfigOk;
    var pid := Lookup(w.mux.index, AddrAt(p, 16)).value.target.profileID;
    LookupConfigured(w, AddrAt(p, 16));
    var m2 := Reconfigure(w.mux, c.targets, c.leases, c.profiles);
    UpdateKeepsOwned(w, c);
    OwnedKeysServed(m2, w.openings);
    var key := FlowKey(pid, p, false);
    AddEntries(m2.flows, key, p[9], now, FLOWS);
    var (m, ok) := LateEntry(w.mux, p, c, now);
    if ok {
      FlowKeyProfile(pid, p);
      FlowServedIff(FlowOf(pid, p, false).value, m.selfs);
      assert key in m.flows;
    }
  }

  /** The fragment entry of profileLoop for a first fragment looked up under the old bindings. */
  function LateFragment(m: State, pid: string, p: seq<Byte>, v: FragmentState, c: Config, now: int): State {
    PutFragment(Reconfigure(m, c.targets, c.leases, c.profiles), FragmentKey(pid, p), v, now)
  }

  lemma FragmentServedIff(f: FragmentId, selfs: map<string, Addr>)
    requires Free('/', f.profile)
    ensures KeyServed(RenderFragment(f), selfs) <==> f.profile in selfs
  {
    hide RenderFragment, HasPrefix, Free;
    FragmentPrefix(f.profile, f);
    forall id | id in selfs && Free('/', id) && HasPrefix(RenderFragment(f), id + ['/']) ensures id == f.profile {
      FragmentPrefix(id, f);
    }
  }

  lemma OwnedFragmentsServed(m: State, firsts: seq<First>)
    requires FragmentsOwned(m, firsts)
    ensures forall k :: k in m.fragments ==> KeyServed(k, m.selfs)
  {
    hide RenderFragment, LastSource, KeyServed, Free;
    forall k | k in m.fragments ensures KeyServed(k, m.selfs) {
      var f: FragmentId :| k == RenderFragment(f) && Free('/', f.profile) && f.profile in m.selfs;
      FragmentServedIff(f, m.selfs);
    }
  }

  /** The same for a fragment entry, whose key is never empty and whose limit is 8192. */
  lemma LateFragmentStaleIff(w: World, pid: string, p: seq<Byte>, v: FragmentState, c: Config, now: int)
    requires Inv(w) && ConfigOk(c, |w.queues|) && WellFormed(p) && Free('/', pid) && pid in w.mux.selfs
    ensures var m := LateFragment(w.mux, pid, p, v, c, now);
            (exists k :: k in m.fragments && !KeyServed(k, m.selfs)) <==>
            && pid in WithdrawnBy(w.mux, c)
            && |Expire(Forget(w.mux.fragments, WithdrawnBy(w.mux, c)), now, FRAGMENTS)| < 8192
  {
    hide BuildIndex, ProfileIndex, FlowsOwned, FragmentsOwned, QueuesSound, RecordsSound, Isolated, Forget,
         PurgedKeys, StartLoops, KeyServed, Expire, RenderFragment, HeaderLength, Free, ConfigOk;
    var m2 := Reconfigure(w.mux, c.targets, c.leases, c.profiles);
    UpdateKeepsOwned(w, c);
    OwnedFragmentsServed(m2, w.firsts);
    var key := FragmentKey(pid, p);
    FragmentKeyPresent(pid, p);
    AddEntries(m2.fragments, key, v, now, FRAGMENTS);
    var m := LateFragment(w.mux, pid, p, v, c, now);
    FragmentServedIff(FragmentIdOf(pid, p), m.selfs);
    if Add(m2.fragments, key, v, now, FRAGMENTS).1 {
      assert key in m.fragments;
    }
  }

  lemma FlowKeyProfile(pid: string, p: seq<Byte>)
    requires FlowKey(pid, p, false) != ""
    ensures FlowOf(pid, p, false).Some? && FlowOf(pid, p, false).value.profile == pid
    ensures FlowKey(pid, p, false) == RenderFlow(FlowOf(pid, p, false).value)
  {
    hide RenderFlow;
  }

  /**
   Such a flow lets nothing through while its profile stays withdrawn, since every packet of the profile is then
   dropped, but no later update removes it either: only its timeout does.
   */
  lemma StaleFlowIsInert(m: State, f: FlowId, q: seq<Byte>, t: Times, c: Config)
    requires Free('/', f.profile) && f.profile !in m.selfs && RenderFlow(f) in m.flows
    requires forall id :: id in m.selfs ==> Free('/', id)
    ensures ProfileStep(m, f.profile, q, t).1 == ProfileDrop
    ensures var m2 := Reconfigure(m, c.targets, c.leases, c.profiles);
            RenderFlow(f) in m2.flows && m2.flows[RenderFlow(f)] == m.flows[RenderFlow(f)]
  {
    hide BuildIndex, ProfileIndex, PurgedKeys, StartLoops, RenderFlow, Purges, Free, FirstPacket, LaterFragment,
         HeaderLength;
    var removed := m.selfs.Keys - ProfileIndex(c.profiles).Keys;
    FlowPurgedIff(removed, f);
  }
}
