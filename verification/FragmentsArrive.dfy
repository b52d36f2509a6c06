/**
 Fragments are not lost: once the first fragment of a datagram is kept, the later ones get through for thirty
 seconds, from the source the first one gave them, whatever else happens.
 */
module FragmentsArrive {
  import opened Bytes
  import opened Rewrite
  import opened RewriteProofs
  import opened Text
  import opened Keys
  import opened LazyTable
  import opened Mux
  import opened MuxRuns
  import opened NatRoundTrip
  import opened DeviceRoundTrip
  import opened Decisions
  import T = PacketTun

  const THIRTY_SECONDS := 30_000_000_000

  /** The datagram has an entry with this value that is at least as recent as `since`. */
  ghost predicate EntryKept(m: State, f: FragmentId, v: FragmentState, since: int) {
    && RenderFragment(f) in m.fragments
    && m.fragments[RenderFragment(f)].value == v && m.fragments[RenderFragment(f)].seen >= since
  }

  /** No first fragment of the datagram is kept from the n-th on. */
  ghost predicate NoneNewer(firsts: seq<First>, n: nat, f: FragmentId) {
    forall j :: n <= j < |firsts| ==> firsts[j].id != f
  }

  lemma EntryThroughProfile(w: World, f: FragmentId, v: FragmentState, since: int, tun: nat, p: seq<Byte>, t: Times)
    requires Inv(w) && !w.crashed && tun in w.mux.loops && w.clock <= t.at && Ordered(t) && Free('/', f.profile)
    requires EntryKept(w.mux, f, v, since) && since <= w.clock && t.put <= since + THIRTY_SECONDS
    requires NoneNewer(w.firsts + Kept(w, w.mux.loops[tun], p, t), |w.firsts|, f)
    ensures EntryKept(ProfileStep(w.mux, w.mux.loops[tun], p, t).0, f, v, since)
  {
    hide ProfileStep, RenderFragment, Free, Configured, FlowsOwned, FragmentsOwned, QueuesSound, Conserved, Isolated,
         RecordsSound, FirstAttempt, HeaderLength, FragmentOffset;
    var pid := w.mux.loops[tun];
    ProfileStepFragments(w.mux, pid, p, t);
    if WellFormed(p) {
      LoopIsFree(w, tun);
      FragmentKeyFaithful(f, FragmentIdOf(pid, p));
      var firsts := w.firsts + Kept(w, pid, p, t);
      assert Kept(w, pid, p, t) != [] ==> firsts[|w.firsts|] == Kept(w, pid, p, t)[0];
    }
  }

  lemma LoopIsFree(w: World, tun: nat)
    requires Inv(w) && tun in w.mux.loops
    ensures Free('/', w.mux.loops[tun])
  {
    hide Free, ConfigOk, BuildIndex, ProfileIndex;
  }

  lemma EntryThroughStep(w: World, f: FragmentId, v: FragmentState, since: int, e: Event)
    requires Inv(w) && Enabled(w, e) && Free('/', f.profile) && Serves(e, f.profile)
    requires EntryKept(w.mux, f, v, since) && since <= w.clock && Step(w, e).clock <= since + THIRTY_SECONDS
    requires NoneNewer(Step(w, e).firsts, |w.firsts|, f)
    ensures EntryKept(Step(w, e).mux, f, v, since)
  {
    hide Inv, EntryKept, NoneNewer, Free, HostStep, ProfileStep, Reconfigure, Opens, Kept, T.TrySend;
    if !w.crashed {
      match e
      case HostPacket(p, now, pick) => HostKeepsFragments(w, p, now, pick, f, v, since);
      case ProfilePacket(tun, p, t) => EntryThroughProfile(w, f, v, since, tun, p, t);
      case Update(c) => EntryThroughUpdate(w, f, v, since, c);
      case DeviceRead(_) =>
      case DeviceClose(_) =>
    }
  }

  lemma HostKeepsFragments(w: World, p: seq<Byte>, now: int, pick: bool, f: FragmentId, v: FragmentState, since: int)
    requires !w.crashed && EntryKept(w.mux, f, v, since)
    ensures EntryKept(Step(w, HostPacket(p, now, pick)).mux, f, v, since)
  {
    hide HostStep, RenderFragment, Opens, T.TrySend;
    HostStepEffect(w.mux, p, now);
  }

  lemma EntryThroughUpdate(w: World, f: FragmentId, v: FragmentState, since: int, c: Config)
    requires Inv(w) && !w.crashed && ConfigOk(c, |w.queues|) && Free('/', f.profile)
    requires EntryKept(w.mux, f, v, since) && Serves(Update(c), f.profile)
    ensures EntryKept(Step(w, Update(c)).mux, f, v, since)
  {
    hide Inv, RenderFragment, Free, BuildIndex, ProfileIndex, StartLoops, Forget, PurgedKeys, ConfigOk;
    UpdatePurgesExactly(w, c);
    assert f.profile in Step(w, Update(c)).mux.selfs;
  }

  lemma FirstsGrow(w: World, e: Event)
    ensures |w.firsts| <= |Step(w, e).firsts| && Step(w, e).firsts[..|w.firsts|] == w.firsts
  {
    hide HostStep, ProfileStep, Reconfigure, Opens, Kept, T.TrySend;
  }

  lemma {:induction false} FirstsGrowRun(w: World, es: seq<Event>)
    ensures |w.firsts| <= |Run(w, es).firsts| && Run(w, es).firsts[..|w.firsts|] == w.firsts
    decreases |es|
  {
    hide Step;
    if |es| > 0 {
      var w2 := Step(w, es[0]);
      FirstsGrow(w, es[0]);
      FirstsGrowRun(w2, es[1..]);
      assert Run(w, es).firsts[..|w2.firsts|][..|w.firsts|] == Run(w, es).firsts[..|w.firsts|];
    }
  }

  /** Through any run that keeps serving the profile and keeps no newer first fragment, the entry stays. */
  lemma {:induction false} EntryThroughRun(w: World, f: FragmentId, v: FragmentState, since: int, es: seq<Event>)
    requires Inv(w) && EnabledRun(w, es) && Free('/', f.profile)
    requires forall e :: e in es ==> Serves(e, f.profile)
    requires EntryKept(w.mux, f, v, since) && since <= w.clock && Run(w, es).clock <= since + THIRTY_SECONDS
    requires NoneNewer(Run(w, es).firsts, |w.firsts|, f)
    ensures EntryKept(Run(w, es).mux, f, v, since)
    decreases |es|
  {
    hide Inv, EntryKept, Free, Serves, Enabled, Step;
    if |es| > 0 {
      assert es[0] in es;
      var w2, last := Step(w, es[0]), Run(w, es).firsts;
      ClockGrows(w, es[0]);
      ClockGrowsRun(w2, es[1..]);
      FirstsGrow(w, es[0]);
      FirstsGrowRun(w2, es[1..]);
      assert forall j :: 0 <= j < |w2.firsts| ==> w2.firsts[j] == last[..|w2.firsts|][j];
      EntryThroughStep(w, f, v, since, es[0]);
      StepKeepsInv(w, es[0]);
      EntryThroughRun(w2, f, v, since, es[1..]);
    }
  }

  /** Keeping a first fragment makes the entry. */
  lemma KeptMakesEntry(w: World, tun: nat, p: seq<Byte>, t: Times)
    requires Inv(w) && !w.crashed && tun in w.mux.loops && WellFormed(p)
    requires KeptState(w.mux, w.mux.loops[tun], p, t).Some?
    ensures var pid := w.mux.loops[tun];
            var w1 := Step(w, ProfilePacket(tun, p, t));
            && EntryKept(w1.mux, FragmentIdOf(pid, p), KeptState(w.mux, pid, p, t).value, t.put)
            && w1.clock == t.put && w1.mux.natAddr == w.mux.natAddr
  {
    hide ProfileStep, RenderFragment, Inv, FirstAttempt, FragmentOffset, HeaderLength, Opens;
    var pid := w.mux.loops[tun];
    AttemptGuards(w.mux, pid, p, t);
    ProfileStepFragments(w.mux, pid, p, t);
    ProfileStepEffect(w.mux, pid, p, t);
    FragmentKeyPresent(pid, p);
  }

  /** A later fragment under a fresh entry is written from the source the entry gives. */
  lemma FreshEntryWrites(m: State, pid: string, p: seq<Byte>, q: seq<Byte>, v: FragmentState, since: int, t: Times)
    requires |p| >= 20 && WellFormed(q) && FragmentOffset(q) > 0 && FragmentKey(pid, q) == FragmentKey(pid, p)
    requires EntryKept(m, FragmentIdOf(pid, p), v, since) && t.at <= since + THIRTY_SECONDS
    requires pid in m.selfs && m.selfs[pid] == AddrAt(q, 16) && AddrAt(q, 12) == AddrAt(p, 12)
    ensures LeavesFrom(ProfileStep(m, pid, q, t).1, q, FragmentSource(v, AddrAt(p, 12)), m.natAddr)
    ensures !TooShort(q, q[9]) && !Overruns(q, q[9])
  {
    hide ProfileStep, WriteHost, LeavesFrom, RenderFragment, HeaderLength;
    FragmentKeyPresent(pid, q);
    DecidedAgrees(m, pid, q, t);
    DecidedSource(m, pid, q, t);
    WriteHostLeaves(m, q, FragmentSource(v, AddrAt(p, 12)));
    LaterIsLongEnough(q);
  }

  lemma LaterIsLongEnough(q: seq<Byte>)
    requires WellFormed(q) && FragmentOffset(q) > 0
    ensures !TooShort(q, q[9]) && !Overruns(q, q[9])
  {
  }

  /**
   Fragments arrive. A first fragment p was kept; then anything happened that kept its profile served and kept no
   newer first fragment of the datagram; then, within thirty seconds, the loop of the same profile reads a later
   fragment q whose identification, protocol and address bytes are those of p. It is written to the host from the
   source that p gave it, which is the source p left with if p was written.
   */
  lemma LaterFragmentArrives(w: World, tun: nat, p: seq<Byte>, t: Times, es: seq<Event>, tun2: nat, q: seq<Byte>,
                             t2: Times)
    requires Inv(w) && !w.crashed && Enabled(w, ProfilePacket(tun, p, t)) && WellFormed(p)
    requires KeptState(w.mux, w.mux.loops[tun], p, t).Some?
    requires EnabledRun(Step(w, ProfilePacket(tun, p, t)), es)
    requires forall e :: e in es ==> Serves(e, w.mux.loops[tun])
    requires var w1 := Step(w, ProfilePacket(tun, p, t));
             var m := Run(w1, es);
             && !m.crashed && NoneNewer(m.firsts, |w1.firsts|, FragmentIdOf(w.mux.loops[tun], p))
             && tun2 in m.mux.loops && m.mux.loops[tun2] == w.mux.loops[tun]
             && w.mux.loops[tun] in m.mux.selfs && m.clock <= t2.at <= t.put + THIRTY_SECONDS
             && WellFormed(q) && m.mux.selfs[w.mux.loops[tun]] == AddrAt(q, 16) && FragmentOffset(q) > 0
    requires q[4] == p[4] && q[5] == p[5] && q[9] == p[9] && q[12..20] == p[12..20]
    ensures var m := Run(Step(w, ProfilePacket(tun, p, t)), es);
            var m2 := Step(m, ProfilePacket(tun2, q, t2));
            var source := FragmentSource(KeptState(w.mux, w.mux.loops[tun], p, t).value, AddrAt(p, 12));
            && !m2.crashed && |m2.written| == |m.written| + 1 && m2.written[..|m.written|] == m.written
            && m2.written[|m.written|].packet == q && WellFormed(m2.written[|m.written|].bytes)
            && AddrAt(m2.written[|m.written|].bytes, 12) == source
            && AddrAt(m2.written[|m.written|].bytes, 16) == m.mux.natAddr
    ensures ProfileStep(w.mux, w.mux.loops[tun], p, t).1.ToHost? ==>
              var bytes := ProfileStep(w.mux, w.mux.loops[tun], p, t).1.bytes;
              && WellFormed(bytes)
              && AddrAt(bytes, 12) == FragmentSource(KeptState(w.mux, w.mux.loops[tun], p, t).value, AddrAt(p, 12))
  {
    hide Inv, EnabledRun, Run, Step, Serves, ProfileStep, LeavesFrom, KeptState, EntryKept, NoneNewer, Free,
         FragmentOffset, HeaderLength, FragmentKey, TooShort, Overruns, FragmentSource;
    var pid, w1 := w.mux.loops[tun], Step(w, ProfilePacket(tun, p, t));
    var m, v := Run(w1, es), KeptState(w.mux, pid, p, t).value;
    KeptEntryLasts(w, tun, p, t, es);
    SameDatagram(w, tun, p, q);
    FreshEntryWrites(m.mux, pid, p, q, v, t.put, t2);
    ActionIsEvent(m, tun2, q, t2, FragmentSource(v, AddrAt(p, 12)));
    if ProfileStep(w.mux, pid, p, t).1.ToHost? {
      KeptFirstSource(w.mux, pid, p, t);
    }
  }

  lemma KeptEntryLasts(w: World, tun: nat, p: seq<Byte>, t: Times, es: seq<Event>)
    requires Inv(w) && !w.crashed && Enabled(w, ProfilePacket(tun, p, t)) && WellFormed(p)
    requires KeptState(w.mux, w.mux.loops[tun], p, t).Some?
    requires EnabledRun(Step(w, ProfilePacket(tun, p, t)), es)
    requires forall e :: e in es ==> Serves(e, w.mux.loops[tun])
    requires var w1 := Step(w, ProfilePacket(tun, p, t));
             && NoneNewer(Run(w1, es).firsts, |w1.firsts|, FragmentIdOf(w.mux.loops[tun], p))
             && Run(w1, es).clock <= t.put + THIRTY_SECONDS
    ensures EntryKept(Run(Step(w, ProfilePacket(tun, p, t)), es).mux, FragmentIdOf(w.mux.loops[tun], p),
                      KeptState(w.mux, w.mux.loops[tun], p, t).value, t.put)
  {
    hide Inv, EnabledRun, Run, Step, Serves, KeptState, EntryKept, NoneNewer, Free, HeaderLength;
    var pid, w1 := w.mux.loops[tun], Step(w, ProfilePacket(tun, p, t));
    LoopIsFree(w, tun);
    KeptMakesEntry(w, tun, p, t);
    StepKeepsInv(w, ProfilePacket(tun, p, t));
    EntryThroughRun(w1, FragmentIdOf(pid, p), KeptState(w.mux, pid, p, t).value, t.put, es);
  }

  lemma SameDatagram(w: World, tun: nat, p: seq<Byte>, q: seq<Byte>)
    requires Inv(w) && tun in w.mux.loops && |p| >= 20 && |q| >= 20
    requires q[4] == p[4] && q[5] == p[5] && q[9] == p[9] && q[12..20] == p[12..20]
    ensures FragmentKey(w.mux.loops[tun], q) == FragmentKey(w.mux.loops[tun], p) && AddrAt(q, 12) == AddrAt(p, 12)
  {
    hide Inv, Free, FragmentKey;
    LoopIsFree(w, tun);
    FragmentKeyOnBytes(w.mux.loops[tun], q, w.mux.loops[tun], p);
    AddrOfBytes(q, 12, p);
    assert q[12..16] == q[12..20][..4] && p[12..16] == p[12..20][..4];
  }
}
