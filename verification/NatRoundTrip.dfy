/** Replies come back from where the packet went: raw and effective destinations, and inbound connections. */
module NatRoundTrip {
  import opened Bytes
  import opened Rewrite
  import opened RewriteProofs
  import opened Text
  import opened Keys
  import opened LazyTable
  import opened Inventory
  import opened PacketTun
  import opened Mux
  import opened MuxIndex
  import opened MuxRuns
  import opened Wrappers

  // ---------------------------------------------------------------- a flow survives what happens meanwhile

  /** The flow has an entry of its own protocol that is at least as recent as `since`. */
  ghost predicate FlowKept(m: State, f: FlowId, since: int) {
    && RenderFlow(f) in m.flows
    && m.flows[RenderFlow(f)].seen >= since && m.flows[RenderFlow(f)].value == f.proto
  }

  lemma KeptThroughAdd(m: State, f: FlowId, since: int, key: string, g: Option<FlowId>, now: int)
    requires FlowKept(m, f, since) && since <= now <= since + FlowTimeout(f.proto)
    requires key == (match g case None => "" case Some(x) => RenderFlow(x))
    requires Free('/', f.profile) && (g.Some? ==> Free('/', g.value.profile))
    ensures FlowKept(m.(flows := Add(m.flows, key, if g.Some? then g.value.proto else 0, now, FLOWS).0), f, since)
  {
    hide RenderFlow;
    if g.Some? {
      FlowKeyFaithful(f, g.value);
    }
  }

  lemma KeptThroughTouch(m: State, f: FlowId, since: int, key: string, g: Option<FlowId>, at: int, stored: int)
    requires FlowKept(m, f, since) && since <= at <= stored && at <= since + FlowTimeout(f.proto)
    requires key == (match g case None => "" case Some(x) => RenderFlow(x))
    requires Free('/', f.profile) && (g.Some? ==> Free('/', g.value.profile))
    ensures FlowKept(m.(flows := Touch(m.flows, key, Some(if g.Some? then g.value.proto else 0), at, stored, FLOWS).0),
                     f, since)
  {
    hide RenderFlow;
    if g.Some? {
      FlowKeyFaithful(f, g.value);
    }
  }

  lemma FlowOfComponents(pid: string, p: seq<Byte>, inbound: bool)
    ensures FlowOf(pid, p, inbound).Some? ==>
              FlowOf(pid, p, inbound).value.profile == pid && FlowOf(pid, p, inbound).value.proto == p[9]
    ensures FlowKey(pid, p, inbound) ==
              match FlowOf(pid, p, inbound) case None => "" case Some(x) => RenderFlow(x)
  {
  }

  /** Adding or touching with no key leaves the table alone, whatever the value. */
  lemma KeylessAdd(t: Table<Byte>, v: Byte, u: Byte, now: int)
    ensures Add(t, "", v, now, FLOWS) == Add(t, "", u, now, FLOWS)
  {
  }

  ghost predicate Serves(e: Event, id: string) {
    e.Update? ==> id in ProfileIndex(e.config.profiles)
  }

  lemma KeptThroughHost(w: World, f: FlowId, since: int, p: seq<Byte>, now: int, pick: bool)
    requires Inv(w) && !w.crashed && w.clock <= now && Free('/', f.profile)
    requires FlowKept(w.mux, f, since) && since <= w.clock && now <= since + FlowTimeout(f.proto)
    ensures FlowKept(Step(w, HostPacket(p, now, pick)).mux, f, since)
  {
    hide HostStep, Lookup, FlowOf, RenderFlow, Free, Add, FlowKey, FragmentOffset, Configured, FlowsOwned,
         FragmentsOwned, QueuesSound, Conserved, Isolated, Addressed, Step;
    HostStepTables(w, p, now, pick);
    HostStepEffect(w.mux, p, now);
    var m2 := HostStep(w.mux, p, now).0;
    if m2.flows != w.mux.flows {
      var pid := Lookup(w.mux.index, AddrAt(p, 16)).value.target.profileID;
      LookupConfigured(w, AddrAt(p, 16));
      FlowOfComponents(pid, p, false);
      KeptThroughAdd(w.mux, f, since, FlowKey(pid, p, false), FlowOf(pid, p, false), now);
      KeylessAdd(w.mux.flows, p[9], 0, now);
    }
  }

  lemma KeptThroughProfile(w: World, f: FlowId, since: int, tun: nat, p: seq<Byte>, t: Times)
    requires Inv(w) && !w.crashed && tun in w.mux.loops && w.clock <= t.at && Ordered(t) && Free('/', f.profile)
    requires FlowKept(w.mux, f, since) && since <= w.clock && t.put <= since + FlowTimeout(f.proto)
    ensures FlowKept(Step(w, ProfilePacket(tun, p, t)).mux, f, since)
  {
    hide ProfileStep, FlowOf, RenderFlow, Free, Touch, FlowKey, FlowsOwned, FragmentsOwned,
         QueuesSound, Conserved, Isolated, Addressed, Kept;
    var pid := w.mux.loops[tun];
    ProfileStepEffect(w.mux, pid, p, t);
    var m2 := ProfileStep(w.mux, pid, p, t).0;
    if m2.flows != w.mux.flows {
      FlowOfComponents(pid, p, true);
      TouchEntries(w.mux.flows, FlowKey(pid, p, true), Some(p[9]), t.at, t.stored, FLOWS);
      KeptThroughTouch(w.mux, f, since, FlowKey(pid, p, true), FlowOf(pid, p, true), t.at, t.stored);
    }
  }

  lemma KeptThroughUpdate(w: World, f: FlowId, since: int, c: Config)
    requires Inv(w) && !w.crashed && ConfigOk(c, |w.queues|) && Free('/', f.profile)
    requires FlowKept(w.mux, f, since) && Serves(Update(c), f.profile)
    ensures FlowKept(Step(w, Update(c)).mux, f, since)
  {
    hide RenderFlow, Free, FlowsOwned, FragmentsOwned, QueuesSound, Conserved, Isolated, Addressed, BuildIndex,
         ProfileIndex, StartLoops, Forget, PurgedKeys;
    UpdatePurgesExactly(w, c);
    assert f.profile in Step(w, Update(c)).mux.selfs;
  }

  lemma KeptThroughStep(w: World, f: FlowId, since: int, e: Event)
    requires Inv(w) && Enabled(w, e) && Free('/', f.profile) && Serves(e, f.profile)
    requires FlowKept(w.mux, f, since) && since <= w.clock && Step(w, e).clock <= since + FlowTimeout(f.proto)
    ensures FlowKept(Step(w, e).mux, f, since)
  {
    hide Inv, FlowKept, Free, Serves, HostStep, ProfileStep, Reconfigure, Opens, Kept, TrySend, ConfigOk;
    if !w.crashed {
      match e
      case HostPacket(p, now, pick) => KeptThroughHost(w, f, since, p, now, pick);
      case ProfilePacket(tun, p, t) => KeptThroughProfile(w, f, since, tun, p, t);
      case Update(c) => KeptThroughUpdate(w, f, since, c);
      case DeviceRead(_) =>
      case DeviceClose(_) =>
    }
  }

  lemma ClockGrows(w: World, e: Event)
    requires Enabled(w, e)
    ensures Step(w, e).clock >= w.clock
  {
    hide HostStep, ProfileStep, Reconfigure, Opens, Kept, TrySend, ConfigOk;
  }

  lemma {:induction false} ClockGrowsRun(w: World, es: seq<Event>)
    requires EnabledRun(w, es)
    ensures Run(w, es).clock >= w.clock
    decreases |es|
  {
    hide Enabled, Step;
    if |es| > 0 {
      ClockGrows(w, es[0]);
      ClockGrowsRun(Step(w, es[0]), es[1..]);
    }
  }

  /** Through any run that keeps serving the profile, a flow stays until its timeout. */
  lemma {:induction false} KeptThroughRun(w: World, f: FlowId, since: int, es: seq<Event>)
    requires Inv(w) && EnabledRun(w, es) && Free('/', f.profile)
    requires forall e :: e in es ==> Serves(e, f.profile)
    requires FlowKept(w.mux, f, since) && since <= w.clock && Run(w, es).clock <= since + FlowTimeout(f.proto)
    ensures FlowKept(Run(w, es).mux, f, since)
    decreases |es|
  {
    hide Inv, FlowKept, Free, Serves, Enabled, Step;
    if |es| > 0 {
      assert es[0] in es;
      ClockGrows(w, es[0]);
      ClockGrowsRun(Step(w, es[0]), es[1..]);
      KeptThroughStep(w, f, since, es[0]);
      StepKeepsInv(w, es[0]);
      KeptThroughRun(Step(w, es[0]), f, since, es[1..]);
    }
  }

  // ---------------------------------------------------------------- raw destinations

  /** Translation leaves the ports and the echo identifier alone. */
  lemma TranslationKeepsFlow(pid: string, p: seq<Byte>, src: Addr, dst: Addr, bytes: seq<Byte>)
    requires WellFormed(p) && Translate(p, src, dst, p[9]) == Translation.Translated(bytes) && AddrAt(p, 16) == dst
    ensures FlowOf(pid, bytes, false) == FlowOf(pid, p, false)
  {
    hide Translate;
    TranslationTouchesOnly(p, src, dst, p[9]);
    hide FragmentOffset, MoreFragments;
    var n := HeaderLength(p);
    if (IsTransport(p[9]) && |p| >= n + 4) || (p[9] == ICMP && |p| >= n + 6) {
      var i := if p[9] == ICMP then n + 4 else n;
      assert forall k :: i <= k < i + (if p[9] == ICMP then 2 else 4) ==> bytes[k] == p[k];
    }
  }

  /**
   The packet q goes to the host as a translation of itself from src to the NAT address, unless it is too short
   for its protocol; then it is dropped, or overruns the buffer.
   */
  ghost predicate LeavesFrom(action: ProfileAction, q: seq<Byte>, src: Addr, natAddr: Addr)
    requires WellFormed(q)
  {
    && (action.ProfileDrop? <==> TooShort(q, q[9]))
    && (action.ProfilePanic? <==> Overruns(q, q[9]))
    && (action.ToHost? ==>
          && Translate(q, src, natAddr, q[9]) == Translation.Translated(action.bytes)
          && WellFormed(action.bytes) && AddrAt(action.bytes, 12) == src && AddrAt(action.bytes, 16) == natAddr)
  }

  lemma WriteHostLeaves(m: State, q: seq<Byte>, src: Addr)
    requires WellFormed(q)
    ensures LeavesFrom(WriteHost(m, q, src, q[9]).1, q, src, m.natAddr)
  {
    hide Translate, TooShort, Overruns;
    RejectsExactlyWhen(q, src, m.natAddr, q[9]);
    PanicsExactlyWhen(q, src, m.natAddr, q[9]);
    if WriteHost(m, q, src, q[9]).1.ToHost? {
      TranslationTouchesOnly(q, src, m.natAddr, q[9]);
    }
  }

  lemma DecidedSource(m: State, pid: string, q: seq<Byte>, t: Times)
    requires WellFormed(q) && pid in m.selfs && AddrAt(q, 16) == m.selfs[pid] && WrittenSource(m, pid, q, t).Some?
    ensures ProfileStep(m, pid, q, t).1 == WriteHost(m, q, WrittenSource(m, pid, q, t).value, q[9]).1
  {
    hide Translate, FlowKey, FragmentKey, Add, HeaderLength, InboundKey, FragmentOffset, MoreFragments;
  }

  /** A delivery for a destination that is not an effective address recorded the flow. */
  lemma RawDeliveryRecordsFlow(w: World, p: seq<Byte>, now: int, pick: bool)
    requires Inv(w) && !w.crashed && HostStep(w.mux, p, now).1.Deliver?
    requires WellFormed(p) && AddrAt(p, 16) !in w.mux.index.byEffective && FragmentOffset(p) == 0
    ensures var b := HostStep(w.mux, p, now).1.binding;
            && b.target.canonical == AddrAt(p, 16) && Free('/', b.target.profileID)
            && FlowOf(b.target.profileID, p, false).Some?
            && FlowKept(Step(w, HostPacket(p, now, pick)).mux, FlowOf(b.target.profileID, p, false).value, now)
  {
    hide Lookup, RenderFlow, Free, Add, FragmentOffset, BuildIndex, FlowsOwned, FragmentsOwned, HeaderLength,
         QueuesSound, Conserved, Isolated, Addressed, TrySend, Translate, IndexSound, FlowOf;
    HostStepEffect(w.mux, p, now);
    LookupConfigured(w, AddrAt(p, 16));
    var index := ProfileIndex(w.config.profiles);
    BuildIndexSound(w.config.targets, w.config.leases, index);
    RawIffNotEffective(w.mux.index, w.config.targets, w.config.leases, index, AddrAt(p, 16));
    var b := HostStep(w.mux, p, now).1.binding;
    var key := FlowKey(b.target.profileID, p, false);
    AddEntries(w.mux.flows, key, p[9], now, FLOWS);
    FlowOfComponents(b.target.profileID, p, false);
  }

  /**
   Raw round trip. A host packet to a raw canonical address was delivered; then anything happened that kept the
   profile served and the process alive; then an answer to the delivered packet arrives within the flow's
   timeout at the profile's unchanged own address. Unless it is too short to be translated, it is written to the
   host from that canonical address.
   */
  lemma RawRoundTrip(w: World, p: seq<Byte>, now: int, pick: bool, es: seq<Event>, q: seq<Byte>, t: Times)
    requires Inv(w) && !w.crashed && w.clock <= now
    requires HostStep(w.mux, p, now).1.Deliver? && WellFormed(p)
    requires AddrAt(p, 16) !in w.mux.index.byEffective && FragmentOffset(p) == 0
    requires EnabledRun(Step(w, HostPacket(p, now, pick)), es)
    requires forall e :: e in es ==> Serves(e, HostStep(w.mux, p, now).1.binding.target.profileID)
    requires var m := Run(Step(w, HostPacket(p, now, pick)), es);
             var Deliver(b, bytes) := HostStep(w.mux, p, now).1;
             && Answers(q, bytes) && FragmentOffset(q) == 0
             && b.target.profileID in m.mux.selfs && m.mux.selfs[b.target.profileID] == AddrAt(q, 16)
             && m.clock <= t.at <= now + FlowTimeout(p[9])
    ensures var m := Run(Step(w, HostPacket(p, now, pick)), es).mux;
            var action := ProfileStep(m, HostStep(w.mux, p, now).1.binding.target.profileID, q, t).1;
            LeavesFrom(action, q, AddrAt(p, 16), m.natAddr)
  {
    hide LeavesFrom, Inv, Enabled, EnabledRun, Run, Step, Free, FragmentOffset, RenderFlow, FlowOf, Serves, Translate,
         HostStep, ProfileStep, WriteHost, HeaderLength, MoreFragments;
    var Deliver(b, bytes) := HostStep(w.mux, p, now).1;
    var pid := b.target.profileID;
    var w1 := Step(w, HostPacket(p, now, pick));
    var m := Run(w1, es).mux;
    HostStepEffect(w.mux, p, now);
    RawDeliveryRecordsFlow(w, p, now, pick);
    var f := FlowOf(pid, p, false).value;
    FlowOfComponents(pid, p, false);
    AfterHostPacket(w, p, now, pick);
    KeptThroughRun(w1, f, now, es);
    TranslationKeepsFlow(pid, p, b.self, b.target.canonical, bytes);
    ReplySharesFlow(pid, bytes, q);
    FlowOfComponents(pid, q, true);
    ReplySource(p, b.self, b.target.canonical, bytes, q);
    assert Touch(m.flows, FlowKey(pid, q, true), Some(q[9]), t.at, t.stored, FLOWS).1 by {
      FlowRendered(f);
    }
    DecidedSource(m, pid, q, t);
    WriteHostLeaves(m, q, AddrAt(p, 16));
  }

  lemma AfterHostPacket(w: World, p: seq<Byte>, now: int, pick: bool)
    requires Inv(w) && !w.crashed && w.clock <= now
    ensures Inv(Step(w, HostPacket(p, now, pick))) && Step(w, HostPacket(p, now, pick)).clock == now
  {
    hide Inv, HostStep, TrySend;
    StepKeepsInv(w, HostPacket(p, now, pick));
  }

  lemma ReplySource(p: seq<Byte>, src: Addr, dst: Addr, bytes: seq<Byte>, q: seq<Byte>)
    requires WellFormed(p) && Translate(p, src, dst, p[9]) == Translation.Translated(bytes) && Answers(q, bytes)
    ensures AddrAt(q, 12) == dst
  {
    hide Translate;
    TranslationTouchesOnly(p, src, dst, p[9]);
  }

  // ---------------------------------------------------------------- effective destinations

  /** The target is still configured, with the same lease and a profile that is served. */
  ghost predicate StillLeased(w: World, t: Target, lease: Addr) {
    && t in w.config.targets && Eligible(t, w.config.leases, ProfileIndex(w.config.profiles))
    && w.config.leases[Key(t)] == lease
  }

  /**
   Effective round trip. A host packet to an effective address was delivered; in a later state that still
   leases the address to the target, with canonical addresses unique per profile, an answer from that peer that
   is long enough goes to the host. It leaves from that effective address if and only if no raw flow is live
   under its key, or the effective address is the canonical one; otherwise it leaves from the canonical address.
   */
  lemma EffectiveRoundTrip(w: World, p: seq<Byte>, now: int, w2: World, q: seq<Byte>, t: Times)
    requires Configured(w) && Configured(w2)
    requires HostStep(w.mux, p, now).1.Deliver? && WellFormed(p) && AddrAt(p, 16) in w.mux.index.byEffective
    requires var Deliver(b, bytes) := HostStep(w.mux, p, now).1;
             var pid := b.target.profileID;
             && StillLeased(w2, b.target, AddrAt(p, 16))
             && UniqueCanonical(w2.config.targets, w2.config.leases, ProfileIndex(w2.config.profiles))
             && Answers(q, bytes) && FragmentOffset(q) == 0
             && pid in w2.mux.selfs && AddrAt(q, 16) == w2.mux.selfs[pid]
    ensures var b := HostStep(w.mux, p, now).1.binding;
            var pid := b.target.profileID;
            var action := ProfileStep(w2.mux, pid, q, t).1;
            var flow := Touch(w2.mux.flows, FlowKey(pid, q, true), Some(q[9]), t.at, t.stored, FLOWS).1;
            && LeavesFrom(action, q, if flow then b.target.canonical else AddrAt(p, 16), w2.mux.natAddr)
            && (action.ToHost? ==>
                  (AddrAt(action.bytes, 12) == AddrAt(p, 16) <==> !flow || b.target.canonical == AddrAt(p, 16)))
  {
    hide BuildIndex, HostStep, Lookup, Translate, ProfileStep, WriteHost, FlowKey, Touch, FragmentOffset, Key,
         InboundKey, UniqueCanonical, HeaderLength, TooShort, Overruns;
    HostStepEffect(w.mux, p, now);
    var Deliver(b, bytes) := HostStep(w.mux, p, now).1;
    ReplySource(p, b.self, b.target.canonical, bytes, q);
    InboundLookup(w2.config.targets, w2.config.leases, ProfileIndex(w2.config.profiles), b.target);
    DecidedSource(w2.mux, b.target.profileID, q, t);
    WriteHostLeaves(w2.mux, q, WrittenSource(w2.mux, b.target.profileID, q, t).value);
  }

  // ---------------------------------------------------------------- connections from a peer

  /** What hostLoop does with a packet for a target once it is admitted. */
  ghost predicate GoesTo(action: HostAction, s: seq<Byte>, prof: DatapathProfile, canonical: Addr)
    requires WellFormed(s)
  {
    match Translate(s, prof.self, canonical, s[9])
    case Translated(x) =>
      action.Deliver? && action.bytes == x && action.binding.tun == prof.tun
          && action.binding.target.profileID == prof.id
    case Rejected(_) => action == HostDrop
    case Panicked => action == HostPanic
  }

  /** With injective leases, a host packet to a leased address goes to exactly that target, without a flow entry. */
  lemma EffectiveDelivery(w: World, s: seq<Byte>, now: int, t: Target)
    requires Configured(w) && WellFormed(s) && AddrAt(s, 12) == w.mux.natAddr
    requires StillLeased(w, t, AddrAt(s, 16)) && InjectiveLeases(w.config.leases)
    ensures GoesTo(HostStep(w.mux, s, now).1, s, ProfileIndex(w.config.profiles)[t.profileID], t.canonical)
    ensures HostStep(w.mux, s, now).0.flows == w.mux.flows
  {
    hide BuildIndex, Translate, FlowKey, FragmentOffset, Key, InboundKey, InjectiveLeases, HeaderLength, AddFlow,
         FreeTargets, Free, Lookup, Configured;
    var index := ProfileIndex(w.config.profiles);
    ConfiguredIndex(w);
    EffectiveLookup(w.config.targets, w.config.leases, index, t);
    ProfileIndexSound(w.config.profiles);
    var b := w.mux.index.byEffective[AddrAt(s, 16)];
    assert Admit(w.mux, s, now).1 == Some(b);
  }

  lemma ConfiguredIndex(w: World)
    requires Configured(w)
    ensures w.mux.index == BuildIndex(w.config.targets, w.config.leases, ProfileIndex(w.config.profiles))
    ensures FreeTargets(w.config.targets)
  {
  }

  /**
   Inbound round trip. A peer's packet reached the host through its binding; in a later state that still leases
   the same address to the target and whose leases are injective, the host's reply goes to the same profile, from
   the profile's own address to the same canonical peer.
   */
  lemma InboundRoundTrip(w: World, pid: string, p: seq<Byte>, t: Times, w2: World, s: seq<Byte>, now: int)
    requires Configured(w) && Configured(w2) && Free('/', pid)
    requires ProfileStep(w.mux, pid, p, t).1.ToHost? && WellFormed(p) && FragmentOffset(p) == 0
    requires !Touch(w.mux.flows, FlowKey(pid, p, true), Some(p[9]), t.at, t.stored, FLOWS).1
    requires InboundKey(pid, AddrAt(p, 12)) in w.mux.index.byInbound
    requires var b := w.mux.index.byInbound[InboundKey(pid, AddrAt(p, 12))];
             StillLeased(w2, b.target, b.effective) && InjectiveLeases(w2.config.leases)
    requires var r := ProfileStep(w.mux, pid, p, t).1.bytes;
             && WellFormed(r) && WellFormed(s) && AddrAt(s, 12) == w2.mux.natAddr && AddrAt(s, 16) == AddrAt(r, 12)
    ensures var u := w.mux.index.byInbound[InboundKey(pid, AddrAt(p, 12))].target;
            && u.profileID == pid && u.canonical == AddrAt(p, 12) && pid in ProfileIndex(w2.config.profiles)
            && GoesTo(HostStep(w2.mux, s, now).1, s, ProfileIndex(w2.config.profiles)[pid], AddrAt(p, 12))
  {
    hide BuildIndex, Translate, ProfileStep, FlowKey, Touch, FragmentOffset, Key, InboundKey, HostStep, Configured,
         InjectiveLeases, HeaderLength, Free, GoesTo;
    InboundConfigured(w, pid, AddrAt(p, 12));
    BindingSource(w.mux, pid, p, t);
    EffectiveDelivery(w2, s, now, w.mux.index.byInbound[InboundKey(pid, AddrAt(p, 12))].target);
  }

  /** Without a flow, an unfragmented packet reaches the host with its binding's effective address. */
  lemma BindingSource(m: State, pid: string, p: seq<Byte>, t: Times)
    requires ProfileStep(m, pid, p, t).1.ToHost? && WellFormed(p) && FragmentOffset(p) == 0
    requires !Touch(m.flows, FlowKey(pid, p, true), Some(p[9]), t.at, t.stored, FLOWS).1
    requires InboundKey(pid, AddrAt(p, 12)) in m.index.byInbound
    ensures var r := ProfileStep(m, pid, p, t).1.bytes;
            WellFormed(r) && AddrAt(r, 12) == m.index.byInbound[InboundKey(pid, AddrAt(p, 12))].effective
  {
    hide Translate, ProfileStep, FlowKey, Touch, FragmentOffset, InboundKey, HeaderLength;
    ProfileStepWrites(m, pid, p, t);
    TranslationTouchesOnly(p, WrittenSource(m, pid, p, t).value, m.natAddr, p[9]);
  }
}
