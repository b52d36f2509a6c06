/**
 The round trips as events of a run: where every device keeps its profile, the loop that reads the device a packet
 was delivered to runs for that packet's profile, and writes the answer.
 */
module DeviceRoundTrip {
  import opened Bytes
  import opened Rewrite
  import opened RewriteProofs
  import opened Keys
  import opened LazyTable
  import opened Mux
  import opened MuxIndex
  import opened MuxRuns
  import opened NatRoundTrip
  import T = PacketTun
  import opened Wrappers

  /** Every device of the configuration is its profile's own, as assigned. */
  predicate Assigned(owner: map<nat, string>, profiles: seq<DatapathProfile>) {
    forall p :: p in profiles ==> p.tun in owner && owner[p.tun] == p.id
  }

  /** The loops run for the owners, and every profile being served has its loop. */
  ghost predicate LoopsMatch(w: World, owner: map<nat, string>) {
    && (forall tun :: tun in w.mux.loops ==> tun in owner && w.mux.loops[tun] == owner[tun])
    && (forall p :: p in w.config.profiles ==> p.tun in w.mux.loops)
    && Assigned(owner, w.config.profiles)
  }

  ghost predicate KeepsDevices(e: Event, owner: map<nat, string>) {
    e.Update? ==> Assigned(owner, e.config.profiles)
  }

  lemma {:induction false} StartLoopsMatch(loops: map<nat, string>, profiles: seq<DatapathProfile>,
                                           owner: map<nat, string>)
    requires Assigned(owner, profiles)
    requires forall tun :: tun in loops ==> tun in owner && loops[tun] == owner[tun]
    ensures forall tun :: tun in StartLoops(loops, profiles) ==>
              tun in owner && StartLoops(loops, profiles)[tun] == owner[tun]
    ensures forall p :: p in profiles ==> p.tun in StartLoops(loops, profiles)
    ensures forall tun :: tun in loops ==> tun in StartLoops(loops, profiles)
  {
    if |profiles| > 0 {
      var front, last := profiles[..|profiles| - 1], profiles[|profiles| - 1];
      StartLoopsMatch(loops, front, owner);
      assert forall p :: p in profiles <==> p in front || p == last;
    }
  }

  /** Only an update starts loops. */
  lemma LoopsAfter(w: World, e: Event)
    ensures !e.Update? ==> Step(w, e).mux.loops == w.mux.loops && Step(w, e).config == w.config
  {
    hide HostStep, ProfileStep, Reconfigure, Opens, Kept, T.TrySend;
    if !w.crashed {
      match e
      case HostPacket(p, now, _) => HostStepEffect(w.mux, p, now);
      case ProfilePacket(tun, p, t) =>
        if tun in w.mux.loops {
          ProfileStepEffect(w.mux, w.mux.loops[tun], p, t);
        }
      case _ =>
    }
  }

  lemma StepKeepsLoops(w: World, e: Event, owner: map<nat, string>)
    requires LoopsMatch(w, owner) && KeepsDevices(e, owner)
    ensures LoopsMatch(Step(w, e), owner)
    ensures forall tun :: tun in w.mux.loops ==> tun in Step(w, e).mux.loops
  {
    LoopsAfter(w, e);
    if e.Update? {
      UpdateKeepsLoops(w, e.config, owner);
    } else {
      hide Step;
    }
  }

  lemma UpdateKeepsLoops(w: World, c: Config, owner: map<nat, string>)
    requires LoopsMatch(w, owner) && Assigned(owner, c.profiles)
    ensures LoopsMatch(Step(w, Update(c)), owner)
    ensures forall tun :: tun in w.mux.loops ==> tun in Step(w, Update(c)).mux.loops
  {
    hide BuildIndex, ProfileIndex, StartLoops, Forget, PurgedKeys;
    StartLoopsMatch(w.mux.loops, c.profiles, owner);
  }

  /** Over every run in which the devices keep their profiles, the loops are the owners', and none ever stops. */
  lemma {:induction false} RunKeepsLoops(w: World, es: seq<Event>, owner: map<nat, string>)
    requires LoopsMatch(w, owner) && forall e :: e in es ==> KeepsDevices(e, owner)
    ensures LoopsMatch(Run(w, es), owner)
    ensures forall tun :: tun in w.mux.loops ==> tun in Run(w, es).mux.loops
    decreases |es|
  {
    hide Step, LoopsMatch, KeepsDevices;
    if |es| > 0 {
      assert es[0] in es;
      StepKeepsLoops(w, es[0], owner);
      RunKeepsLoops(Step(w, es[0]), es[1..], owner);
    }
  }

  lemma StartMatches(natAddr: Addr, config: Config, depths: seq<nat>, clock: int, owner: map<nat, string>)
    requires Assigned(owner, config.profiles)
    ensures LoopsMatch(Start(natAddr, config, depths, clock), owner)
  {
    hide BuildIndex, ProfileIndex, StartLoops;
    StartLoopsMatch(map[], config.profiles, owner);
  }

  /** A packet that hostLoop delivers goes to the device whose loop runs for the packet's profile. */
  lemma DeliveredToOwnLoop(w: World, p: seq<Byte>, now: int, owner: map<nat, string>)
    requires Configured(w) && LoopsMatch(w, owner) && HostStep(w.mux, p, now).1.Deliver?
    ensures var b := HostStep(w.mux, p, now).1.binding;
            && b.tun in w.mux.loops && w.mux.loops[b.tun] == b.target.profileID == owner[b.tun]
  {
    hide HostStep, Lookup, BuildIndex, ProfileIndex, Translate;
    HostStepEffect(w.mux, p, now);
    LookupConfigured(w, AddrAt(p, 16));
  }

  /**
   What one answer from the device does to the run: too short, nothing is written; overrunning, the process dies;
   otherwise it is written to the host from src to the NAT address.
   */
  ghost predicate AnsweredFrom(m: World, m2: World, q: seq<Byte>, src: Addr)
    requires WellFormed(q)
  {
    && (m2.crashed <==> Overruns(q, q[9]))
    && (TooShort(q, q[9]) ==> m2.written == m.written)
    && (!TooShort(q, q[9]) && !Overruns(q, q[9]) ==>
          && |m2.written| == |m.written| + 1 && m2.written[..|m.written|] == m.written
          && var r := m2.written[|m.written|];
          && r.packet == q && WellFormed(r.bytes)
          && AddrAt(r.bytes, 12) == src && AddrAt(r.bytes, 16) == m.mux.natAddr)
  }

  lemma ActionIsEvent(m: World, tun: nat, q: seq<Byte>, t: Times, src: Addr)
    requires !m.crashed && tun in m.mux.loops && WellFormed(q)
    requires LeavesFrom(ProfileStep(m.mux, m.mux.loops[tun], q, t).1, q, src, m.mux.natAddr)
    ensures AnsweredFrom(m, Step(m, ProfilePacket(tun, q, t)), q, src)
  {
    hide ProfileStep, Translate, TooShort, Overruns, Kept, HeaderLength;
  }

  /**
   Raw round trip as a run. A host packet to a raw canonical address was delivered to a device; anything happened
   that kept the profile served, the process alive and the devices with their profiles; then the device hands over
   an answer to the delivered packet within the flow's timeout. It is written to the host from that address.
   */
  lemma RawAnswerIsWritten(w: World, p: seq<Byte>, now: int, pick: bool, es: seq<Event>, q: seq<Byte>, t: Times,
                           owner: map<nat, string>)
    requires Inv(w) && !w.crashed && w.clock <= now && LoopsMatch(w, owner)
    requires HostStep(w.mux, p, now).1.Deliver? && WellFormed(p)
    requires AddrAt(p, 16) !in w.mux.index.byEffective && FragmentOffset(p) == 0
    requires EnabledRun(Step(w, HostPacket(p, now, pick)), es)
    requires forall e :: e in es ==>
               Serves(e, HostStep(w.mux, p, now).1.binding.target.profileID) && KeepsDevices(e, owner)
    requires var m := Run(Step(w, HostPacket(p, now, pick)), es);
             var Deliver(b, bytes) := HostStep(w.mux, p, now).1;
             && !m.crashed && Answers(q, bytes) && FragmentOffset(q) == 0
             && b.target.profileID in m.mux.selfs && m.mux.selfs[b.target.profileID] == AddrAt(q, 16)
             && m.clock <= t.at <= now + FlowTimeout(p[9])
    ensures var m := Run(Step(w, HostPacket(p, now, pick)), es);
            var tun := HostStep(w.mux, p, now).1.binding.tun;
            tun in m.mux.loops && AnsweredFrom(m, Step(m, ProfilePacket(tun, q, t)), q, AddrAt(p, 16))
  {
    hide Inv, Configured, LoopsMatch, Enabled, EnabledRun, Run, Step, Serves, HostStep, ProfileStep, LeavesFrom,
         AnsweredFrom, FragmentOffset, HeaderLength, Answers;
    AnswerWellFormed(q, HostStep(w.mux, p, now).1.bytes);
    var w1 := Step(w, HostPacket(p, now, pick));
    var m := Run(w1, es);
    var b := HostStep(w.mux, p, now).1.binding;
    InvConfigured(w);
    DeliveredToOwnLoop(w, p, now, owner);
    LoopAfter(w, HostPacket(p, now, pick), es, owner, b.tun);
    RawRoundTrip(w, p, now, pick, es, q, t);
    ActionIsEvent(m, b.tun, q, t, AddrAt(p, 16));
  }

  lemma AnswerWellFormed(q: seq<Byte>, p: seq<Byte>)
    requires Answers(q, p)
    ensures WellFormed(q)
  {
  }

  lemma InvConfigured(w: World)
    requires Inv(w)
    ensures Configured(w)
  {
    hide Configured;
  }

  /** A loop goes on for the same profile through an event and a run. */
  lemma LoopAfter(w: World, e: Event, es: seq<Event>, owner: map<nat, string>, tun: nat)
    requires LoopsMatch(w, owner) && KeepsDevices(e, owner) && forall x :: x in es ==> KeepsDevices(x, owner)
    requires tun in w.mux.loops
    ensures var m := Run(Step(w, e), es); tun in m.mux.loops && m.mux.loops[tun] == w.mux.loops[tun]
  {
    hide Step, Run, KeepsDevices;
    StepKeepsLoops(w, e, owner);
    RunKeepsLoops(Step(w, e), es, owner);
  }

  /** The effective round trip as an event of a later state. */
  lemma EffectiveAnswerIsWritten(w: World, p: seq<Byte>, now: int, w2: World, q: seq<Byte>, t: Times,
                                 owner: map<nat, string>)
    requires Configured(w) && Configured(w2) && !w2.crashed && LoopsMatch(w, owner) && LoopsMatch(w2, owner)
    requires HostStep(w.mux, p, now).1.Deliver? && WellFormed(p) && AddrAt(p, 16) in w.mux.index.byEffective
    requires var Deliver(b, bytes) := HostStep(w.mux, p, now).1;
             && b.tun in w2.mux.loops && StillLeased(w2, b.target, AddrAt(p, 16))
             && UniqueCanonical(w2.config.targets, w2.config.leases, ProfileIndex(w2.config.profiles))
             && Answers(q, bytes) && FragmentOffset(q) == 0
             && b.target.profileID in w2.mux.selfs && AddrAt(q, 16) == w2.mux.selfs[b.target.profileID]
    ensures var b := HostStep(w.mux, p, now).1.binding;
            var flow := Touch(w2.mux.flows, FlowKey(b.target.profileID, q, true), Some(q[9]), t.at, t.stored, FLOWS).1;
            AnsweredFrom(w2, Step(w2, ProfilePacket(b.tun, q, t)), q,
                         if flow then b.target.canonical else AddrAt(p, 16))
  {
    hide Configured, LoopsMatch, Step, HostStep, ProfileStep, LeavesFrom, AnsweredFrom, FragmentOffset, HeaderLength,
         Touch, UniqueCanonical, StillLeased, FlowKey, Answers, ProfileIndex;
    AnswerWellFormed(q, HostStep(w.mux, p, now).1.bytes);
    var b := HostStep(w.mux, p, now).1.binding;
    DeliveredToOwnLoop(w, p, now, owner);
    SameOwner(w2, owner, b.tun);
    EffectiveRoundTrip(w, p, now, w2, q, t);
    var flow := Touch(w2.mux.flows, FlowKey(b.target.profileID, q, true), Some(q[9]), t.at, t.stored, FLOWS).1;
    ActionIsEvent(w2, b.tun, q, t, if flow then b.target.canonical else AddrAt(p, 16));
  }

  lemma SameOwner(w: World, owner: map<nat, string>, tun: nat)
    requires LoopsMatch(w, owner) && tun in w.mux.loops
    ensures tun in owner && w.mux.loops[tun] == owner[tun]
  {
  }
}
