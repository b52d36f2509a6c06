/** When the process dies: the index panic of a translation, traced to the packets that cause it, over whole runs. */
module Crashes {
  import opened Bytes
  import opened Rewrite
  import opened RewriteProofs
  import opened Keys
  import opened LazyTable
  import opened Mux
  import opened MuxRuns
  import opened NatRoundTrip
  import opened Scenario
  import opened Wrappers

  /** A host packet kills the process exactly when it is admitted and overruns. */
  lemma HostPanicsExactlyWhen(m: State, p: seq<Byte>, now: int)
    ensures HostStep(m, p, now).1.HostPanic? <==> WellFormed(p) && Admit(m, p, now).1.Some? && Overruns(p, p[9])
  {
    hide Admit, Translate, Overruns;
    AdmitEffect(m, p, now);
    match Admit(m, p, now).1
    case None =>
    case Some(b) => PanicsExactlyWhen(p, b.self, b.target.canonical, p[9]);
  }

  /** A packet from a profile does exactly when it is addressed to the profile, has a way to the host and overruns. */
  predicate Overwhelms(m: State, pid: string, p: seq<Byte>, t: Times) {
    && WellFormed(p) && pid in m.selfs && AddrAt(p, 16) == m.selfs[pid]
    && WrittenSource(m, pid, p, t).Some? && Overruns(p, p[9])
  }

  lemma ProfilePanicsExactlyWhen(m: State, pid: string, p: seq<Byte>, t: Times)
    ensures ProfileStep(m, pid, p, t).1.ProfilePanic? <==> Overwhelms(m, pid, p, t)
  {
    hide ProfileStep, WriteHost, WrittenSource, Overruns, TooShort, HeaderLength;
    if WellFormed(p) && pid in m.selfs && AddrAt(p, 16) == m.selfs[pid] && WrittenSource(m, pid, p, t).Some? {
      DecidedSource(m, pid, p, t);
      WriteHostLeaves(m, p, WrittenSource(m, pid, p, t).value);
    } else {
      NoWayToHost(m, pid, p, t);
    }
  }

  lemma NoWayToHost(m: State, pid: string, p: seq<Byte>, t: Times)
    requires WellFormed(p) && pid in m.selfs && AddrAt(p, 16) == m.selfs[pid] ==> WrittenSource(m, pid, p, t) == None
    ensures ProfileStep(m, pid, p, t).1 == ProfileDrop
  {
    hide Translate, FlowKey, FragmentKey, FragmentOffset, MoreFragments, HeaderLength, InboundKey;
  }

  /** The packet of this event kills the process. */
  predicate Fatal(w: World, e: Event) {
    match e
    case HostPacket(p, now, _) => WellFormed(p) && Admit(w.mux, p, now).1.Some? && Overruns(p, p[9])
    case ProfilePacket(tun, p, t) => tun in w.mux.loops && Overwhelms(w.mux, w.mux.loops[tun], p, t)
    case _ => false
  }

  lemma StepCrashesIff(w: World, e: Event)
    ensures Step(w, e).crashed <==> w.crashed || Fatal(w, e)
  {
    hide HostStep, ProfileStep, Admit, Overwhelms, Overruns, Kept, Opens, Reconfigure;
    match e
    case HostPacket(p, now, _) => HostPanicsExactlyWhen(w.mux, p, now);
    case ProfilePacket(tun, p, t) =>
      if tun in w.mux.loops {
        ProfilePanicsExactlyWhen(w.mux, w.mux.loops[tun], p, t);
      }
    case _ =>
  }

  /** A run from a living process ends dead exactly when one of its packets is fatal in the state it meets. */
  lemma {:induction false} RunCrashesIff(w: World, es: seq<Event>)
    requires !w.crashed
    ensures Run(w, es).crashed <==>
            exists i :: 0 <= i < |es| && !Run(w, es[..i]).crashed && Fatal(Run(w, es[..i]), es[i])
    decreases |es|
  {
    hide Step, Fatal;
    if |es| > 0 {
      var w2, rest := Step(w, es[0]), es[1..];
      StepCrashesIff(w, es[0]);
      assert Run(w, es[..0]) == w;
      forall i | 0 < i < |es| ensures Run(w, es[..i]) == Run(w2, rest[..i - 1]) {
        assert es[..i][1..] == rest[..i - 1];
      }
      if w2.crashed {
        CrashedStays(w2, rest);
      } else {
        RunCrashesIff(w2, rest);
        if Run(w2, rest).crashed {
          var j :| 0 <= j < |rest| && !Run(w2, rest[..j]).crashed && Fatal(Run(w2, rest[..j]), rest[j]);
          assert Fatal(Run(w, es[..j + 1]), es[j + 1]);
        }
      }
    }
  }

  /**
   It takes one packet: the host sends the peer a TCP segment cut after eight bytes, on whatever ports, as the first
   event of the scenario, and the process is dead.
   */
  lemma CutSegmentKills(w: World, from: U16, to: U16, pick: bool)
    requires AtStart(w)
    ensures |Segment(NAT, PEER, from, to)| >= 28
    ensures Step(w, HostPacket(Segment(NAT, PEER, from, to)[..28], 0, pick)).crashed
  {
    hide Step, Segment, Admit, Inv, RoutesToPeer, FlowOf, HeaderLength;
    SegmentBytes(NAT, PEER, from, to);
    var p := Segment(NAT, PEER, from, to)[..28];
    CutShape(p, from, to);
    CutIsAdmitted(w.mux, p, from, to);
    StepCrashesIff(w, HostPacket(p, 0, pick));
  }

  lemma CutIsAdmitted(m: State, p: seq<Byte>, from: U16, to: U16)
    requires RoutesToPeer(m) && m.flows == map[]
    requires WellFormed(p) && AddrAt(p, 12) == NAT && AddrAt(p, 16) == PEER && p[9] == TCP
    requires FlowOf("p", p, false) == Some(FlowId("p", TCP, PEER, to, from))
    ensures Admit(m, p, 0).1.Some?
  {
    hide RenderFlow, FlowOf, FragmentOffset, HeaderLength;
    FlowRendered(FlowId("p", TCP, PEER, to, from));
    assert Lookup(m.index, PEER) == Some(BINDING);
    assert Expire(map[], 0, FLOWS) == map[];
  }

  lemma CutShape(p: seq<Byte>, from: U16, to: U16)
    requires |Segment(NAT, PEER, from, to)| >= 28 && p == Segment(NAT, PEER, from, to)[..28]
    ensures WellFormed(p) && AddrAt(p, 12) == NAT && AddrAt(p, 16) == PEER && p[9] == TCP && Overruns(p, TCP)
    ensures FlowOf("p", p, false) == Some(FlowId("p", TCP, PEER, to, from))
  {
    hide Segment;
    SegmentBytes(NAT, PEER, from, to);
  }
}
