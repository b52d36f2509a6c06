/**
 Exactly what the two loops do with one packet, in terms of the packet's bytes and of what the tables hold: when
 it is passed on, from which source, and which counters move.
 */
module Decisions {
  import opened Bytes
  import opened Rewrite
  import opened RewriteProofs
  import opened Keys
  import opened LazyTable
  import opened Mux
  import opened MuxRuns
  import opened NatRoundTrip
  import opened Wrappers

  // ---------------------------------------------------------------- packets from the host

  /** Room for one more flow: fewer than 65536 are within their timeout. */
  predicate FlowRoom(m: State, now: int) {
    |Expire(m.flows, now, FLOWS)| < 65536
  }

  /**
   A host packet is passed on exactly when it comes from the NAT address, its destination is known, it is no new raw
   flow or its flow can be entered, and it is long enough to be translated. It then goes through the binding found,
   as the translation to the profile's own address and the canonical one.
   */
  lemma HostDeliversIff(m: State, p: seq<Byte>, now: int)
    ensures HostStep(m, p, now).1.Deliver? <==>
            && WellFormed(p) && AddrAt(p, 12) == m.natAddr && Lookup(m.index, AddrAt(p, 16)).Some?
            && var b := Lookup(m.index, AddrAt(p, 16)).value;
               && (|| AddrAt(p, 16) == b.effective || FragmentOffset(p) > 0
                   || (FlowKey(b.target.profileID, p, false) != "" && FlowRoom(m, now)))
               && !TooShort(p, p[9]) && !Overruns(p, p[9])
    ensures HostStep(m, p, now).1.Deliver? ==>
              var Deliver(b, bytes) := HostStep(m, p, now).1;
              && Some(b) == Lookup(m.index, AddrAt(p, 16))
              && Translate(p, b.self, b.target.canonical, p[9]) == Translation.Translated(bytes)
  {
    hide Translate, FlowKey, Lookup, TooShort, Overruns, Expire, HeaderLength, FragmentOffset;
    if WellFormed(p) && Lookup(m.index, AddrAt(p, 16)).Some? {
      var b := Lookup(m.index, AddrAt(p, 16)).value;
      RejectsExactlyWhen(p, b.self, b.target.canonical, p[9]);
      PanicsExactlyWhen(p, b.self, b.target.canonical, p[9]);
    }
  }

  /** An address that is both is an effective address, and a raw one otherwise. */
  lemma LookupPrefersEffective(m: State, dst: Addr)
    ensures Lookup(m.index, dst) ==
            if dst in m.index.byEffective then Some(m.index.byEffective[dst])
            else if dst in m.index.raw then Some(m.index.raw[dst]) else None
  {
  }

  /** The packet asked for a raw flow, had a key, and found no room. */
  predicate FlowRefused(m: State, p: seq<Byte>, now: int) {
    && RecordsFlow(m, p) && !FlowRoom(m, now)
    && FlowKey(Lookup(m.index, AddrAt(p, 16)).value.target.profileID, p, false) != ""
  }

  function CountedHost(c: Counters, dropped: bool, refused: bool): Counters {
    c.(hostPackets := c.hostPackets + 1, drops := c.drops + (if dropped then 1 else 0),
       flowLimitDrops := c.flowLimitDrops + (if refused then 1 else 0))
  }

  lemma AdmitCounts(m: State, p: seq<Byte>, now: int)
    ensures Admit(m, p, now).0.counters == CountedHost(m.counters, Admit(m, p, now).1 == None, FlowRefused(m, p, now))
  {
    hide FlowKey, Lookup, Expire, HeaderLength, FragmentOffset, AddrAt;
    if WellFormed(p) && AddrAt(p, 12) == m.natAddr && Lookup(m.index, AddrAt(p, 16)).Some? {
      var b := Lookup(m.index, AddrAt(p, 16)).value;
      EntryCounts(m, FlowKey(b.target.profileID, p, false), p[9], now);
    }
  }

  lemma EntryCounts(m: State, key: string, proto: Byte, now: int)
    ensures var m1 := m.(counters := m.counters.(hostPackets := m.counters.hostPackets + 1));
            var (m2, ok) := AddFlow(m1, key, proto, now);
            && (ok <==> key != "" && FlowRoom(m, now))
            && m2.counters == m1.counters.(flowLimitDrops := m.counters.flowLimitDrops +
                                             (if key != "" && !FlowRoom(m, now) then 1 else 0))
  {
    hide Expire;
  }

  /** Every host packet is counted; every one not passed on is a drop, and a refused flow is counted as such. */
  lemma HostCounts(m: State, p: seq<Byte>, now: int)
    requires !HostStep(m, p, now).1.HostPanic?
    ensures HostStep(m, p, now).0.counters ==
            CountedHost(m.counters, HostStep(m, p, now).1.HostDrop?, FlowRefused(m, p, now))
  {
    hide Admit, FlowRefused, Translate;
    AdmitCounts(m, p, now);
    AdmitEffect(m, p, now);
  }

  // ---------------------------------------------------------------- packets from a profile

  /** The packet's flow was last seen within its timeout: five minutes for TCP, one for UDP, else thirty seconds. */
  predicate FlowFresh(m: State, key: string, at: int) {
    && key != "" && key in m.flows
    && at - m.flows[key].seen <=
       (if m.flows[key].value == 6 then 300_000_000_000 else if m.flows[key].value == 17 then 60_000_000_000
        else 30_000_000_000)
  }

  predicate FragmentFresh(m: State, key: string, at: int) {
    key != "" && key in m.fragments && at - m.fragments[key].seen <= 30_000_000_000
  }

  /** The source a packet from the profile leaves with, if it has a way to the host. */
  function DecidedFor(m: State, pid: string, p: seq<Byte>, at: int): Option<Addr>
    requires WellFormed(p)
  {
    var src := AddrAt(p, 12);
    if FragmentOffset(p) > 0 then
      if !FragmentFresh(m, FragmentKey(pid, p), at) then None
      else
        match m.fragments[FragmentKey(pid, p)].value
        case RawReply => Some(src)
        case Bound(b) => Some(b.effective)
    else if FlowFresh(m, FlowKey(pid, p, true), at) then Some(src)
    else if InboundKey(pid, src) in m.index.byInbound then Some(m.index.byInbound[InboundKey(pid, src)].effective)
    else None
  }

  lemma DecidedAgrees(m: State, pid: string, p: seq<Byte>, t: Times)
    requires WellFormed(p)
    ensures DecidedFor(m, pid, p, t.at) == WrittenSource(m, pid, p, t)
  {
    hide FlowKey, FragmentKey, InboundKey, HeaderLength, FragmentOffset;
  }

  /**
   A packet from a profile is written exactly when it is addressed to the profile, has a way to the host and is long
   enough; it leaves from the decided source for the NAT address.
   */
  lemma ProfileWritesIff(m: State, pid: string, p: seq<Byte>, t: Times)
    ensures ProfileStep(m, pid, p, t).1.ToHost? <==>
            && WellFormed(p) && pid in m.selfs && AddrAt(p, 16) == m.selfs[pid]
            && DecidedFor(m, pid, p, t.at).Some? && !TooShort(p, p[9]) && !Overruns(p, p[9])
    ensures ProfileStep(m, pid, p, t).1.ToHost? ==>
              Translate(p, DecidedFor(m, pid, p, t.at).value, m.natAddr, p[9])
              == Translation.Translated(ProfileStep(m, pid, p, t).1.bytes)
  {
    hide ProfileStep, WriteHost, WrittenSource, DecidedFor, Overruns, TooShort, HeaderLength, Translate;
    if WellFormed(p) {
      DecidedAgrees(m, pid, p, t);
      if pid in m.selfs && AddrAt(p, 16) == m.selfs[pid] && WrittenSource(m, pid, p, t).Some? {
        DecidedSource(m, pid, p, t);
        WriteHostLeaves(m, p, WrittenSource(m, pid, p, t).value);
      } else if ProfileStep(m, pid, p, t).1.ToHost? {
        ProfileStepWrites(m, pid, p, t);
      }
    } else if ProfileStep(m, pid, p, t).1.ToHost? {
      ProfileStepWrites(m, pid, p, t);
    }
  }

  /** Every packet from a profile is counted, and a first fragment that finds no room is counted as a limit drop. */
  lemma ProfileCounts(m: State, pid: string, p: seq<Byte>, t: Times)
    ensures var c, c2 := m.counters, ProfileStep(m, pid, p, t).0.counters;
            && c2.profilePackets == c.profilePackets + 1
            && c2.fragmentLimitDrops == c.fragmentLimitDrops +
               (if && WellFormed(p) && pid in m.selfs && AddrAt(p, 16) == m.selfs[pid] && FragmentOffset(p) == 0
                   && MoreFragments(p) && DecidedFor(m, pid, p, t.at).Some?
                   && |Expire(m.fragments, t.put, FRAGMENTS)| >= 8192
                then 1 else 0)
            && c2 == c.(profilePackets := c2.profilePackets, fragmentLimitDrops := c2.fragmentLimitDrops)
  {
    hide Translate, FlowKey, FragmentKey, InboundKey, HeaderLength, FragmentOffset, MoreFragments, Expire,
         LaterFragment, FirstPacket, DecidedFor;
    if WellFormed(p) {
      FragmentKeyPresent(pid, p);
      DecidedAgrees(m, pid, p, t);
      var m1 := m.(counters := m.counters.(profilePackets := m.counters.profilePackets + 1));
      if FragmentOffset(p) > 0 {
        LaterCounts(m1, pid, p, t);
      } else {
        FirstCounts(m1, pid, p, t);
      }
    }
  }

  lemma LaterCounts(m: State, pid: string, p: seq<Byte>, t: Times)
    requires WellFormed(p)
    ensures LaterFragment(m, pid, p, ParseIPv4(p).value, t).0.counters == m.counters
  {
    hide Translate, FragmentKey, HeaderLength;
  }

  lemma FirstCounts(m: State, pid: string, p: seq<Byte>, t: Times)
    requires WellFormed(p) && FragmentOffset(p) == 0
    ensures FirstPacket(m, pid, p, ParseIPv4(p).value, t).0.counters == m.counters.(fragmentLimitDrops :=
              m.counters.fragmentLimitDrops +
              (if && MoreFragments(p) && WrittenSource(m, pid, p, t).Some?
                  && |Expire(m.fragments, t.put, FRAGMENTS)| >= 8192 then 1 else 0))
  {
    hide Translate, FlowKey, FragmentKey, InboundKey, HeaderLength, FragmentOffset, MoreFragments, Expire;
    FragmentKeyPresent(pid, p);
  }

  // ---------------------------------------------------------------- loops

  /** The first profile listed with the device. */
  function FirstWith(profiles: seq<DatapathProfile>, tun: nat): Option<string> {
    if |profiles| == 0 then None
    else if profiles[0].tun == tun then Some(profiles[0].id)
    else FirstWith(profiles[1..], tun)
  }

  lemma {:induction false} FirstWithNext(front: seq<DatapathProfile>, last: DatapathProfile, tun: nat)
    ensures FirstWith(front + [last], tun) ==
            if FirstWith(front, tun).Some? then FirstWith(front, tun)
            else if last.tun == tun then Some(last.id) else None
  {
    if |front| == 0 {
      assert front + [last] == [last];
    } else {
      assert (front + [last])[1..] == front[1..] + [last];
      FirstWithNext(front[1..], last, tun);
    }
  }

  /** A device that has a loop keeps it, and another gets a loop for the first profile listed with it, if any. */
  lemma {:induction false} FirstProfileOwnsLoop(loops: map<nat, string>, profiles: seq<DatapathProfile>, tun: nat)
    ensures tun in StartLoops(loops, profiles) <==> tun in loops || FirstWith(profiles, tun).Some?
    ensures tun in loops ==> StartLoops(loops, profiles)[tun] == loops[tun]
    ensures tun !in loops && FirstWith(profiles, tun).Some? ==>
              StartLoops(loops, profiles)[tun] == FirstWith(profiles, tun).value
  {
    if |profiles| > 0 {
      var front, last := profiles[..|profiles| - 1], profiles[|profiles| - 1];
      FirstProfileOwnsLoop(loops, front, tun);
      FirstWithNext(front, last, tun);
      assert profiles == front + [last];
    }
  }
}
