/**
 The flow table at its limit, on a real run: the host opens 65536 flows to one peer at one instant, and then
 sends again on the first of them.
 */
module FullTable {
  import opened Bytes
  import opened Rewrite
  import opened Keys
  import opened LazyTable
  import opened Mux
  import opened MuxRuns
  import opened NatRoundTrip
  import T = PacketTun
  import opened Scenario
  import opened Wrappers

  /** The host's flow from local port 22 to the peer's port `to`. */
  function Flow(to: U16): FlowId {
    FlowId("p", TCP, PEER, to, 22)
  }

  function Opening(to: U16): seq<Byte> {
    Segment(NAT, PEER, 22, to)
  }

  /** One packet to each of the first n ports, all at time 0. */
  function Flood(n: nat): seq<Event>
    requires n <= 65536
  {
    if n == 0 then [] else Flood(n - 1) + [HostPacket(Opening(n - 1), 0, true)]
  }

  /** The table after n of them. */
  function Entries(n: nat): Table<Byte>
    requires n <= 65536
  {
    if n == 0 then map[] else Entries(n - 1)[RenderFlow(Flow(n - 1)) := Entry(TCP, 0)]
  }

  lemma {:induction false} EntriesShape(n: nat)
    requires n <= 65536
    ensures |Entries(n)| == n
    ensures forall k :: k in Entries(n) ==>
            Entries(n)[k] == Entry(TCP, 0) && exists i: nat :: i < n && k == RenderFlow(Flow(i))
    ensures forall i: nat :: i < n ==> RenderFlow(Flow(i)) in Entries(n)
  {
    hide RenderFlow;
    if n > 0 {
      EntriesShape(n - 1);
      if RenderFlow(Flow(n - 1)) in Entries(n - 1) {
        var i: nat :| i < n - 1 && RenderFlow(Flow(n - 1)) == RenderFlow(Flow(i));
        FlowKeyFaithful(Flow(n - 1), Flow(i));
      }
    }
  }

  lemma OpeningFlow(to: U16)
    ensures WellFormed(Opening(to)) && AddrAt(Opening(to), 12) == NAT && AddrAt(Opening(to), 16) == PEER
    ensures Opening(to)[9] == TCP && FragmentOffset(Opening(to)) == 0
    ensures FlowKey("p", Opening(to), false) == RenderFlow(Flow(to)) != ""
  {
    hide Segment, RenderFlow;
    SegmentBytes(NAT, PEER, 22, to);
    SegmentShape(Opening(to));
    FlowRendered(Flow(to));
  }

  /** The world of the scenario while it lives, with the given flow table. */
  ghost predicate Flooded(w: World, flows: Table<Byte>) {
    !w.crashed && w.clock == 0 && w.mux.flows == flows && RoutesToPeer(w.mux)
  }

  lemma FullOfFresh(n: nat)
    requires n <= 65536
    ensures Expire(Entries(n), 0, FLOWS) == Entries(n)
  {
    EntriesShape(n);
  }

  /** A packet that opens a flow: it is entered if there is room, and otherwise dropped and counted. */
  lemma OpeningStep(w: World, n: nat, to: U16)
    requires n <= 65536 && Flooded(w, Entries(n))
    ensures var (m, action) := HostStep(w.mux, Opening(to), 0);
            && !action.HostPanic?
            && m.flows == (if n < 65536 then Entries(n)[RenderFlow(Flow(to)) := Entry(TCP, 0)] else Entries(n))
            && (n == 65536 ==> action == HostDrop && m.counters.flowLimitDrops == w.mux.counters.flowLimitDrops + 1)
  {
    hide Segment, Translate, RenderFlow, Expire, FragmentOffset, HeaderLength, FlowKey, Entries;
    var p := Opening(to);
    OpeningFlow(to);
    EntriesShape(n);
    FullOfFresh(n);
    OpeningTranslates(to);
    assert Lookup(w.mux.index, PEER) == Some(BINDING);
  }

  lemma OpeningTranslates(to: U16)
    ensures WellFormed(Opening(to)) && Translate(Opening(to), SELF, PEER, TCP).Translated?
  {
    hide Translate, Segment;
    SegmentBytes(NAT, PEER, 22, to);
    SegmentTranslates(Opening(to), SELF, PEER);
  }

  lemma {:induction false} RunSnoc(w: World, es: seq<Event>, e: Event)
    requires EnabledRun(w, es) && Enabled(Run(w, es), e)
    ensures EnabledRun(w, es + [e]) && Run(w, es + [e]) == Step(Run(w, es), e)
    decreases |es|
  {
    hide Step, Enabled;
    if |es| == 0 {
      assert es + [e] == [e];
      assert [e][1..] == [];
    } else {
      RunSnoc(Step(w, es[0]), es[1..], e);
      assert (es + [e])[1..] == es[1..] + [e];
    }
  }

  lemma FloodNext(w: World, n: nat)
    requires n < 65536 && Flooded(w, Entries(n))
    ensures Enabled(w, HostPacket(Opening(n), 0, true))
    ensures Flooded(Step(w, HostPacket(Opening(n), 0, true)), Entries(n + 1))
  {
    hide Step, Segment, RenderFlow, HostStep;
    OpeningStep(w, n, n);
    AfterOpening(w, Opening(n));
  }

  lemma {:induction false} FloodRun(w: World, n: nat)
    requires n <= 65536 && Flooded(w, map[])
    ensures EnabledRun(w, Flood(n))
    ensures Flooded(Run(w, Flood(n)), Entries(n))
    decreases n
  {
    hide Step, Run, EnabledRun, Enabled, Opening, Flooded;
    if n == 0 {
      EmptyRun(w);
    } else {
      FloodRun(w, n - 1);
      FloodNext(Run(w, Flood(n - 1)), n - 1);
      RunSnoc(w, Flood(n - 1), HostPacket(Opening(n - 1), 0, true));
    }
  }

  lemma EmptyRun(w: World)
    ensures EnabledRun(w, []) && Run(w, []) == w
  {
  }

  lemma AfterOpening(w: World, p: seq<Byte>)
    requires !w.crashed && !HostStep(w.mux, p, 0).1.HostPanic?
    ensures var w2 := Step(w, HostPacket(p, 0, true));
            && !w2.crashed && w2.clock == 0 && w2.mux.natAddr == w.mux.natAddr && w2.mux.index == w.mux.index
            && w2.mux.selfs == w.mux.selfs
            && w2.mux.flows == HostStep(w.mux, p, 0).0.flows
  {
    hide HostStep, T.TrySend;
    HostStepEffect(w.mux, p, 0);
  }

  /**
   A live flow can be refused: after a flow was opened to each of the 65536 ports of the peer, the first flow is
   live, and a reply on it would be let through, but the host's next packet on it is dropped and counted as
   having met the limit.
   */
  lemma FullTableRefusesLiveFlow(w: World)
    requires AtStart(w)
    ensures EnabledRun(w, Flood(65536))
    ensures var m := Run(w, Flood(65536)).mux;
            var (m2, action) := HostStep(m, Opening(0), 0);
            && |m.flows| == 65536
            && Touch(m.flows, FlowKey("p", Opening(0), false), Some(TCP), 0, 0, FLOWS).1
            && action == HostDrop && m2.counters.flowLimitDrops == m.counters.flowLimitDrops + 1
  {
    hide Inv, Step, Run, EnabledRun, Segment, RenderFlow, HostStep, FlowKey, Flood, Entries;
    FloodRun(w, 65536);
    EntriesShape(65536);
    OpeningStep(Run(w, Flood(65536)), 65536, 0);
    OpeningFlow(0);
  }
}
