/**
 A concrete system of one profile and one peer: the hypotheses of the raw round trip are met by an ordinary TCP
 segment, on any ports, and its answer, and the answer is then really written.
 */
module Scenario {
  import opened Bytes
  import opened Rewrite
  import opened RewriteProofs
  import opened Keys
  import opened LazyTable
  import opened Inventory
  import opened Mux
  import opened MuxRuns
  import opened NatRoundTrip
  import opened Wrappers

  const NAT := Addr(10, 192, 0, 1)
  const LEASE := Addr(10, 192, 0, 3)
  const PEER := Addr(100, 1, 2, 3)
  const SELF := Addr(100, 9, 9, 9)
  const PROFILE := DatapathProfile("p", SELF, 0)
  const PEER_TARGET := Target("p", "home", 0, Node, "n", "host.example.", true, PEER)
  const CONFIG := Config([PEER_TARGET], map[Key(PEER_TARGET) := LEASE], [PROFILE])

  function SegmentByte(src: Addr, dst: Addr, from: U16, to: U16, i: nat): Byte {
    match i
    case 0 => 0x45 case 3 => 40 case 8 => 64 case 9 => TCP
    case 12 => src.a case 13 => src.b case 14 => src.c case 15 => src.d
    case 16 => dst.a case 17 => dst.b case 18 => dst.c case 19 => dst.d
    case 20 => from / 0x100 case 21 => from % 0x100
    case 22 => to / 0x100 case 23 => to % 0x100
    case 32 => 0x50
    case _ => 0
  }

  /** A 40-byte packet: version 4, five header words, TCP, not fragmented, with the given ports. */
  function Segment(src: Addr, dst: Addr, from: U16, to: U16): seq<Byte> {
    seq(40, i requires 0 <= i => SegmentByte(src, dst, from, to, i))
  }

  lemma SegmentBytes(src: Addr, dst: Addr, from: U16, to: U16)
    ensures var p := Segment(src, dst, from, to);
            && |p| == 40 && p[0] == 0x45 && p[6] == 0 && p[7] == 0 && p[9] == TCP
            && AddrAt(p, 12) == src && AddrAt(p, 16) == dst
            && U16At(p, 20) == from && U16At(p, 22) == to
  {
  }

  lemma SegmentShape(p: seq<Byte>)
    requires |p| == 40 && p[0] == 0x45 && p[6] == 0 && p[7] == 0
    ensures WellFormed(p) && HeaderLength(p) == 20 && FragmentOffset(p) == 0 && !MoreFragments(p)
  {
  }

  lemma SegmentTranslates(p: seq<Byte>, src: Addr, dst: Addr)
    requires |p| == 40 && p[0] == 0x45 && p[6] == 0 && p[7] == 0
    ensures WellFormed(p) && Translate(p, src, dst, TCP).Translated?
  {
    hide Readdress, PutU16, TransportChecksum, HeaderLength, FragmentOffset, MoreFragments;
    SegmentShape(p);
  }

  lemma OneProfile(d: DatapathProfile)
    ensures ProfileIndex([d]) == map[d.id := d]
  {
    assert [d][..0] == [];
  }

  lemma OneTarget(t: Target, leases: map<string, Addr>, index: map<string, DatapathProfile>)
    requires Eligible(t, leases, index)
    ensures BuildIndex([t], leases, index) == AddBinding(Index(map[], map[], map[]), Bind(t, leases, index))
  {
    assert [t][..0] == [];
  }

  lemma ScenarioIndex()
    ensures var x := BuildIndex(CONFIG.targets, CONFIG.leases, ProfileIndex(CONFIG.profiles));
            && PEER !in x.byEffective && PEER in x.raw
            && x.raw[PEER] == Binding(PEER_TARGET, LEASE, SELF, 0)
    ensures Selfs(ProfileIndex(CONFIG.profiles)) == map["p" := SELF]
  {
    hide Key, BuildIndex, ProfileIndex;
    OneProfile(PROFILE);
    OneTarget(PEER_TARGET, CONFIG.leases, ProfileIndex(CONFIG.profiles));
  }

  const BINDING := Binding(PEER_TARGET, LEASE, SELF, 0)

  /** The mux knows the peer's canonical address as a raw destination, and the profile's own address. */
  ghost predicate RoutesToPeer(m: State) {
    && m.natAddr == NAT && m.selfs == map["p" := SELF]
    && PEER !in m.index.byEffective && PEER in m.index.raw && m.index.raw[PEER] == BINDING
  }

  /** Nothing has happened yet at time 0. */
  ghost predicate AtStart(w: World) {
    Inv(w) && !w.crashed && w.clock == 0 && w.mux.flows == map[] && RoutesToPeer(w.mux)
  }

  lemma ScenarioStart()
    ensures AtStart(Start(NAT, CONFIG, [256], 0))
  {
    hide Inv, BuildIndex, ProfileIndex;
    ScenarioIndex();
    StartInv(NAT, CONFIG, [256], 0);
  }

  lemma SegmentFlow(from: U16, to: U16)
    ensures FlowOf("p", Segment(NAT, PEER, from, to), false) == Some(FlowId("p", TCP, PEER, to, from))
    ensures FlowKey("p", Segment(NAT, PEER, from, to), false) != ""
  {
    hide Segment, RenderFlow;
    SegmentBytes(NAT, PEER, from, to);
    SegmentShape(Segment(NAT, PEER, from, to));
    FlowRendered(FlowId("p", TCP, PEER, to, from));
  }

  /** The first packet, on whatever ports, is delivered to the peer through the profile's device. */
  lemma SegmentDelivered(m: State, from: U16, to: U16)
    requires RoutesToPeer(m) && m.flows == map[]
    ensures var p := Segment(NAT, PEER, from, to);
            && WellFormed(p) && HostStep(m, p, 0).1.Deliver? && HostStep(m, p, 0).1.binding == BINDING
            && Translate(p, SELF, PEER, TCP) == Translation.Translated(HostStep(m, p, 0).1.bytes)
  {
    hide Segment, Translate, HeaderLength, FragmentOffset, MoreFragments, RenderFlow, FlowKey;
    var p := Segment(NAT, PEER, from, to);
    SegmentBytes(NAT, PEER, from, to);
    SegmentShape(p);
    SegmentTranslates(p, SELF, PEER);
    SegmentFlow(from, to);
    assert Expire(map[], 0, FLOWS) == map[];
    assert Admit(m, p, 0).1 == Some(BINDING);
  }

  /** And its answer a second later is written to the host from the peer's canonical address. */
  lemma AnswerReturns(w: World, from: U16, to: U16)
    requires AtStart(w)
    ensures var w2 := Step(w, HostPacket(Segment(NAT, PEER, from, to), 0, true));
            var action := ProfileStep(w2.mux, "p", Segment(PEER, SELF, to, from), Times(SECOND, SECOND, SECOND)).1;
            && action.ToHost? && |action.bytes| == 40
            && AddrAt(action.bytes, 12) == PEER && AddrAt(action.bytes, 16) == NAT
  {
    hide Translate, HeaderLength, FragmentOffset, MoreFragments, FlowOf, Inv, HostStep, ProfileStep, Step, Segment,
         Answers, TooShort, Overruns;
    var p, q, t := Segment(NAT, PEER, from, to), Segment(PEER, SELF, to, from), Times(SECOND, SECOND, SECOND);
    var w2 := Step(w, HostPacket(p, 0, true));
    SegmentBytes(NAT, PEER, from, to);
    SegmentBytes(PEER, SELF, to, from);
    SegmentDelivered(w.mux, from, to);
    SegmentShape(p);
    SegmentShape(q);
    AnswersDelivered(from, to, HostStep(w.mux, p, 0).1.bytes);
    AfterHostPacket(w, p, 0, true);
    assert Run(w2, []) == w2;
    SelfsAfter(w, p);
    RawRoundTrip(w, p, 0, true, [], q, t);
    SegmentIsLongEnough(q);
    AnswerLength(q, ProfileStep(w2.mux, "p", q, t).1);
  }

  lemma SegmentIsLongEnough(q: seq<Byte>)
    requires |q| == 40 && q[0] == 0x45 && q[6] == 0 && q[7] == 0 && q[9] == TCP
    ensures !TooShort(q, q[9]) && !Overruns(q, q[9])
  {
  }

  lemma AnswerLength(q: seq<Byte>, action: ProfileAction)
    requires WellFormed(q) && LeavesFrom(action, q, PEER, NAT)
    ensures action.ToHost? ==> |action.bytes| == |q|
  {
    hide Translate, TooShort, Overruns;
    if action.ToHost? {
      TranslationTouchesOnly(q, PEER, NAT, q[9]);
    }
  }

  lemma SelfsAfter(w: World, p: seq<Byte>)
    requires !w.crashed
    ensures Step(w, HostPacket(p, 0, true)).mux.selfs == w.mux.selfs
    ensures Step(w, HostPacket(p, 0, true)).mux.natAddr == w.mux.natAddr
  {
    hide HostStep;
    HostStepEffect(w.mux, p, 0);
  }

  lemma AnswersDelivered(from: U16, to: U16, bytes: seq<Byte>)
    requires WellFormed(Segment(NAT, PEER, from, to))
    requires Translate(Segment(NAT, PEER, from, to), SELF, PEER, TCP) == Translation.Translated(bytes)
    ensures Answers(Segment(PEER, SELF, to, from), bytes)
  {
    hide Translate, Segment, HeaderLength, FragmentOffset, MoreFragments;
    var p, q := Segment(NAT, PEER, from, to), Segment(PEER, SELF, to, from);
    SegmentBytes(NAT, PEER, from, to);
    SegmentBytes(PEER, SELF, to, from);
    SegmentShape(p);
    SegmentShape(q);
    TranslationTouchesOnly(p, SELF, PEER, TCP);
    assert bytes[20] == p[20] && bytes[21] == p[21] && bytes[22] == p[22] && bytes[23] == p[23];
  }
}
