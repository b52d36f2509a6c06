/**
 Whole runs of the datapath: host packets, profile packets, reconfigurations, reads and closes of the devices,
 in any order under a clock that does not run back. `World` adds to the engine's state the devices' queues and
 a record of what was delivered.
 */
module MuxRuns {
  import opened Bytes
  import opened Rewrite
  import opened RewriteProofs
  import opened Text
  import opened Keys
  import opened LazyTable
  import opened Inventory
  import opened PacketTun
  import opened Mux
  import opened MuxIndex
  import opened Wrappers

  datatype Config = Config(targets: seq<Target>, leases: map<string, Addr>, profiles: seq<DatapathProfile>)

  /** A packet accepted by a device's queue, with the host packet it came from and the configuration then. */
  datatype Injection = Injection(tun: nat, bytes: seq<Byte>, host: seq<Byte>, config: Config)

  /** A flow that an admitted host packet to a raw address entered into the flow table. */
  datatype Opening = Opening(flow: FlowId, host: seq<Byte>, config: Config)

  /**
   A packet written to the host. `firsts` and `openings` count the first fragments kept and the flows opened before
   it, and `kept` says whether it was itself such a first fragment.
   */
  datatype Delivery = Delivery(pid: string, packet: seq<Byte>, bytes: seq<Byte>, config: Config, firsts: nat,
                               openings: nat, kept: bool)

  /** A first fragment that was entered into the fragment table, and the source its later fragments are given. */
  datatype First = First(id: FragmentId, source: Addr, packet: seq<Byte>, config: Config, openings: nat)

  datatype World = World(
    mux: State,
    config: Config,
    queues: seq<Queue>,
    closed: set<nat>,
    crashed: bool,
    clock: int,
    injected: seq<Injection>,
    written: seq<Delivery>,
    firsts: seq<First>,
    openings: seq<Opening>)

  datatype Event =
    | HostPacket(packet: seq<Byte>, now: int, pick: bool)
    | ProfilePacket(tun: nat, packet: seq<Byte>, times: Times)
    | Update(config: Config)
    | DeviceRead(tun: nat)
    | DeviceClose(tun: nat)

  ghost predicate ConfigOk(c: Config, devices: nat) {
    && (forall p :: p in c.profiles ==> Free('/', p.id) && p.tun < devices)
    && FreeTargets(c.targets)
  }

  ghost predicate Enabled(w: World, e: Event) {
    match e
    case HostPacket(_, now, _) => w.clock <= now
    case ProfilePacket(tun, _, times) => w.clock <= times.at && Ordered(times) && tun in w.mux.loops
    case Update(c) => ConfigOk(c, |w.queues|)
    case DeviceRead(tun) => tun < |w.queues| && w.queues[tun].items != []
    case DeviceClose(tun) => tun < |w.queues|
  }

  function Start(natAddr: Addr, config: Config, depths: seq<nat>, clock: int): World {
    World(NewState(natAddr, config.targets, config.leases, config.profiles), config,
          seq(|depths|, i requires 0 <= i < |depths| => Queue(depths[i], [], [], [])), {}, false, clock, [], [], [], [])
  }

  /** hostLoop's hand-over: the device's answer decides between a delivery and a counted drop. */
  function HandOver(w: World, m: State, b: Binding, bytes: seq<Byte>, host: seq<Byte>, pick: bool): World {
    if b.tun >= |w.queues| then w.(mux := m)
    else
      var (queue, result) := TrySend(w.queues[b.tun], b.tun in w.closed, bytes, pick);
      if result == Sent then
        w.(mux := m, queues := w.queues[b.tun := queue],
           injected := w.injected + [Injection(b.tun, bytes, host, w.config)])
      else w.(mux := CountDrop(m))
  }

  /** What profileLoop tries to enter into the fragment table for this packet, if anything. */
  function FirstAttempt(m: State, pid: string, p: seq<Byte>, t: Times): Option<FragmentState>
    requires WellFormed(p)
  {
    var key := InboundKey(pid, AddrAt(p, 12));
    if pid !in m.selfs || AddrAt(p, 16) != m.selfs[pid] || FragmentOffset(p) > 0 || !MoreFragments(p) then None
    else if Touch(m.flows, FlowKey(pid, p, true), Some(p[9]), t.at, t.stored, FLOWS).1 then Some(RawReply)
    else if key in m.index.byInbound then Some(Bound(m.index.byInbound[key]))
    else None
  }

  function KeptState(m: State, pid: string, p: seq<Byte>, t: Times): Option<FragmentState>
    requires WellFormed(p)
  {
    match FirstAttempt(m, pid, p, t)
    case None => None
    case Some(v) => if Add(m.fragments, FragmentKey(pid, p), v, t.put, FRAGMENTS).1 then Some(v) else None
  }

  function Kept(w: World, pid: string, p: seq<Byte>, t: Times): seq<First> {
    if !WellFormed(p) then []
    else
      match KeptState(w.mux, pid, p, t)
      case None => []
      case Some(v) => [First(FragmentIdOf(pid, p), FragmentSource(v, AddrAt(p, 12)), p, w.config, |w.openings|)]
  }

  function Delivered(w: World, pid: string, p: seq<Byte>, t: Times, bytes: seq<Byte>): Delivery {
    Delivery(pid, p, bytes, w.config, |w.firsts|, |w.openings|, Kept(w, pid, p, t) != [])
  }

  /** hostLoop asks for a raw-flow entry for this packet. */
  predicate RecordsFlow(m: State, p: seq<Byte>) {
    && WellFormed(p) && AddrAt(p, 12) == m.natAddr && Lookup(m.index, AddrAt(p, 16)).Some?
    && AddrAt(p, 16) != Lookup(m.index, AddrAt(p, 16)).value.effective && FragmentOffset(p) == 0
  }

  /** The flow that hostLoop enters for this packet, if any. */
  function Opens(w: World, p: seq<Byte>, now: int): seq<Opening> {
    if !RecordsFlow(w.mux, p) then []
    else
      var pid := Lookup(w.mux.index, AddrAt(p, 16)).value.target.profileID;
      match FlowOf(pid, p, false)
      case None => []
      case Some(f) =>
        if Add(w.mux.flows, RenderFlow(f), p[9], now, FLOWS).1 then [Opening(f, p, w.config)] else []
  }

  function Step(w: World, e: Event): World {
    if w.crashed then w
    else
      match e
      case HostPacket(p, now, pick) =>
        var w2 := w.(clock := now, openings := w.openings + Opens(w, p, now));
        (match HostStep(w.mux, p, now)
         case (m, HostDrop) => w2.(mux := m)
         case (m, Deliver(b, bytes)) => HandOver(w2, m, b, bytes, p, pick)
         case (m, HostPanic) => w2.(mux := m, crashed := true))
      case ProfilePacket(tun, p, t) =>
        if tun !in w.mux.loops then w
        else
          var pid := w.mux.loops[tun];
          var w2 := w.(clock := t.put, firsts := w.firsts + Kept(w, pid, p, t));
          (match ProfileStep(w.mux, pid, p, t)
           case (m, ProfileDrop) => w2.(mux := m)
           case (m, ToHost(bytes)) => w2.(mux := m, written := w.written + [Delivered(w, pid, p, t, bytes)])
           case (m, ProfilePanic) => w2.(mux := m, crashed := true))
      case Update(c) => w.(mux := Reconfigure(w.mux, c.targets, c.leases, c.profiles), config := c)
      case DeviceRead(tun) =>
        if tun < |w.queues| && w.queues[tun].items != [] then w.(queues := w.queues[tun := Pop(w.queues[tun])]) else w
      case DeviceClose(tun) => w.(closed := w.closed + {tun})
  }

  function Run(w: World, es: seq<Event>): World
    decreases |es|
  {
    if |es| == 0 then w else Run(Step(w, es[0]), es[1..])
  }

  ghost predicate EnabledRun(w: World, es: seq<Event>)
    decreases |es|
  {
    |es| == 0 || (Enabled(w, es[0]) && EnabledRun(Step(w, es[0]), es[1..]))
  }

  lemma {:induction false} CrashedStays(w: World, es: seq<Event>)
    requires w.crashed
    ensures Run(w, es) == w
    decreases |es|
  {
    if |es| > 0 {
      CrashedStays(w, es[1..]);
    }
  }

  // ---------------------------------------------------------------- the invariant: configuration

  ghost predicate Configured(w: World) {
    var index := ProfileIndex(w.config.profiles);
    && ConfigOk(w.config, |w.queues|)
    && w.mux.selfs == Selfs(index)
    && w.mux.index == BuildIndex(w.config.targets, w.config.leases, index)
    && (forall tun :: tun in w.mux.loops ==> Free('/', w.mux.loops[tun]))
  }

  lemma {:induction false} LoopsFree(loops: map<nat, string>, profiles: seq<DatapathProfile>)
    requires forall tun :: tun in loops ==> Free('/', loops[tun])
    requires forall p :: p in profiles ==> Free('/', p.id)
    ensures forall tun :: tun in StartLoops(loops, profiles) ==> Free('/', StartLoops(loops, profiles)[tun])
  {
    hide Free;
    if |profiles| > 0 {
      LoopsFree(loops, profiles[..|profiles| - 1]);
    }
  }

  // ---------------------------------------------------------------- the invariant: no state for withdrawn profiles

  /** The host opened this flow. */
  ghost predicate HostOpened(openings: seq<Opening>, f: FlowId) {
    exists o :: o in openings && o.flow == f
  }

  /** key is the key of a flow that the host opened to a profile being served, and the entry has its protocol. */
  ghost predicate OwnedFlow(key: string, proto: Byte, selfs: map<string, Addr>, openings: seq<Opening>) {
    exists f: FlowId ::
      key == RenderFlow(f) && Free('/', f.profile) && f.profile in selfs && f.proto == proto && HostOpened(openings, f)
  }

  ghost predicate FlowsOwned(m: State, openings: seq<Opening>) {
    && |m.flows| <= FLOWS.capacity
    && forall k :: k in m.flows ==> OwnedFlow(k, m.flows[k].value, m.selfs, openings)
  }

  /** The source given to the first fragments of a datagram when one was last kept. */
  function LastSource(firsts: seq<First>, id: FragmentId): Option<Addr> {
    if |firsts| == 0 then None
    else
      var last := firsts[|firsts| - 1];
      if last.id == id then Some(last.source) else LastSource(firsts[..|firsts| - 1], id)
  }

  /** key is the fragment key of a profile being served, and the entry gives the source of its last first fragment. */
  ghost predicate OwnedFragment(key: string, v: FragmentState, selfs: map<string, Addr>, firsts: seq<First>) {
    exists f: FragmentId ::
      key == RenderFragment(f) && Free('/', f.profile) && f.profile in selfs
      && LastSource(firsts, f) == Some(FragmentSource(v, f.src))
  }

  ghost predicate FragmentsOwned(m: State, firsts: seq<First>) {
    && |m.fragments| <= FRAGMENTS.capacity
    && forall k :: k in m.fragments ==> OwnedFragment(k, m.fragments[k].value, m.selfs, firsts)
  }

  // ---------------------------------------------------------------- the invariant: isolation

  /** The injected packet belongs to one profile: its device, its own address, one of its targets. */
  ghost predicate Isolated(r: Injection, natAddr: Addr) {
    && WellFormed(r.host) && AddrAt(r.host, 12) == natAddr && WellFormed(r.bytes)
    && exists prof, t ::
         && prof in r.config.profiles && t in r.config.targets && t.profileID == prof.id && prof.tun == r.tun
         && Key(t) in r.config.leases
         && AddrAt(r.bytes, 12) == prof.self && AddrAt(r.bytes, 16) == t.canonical
         && (AddrAt(r.host, 16) == t.canonical || AddrAt(r.host, 16) == r.config.leases[Key(t)])
  }

  /** The host sent the opening packet to a canonical address of the flow's profile, and it has the flow's key. */
  ghost predicate OpeningSound(o: Opening, natAddr: Addr) {
    && WellFormed(o.host) && AddrAt(o.host, 12) == natAddr && AddrAt(o.host, 16) == o.flow.remote
    && FlowOf(o.flow.profile, o.host, false) == Some(o.flow)
    && exists t :: t in o.config.targets && t.profileID == o.flow.profile && t.canonical == o.flow.remote
                   && Key(t) in o.config.leases
  }

  /**
   A packet from a profile, not a later fragment, may reach the host with this source: its own, in answer to a flow
   the host opened, or the lease of the target it came from.
   */
  ghost predicate SourceAllowed(pid: string, p: seq<Byte>, source: Addr, config: Config, openings: seq<Opening>)
    requires WellFormed(p)
  {
    || (source == AddrAt(p, 12) && FlowOf(pid, p, true).Some? && HostOpened(openings, FlowOf(pid, p, true).value))
    || exists t :: t in config.targets && t.profileID == pid && t.canonical == AddrAt(p, 12)
                   && Key(t) in config.leases && source == config.leases[Key(t)]
  }

  /** The first fragment of the datagram was allowed the source that its later fragments get. */
  ghost predicate FirstAllowed(f: First, openings: seq<Opening>) {
    && WellFormed(f.packet) && f.id == FragmentIdOf(f.id.profile, f.packet) && f.openings <= |openings|
    && FragmentOffset(f.packet) == 0 && MoreFragments(f.packet)
    && SourceAllowed(f.id.profile, f.packet, f.source, f.config, openings[..f.openings])
  }

  /** The source of a packet written to the host is allowed to it, or is that of its last kept first fragment. */
  ghost predicate SourceSound(r: Delivery, firsts: seq<First>, openings: seq<Opening>)
    requires WellFormed(r.packet) && WellFormed(r.bytes) && r.firsts <= |firsts| && r.openings <= |openings|
  {
    if FragmentOffset(r.packet) > 0 then
      LastSource(firsts[..r.firsts], FragmentIdOf(r.pid, r.packet)) == Some(AddrAt(r.bytes, 12))
    else SourceAllowed(r.pid, r.packet, AddrAt(r.bytes, 12), r.config, openings[..r.openings])
  }

  /** A kept first fragment is recorded under its own datagram, with the source it was written with. */
  ghost predicate FirstSound(r: Delivery, firsts: seq<First>)
    requires WellFormed(r.packet) && WellFormed(r.bytes)
  {
    r.kept ==>
      && FragmentOffset(r.packet) == 0 && MoreFragments(r.packet)
      && r.firsts < |firsts| && firsts[r.firsts].packet == r.packet
      && firsts[r.firsts].id == FragmentIdOf(r.pid, r.packet) && firsts[r.firsts].source == AddrAt(r.bytes, 12)
  }

  /**
   The written packet was addressed to the profile's own address, and left for the NAT address as a translation of
   itself from an allowed source.
   */
  ghost predicate Addressed(r: Delivery, natAddr: Addr, firsts: seq<First>, openings: seq<Opening>) {
    && WellFormed(r.packet) && WellFormed(r.bytes) && r.firsts <= |firsts| && r.openings <= |openings|
    && AddrAt(r.bytes, 16) == natAddr
    && Translate(r.packet, AddrAt(r.bytes, 12), natAddr, r.packet[9]) == Translation.Translated(r.bytes)
    && (exists prof :: prof in r.config.profiles && prof.id == r.pid && prof.self == AddrAt(r.packet, 16))
    && SourceSound(r, firsts, openings) && FirstSound(r, firsts)
  }

  ghost predicate RecordsSound(natAddr: Addr, written: seq<Delivery>, firsts: seq<First>, openings: seq<Opening>) {
    && (forall r :: r in written ==> Addressed(r, natAddr, firsts, openings))
    && (forall f :: f in firsts ==> FirstAllowed(f, openings))
    && (forall o :: o in openings ==> OpeningSound(o, natAddr))
  }

  // ---------------------------------------------------------------- the invariant: conservation

  /** The packets one device accepted, in order. */
  function AcceptedBy(injected: seq<Injection>, tun: nat): seq<seq<Byte>> {
    if |injected| == 0 then []
    else
      var before := AcceptedBy(injected[..|injected| - 1], tun);
      var last := injected[|injected| - 1];
      if last.tun == tun then before + [last.bytes] else before
  }

  /** Packets still queued plus packets taken by Read, summed over the devices. */
  function Accounted(queues: seq<Queue>): nat {
    if |queues| == 0 then 0
    else Accounted(queues[..|queues| - 1]) + |queues[|queues| - 1].items| + |queues[|queues| - 1].taken|
  }

  ghost predicate QueuesSound(w: World) {
    && (forall i :: 0 <= i < |w.queues| ==> Fifo(w.queues[i]) && w.queues[i].accepted == AcceptedBy(w.injected, i))
    && Accounted(w.queues) == |w.injected|
  }

  ghost predicate Conserved(w: World) {
    !w.crashed ==> w.mux.counters.hostPackets == w.mux.counters.drops + |w.injected|
  }

  ghost predicate Inv(w: World) {
    && Configured(w)
    && FlowsOwned(w.mux, w.openings)
    && FragmentsOwned(w.mux, w.firsts)
    && QueuesSound(w)
    && Conserved(w)
    && (forall r :: r in w.injected ==> Isolated(r, w.mux.natAddr))
    && RecordsSound(w.mux.natAddr, w.written, w.firsts, w.openings)
  }

  // ---------------------------------------------------------------- what one step changes

  lemma AddEntries<V>(t: Table<V>, key: string, v: V, now: int, policy: Policy<V>)
    ensures var (t2, ok) := Add(t, key, v, now, policy);
            && (ok ==> key != "" && key in t2 && t2[key] == Entry(v, now))
            && (forall k :: k in t2 && !(ok && k == key) ==> k in t && t2[k] == t[k])
            && (|t| <= policy.capacity ==> |t2| <= policy.capacity)
  {
    if |t| <= policy.capacity {
      StepSize(t, AddOp(key, v, now), policy);
    }
  }

  lemma TouchEntries<V>(t: Table<V>, key: string, renew: Option<V>, at: int, stored: int, policy: Policy<V>)
    ensures var (t2, ok) := Touch(t, key, renew, at, stored, policy);
            && (ok ==> key != "" && key in t) && (key == "" ==> t2 == t)
            && (forall k :: k in t2 ==> k in t)
            && (forall k :: k in t2 && k != key ==> t2[k] == t[k])
            && (key in t2 && key != "" ==> ok && t2[key].value == Renewed(renew, t[key].value))
            && (|t| <= policy.capacity ==> |t2| <= policy.capacity)
  {
    if |t| <= policy.capacity {
      StepSize(t, TouchOp(key, renew, at, stored), policy);
    }
  }

  /** The flow table after an admitted or refused host packet. */
  function FlowsAfterHost(m: State, p: seq<Byte>, now: int): Table<Byte> {
    if RecordsFlow(m, p)
    then Add(m.flows, FlowKey(Lookup(m.index, AddrAt(p, 16)).value.target.profileID, p, false), p[9], now, FLOWS).0
    else m.flows
  }

  lemma AdmitEffect(m: State, p: seq<Byte>, now: int)
    ensures var (m2, b) := Admit(m, p, now);
            && m2.natAddr == m.natAddr && m2.index == m.index && m2.selfs == m.selfs
            && m2.fragments == m.fragments && m2.loops == m.loops
            && m2.counters.hostPackets == m.counters.hostPackets + 1
            && m2.counters.drops == m.counters.drops + (if b == None then 1 else 0)
            && m2.flows == FlowsAfterHost(m, p, now)
            && (b.Some? ==> WellFormed(p) && AddrAt(p, 12) == m.natAddr && Lookup(m.index, AddrAt(p, 16)) == b)
  {
    hide FlowKey, FragmentOffset, Add, HeaderLength, AddrAt, Lookup;
    if WellFormed(p) && AddrAt(p, 12) == m.natAddr {
      match Lookup(m.index, AddrAt(p, 16))
      case None =>
      case Some(b) =>
        if AddrAt(p, 16) != b.effective && FragmentOffset(p) == 0 {
          var r := Add(m.flows, FlowKey(b.target.profileID, p, false), p[9], now, FLOWS);
          assert FlowsAfterHost(m, p, now) == r.0;
        }
    }
  }

  /** What hostLoop changes besides the limit counter, and what it delivers. */
  lemma HostStepEffect(m: State, p: seq<Byte>, now: int)
    ensures var (m2, action) := HostStep(m, p, now);
            && m2.natAddr == m.natAddr && m2.index == m.index && m2.selfs == m.selfs
            && m2.fragments == m.fragments && m2.loops == m.loops
            && m2.counters.hostPackets == m.counters.hostPackets + 1
            && m2.counters.drops == m.counters.drops + (if action.HostDrop? then 1 else 0)
            && m2.flows == FlowsAfterHost(m, p, now)
            && (action.Deliver? ==>
                  && WellFormed(p) && AddrAt(p, 12) == m.natAddr
                  && Lookup(m.index, AddrAt(p, 16)) == Some(action.binding)
                  && Translate(p, action.binding.self, action.binding.target.canonical, p[9])
                          == Translation.Translated(action.bytes))
  {
    hide Translate, Admit, FlowsAfterHost, Lookup;
    AdmitEffect(m, p, now);
  }

  /** What profileLoop may change besides the counters, and what it writes. */
  lemma ProfileStepEffect(m: State, pid: string, p: seq<Byte>, t: Times)
    ensures var (m2, action) := ProfileStep(m, pid, p, t);
            && m2.natAddr == m.natAddr && m2.index == m.index && m2.selfs == m.selfs && m2.loops == m.loops
            && m2.counters.hostPackets == m.counters.hostPackets && m2.counters.drops == m.counters.drops
            && (m2.flows == m.flows ||
                (WellFormed(p) && pid in m.selfs
                 && m2.flows == Touch(m.flows, FlowKey(pid, p, true), Some(p[9]), t.at, t.stored, FLOWS).0))
  {
    hide Translate, FlowKey, FragmentKey, FragmentOffset, MoreFragments, Add, Touch, HeaderLength;
  }

  /** The hand-over to the device leaves the tables of HostStep. */
  lemma HostStepTables(w: World, p: seq<Byte>, now: int, pick: bool)
    requires !w.crashed
    ensures Step(w, HostPacket(p, now, pick)).mux.flows == HostStep(w.mux, p, now).0.flows
  {
    hide HostStep, TrySend;
  }

  /** The source with which profileLoop writes a packet, if it writes it. */
  function WrittenSource(m: State, pid: string, p: seq<Byte>, t: Times): Option<Addr>
    requires WellFormed(p)
  {
    var src := AddrAt(p, 12);
    var key := InboundKey(pid, src);
    if FragmentOffset(p) > 0 then
      if Touch(m.fragments, FragmentKey(pid, p), None, t.at, t.stored, FRAGMENTS).1
      then Some(FragmentSource(m.fragments[FragmentKey(pid, p)].value, src)) else None
    else if Touch(m.flows, FlowKey(pid, p, true), Some(p[9]), t.at, t.stored, FLOWS).1 then Some(src)
    else if key in m.index.byInbound then Some(m.index.byInbound[key].effective)
    else None
  }

  lemma ProfileStepWrites(m: State, pid: string, p: seq<Byte>, t: Times)
    requires ProfileStep(m, pid, p, t).1.ToHost?
    ensures WellFormed(p) && pid in m.selfs && AddrAt(p, 16) == m.selfs[pid]
    ensures WrittenSource(m, pid, p, t).Some?
    ensures Translate(p, WrittenSource(m, pid, p, t).value, m.natAddr, p[9])
            == Translation.Translated(ProfileStep(m, pid, p, t).1.bytes)
  {
    hide Translate, FlowKey, FragmentKey, FragmentOffset, MoreFragments, Add, HeaderLength, InboundKey;
  }

  lemma ProfileStepFragments(m: State, pid: string, p: seq<Byte>, t: Times)
    ensures var f2 := ProfileStep(m, pid, p, t).0.fragments;
            if !WellFormed(p) || pid !in m.selfs || AddrAt(p, 16) != m.selfs[pid] then f2 == m.fragments
            else if FragmentOffset(p) > 0 then
              f2 == Touch(m.fragments, FragmentKey(pid, p), None, t.at, t.stored, FRAGMENTS).0
            else
              match FirstAttempt(m, pid, p, t)
              case None => f2 == m.fragments
              case Some(v) => f2 == Add(m.fragments, FragmentKey(pid, p), v, t.put, FRAGMENTS).0
  {
    hide Translate, FlowKey, FragmentKey, Add, Touch, HeaderLength, InboundKey, FragmentOffset, MoreFragments;
  }

  // ---------------------------------------------------------------- each conjunct through each step

  lemma {:induction false} AcceptedByAfter(injected: seq<Injection>, r: Injection, tun: nat)
    ensures AcceptedBy(injected + [r], tun) == if r.tun == tun then AcceptedBy(injected, tun) + [r.bytes]
            else AcceptedBy(injected, tun)
  {
    assert (injected + [r])[..|injected|] == injected;
  }

  lemma {:induction false} AccountedUpdate(queues: seq<Queue>, i: nat, q: Queue)
    requires i < |queues|
    ensures Accounted(queues[i := q]) ==
              Accounted(queues) - |queues[i].items| - |queues[i].taken| + |q.items| + |q.taken|
  {
    var n := |queues| - 1;
    if i == n {
      assert queues[i := q][..n] == queues[..n];
    } else {
      assert queues[i := q][..n] == queues[..n][i := q];
      AccountedUpdate(queues[..n], i, q);
    }
  }

  /** A binding found by a lookup belongs to the current configuration. */
  lemma LookupConfigured(w: World, dst: Addr)
    requires Configured(w) && Lookup(w.mux.index, dst).Some?
    ensures var b := Lookup(w.mux.index, dst).value;
            var index := ProfileIndex(w.config.profiles);
            && BoundTo(b, b.target, w.config.targets, w.config.leases, index)
            && (dst == b.target.canonical || dst == b.effective)
            && index[b.target.profileID] in w.config.profiles && index[b.target.profileID].id == b.target.profileID
            && b.tun < |w.queues| && Free('/', b.target.profileID) && b.target.profileID in w.mux.selfs
  {
    hide Key, BuildIndex, Free, IndexSound, Lookup;
    var index := ProfileIndex(w.config.profiles);
    BuildIndexSound(w.config.targets, w.config.leases, index);
    LookupSound(w.mux.index, w.config.targets, w.config.leases, index, dst);
    ProfileIndexSound(w.config.profiles);
    var b := Lookup(w.mux.index, dst).value;
    assert index[b.target.profileID] in w.config.profiles;
  }

  lemma OwnedStays(key: string, proto: Byte, selfs: map<string, Addr>, openings: seq<Opening>, more: seq<Opening>)
    requires OwnedFlow(key, proto, selfs, openings)
    ensures OwnedFlow(key, proto, selfs, openings + more)
  {
    hide RenderFlow, Free;
    var f: FlowId :| key == RenderFlow(f) && Free('/', f.profile) && f.profile in selfs && f.proto == proto
                     && HostOpened(openings, f);
    HostOpenedStays(openings, more, f);
  }

  lemma HostOpenedStays(openings: seq<Opening>, more: seq<Opening>, f: FlowId)
    requires HostOpened(openings, f)
    ensures HostOpened(openings + more, f)
  {
    var o :| o in openings && o.flow == f;
    assert o in openings + more;
  }

  lemma HostFlowsOwned(w: World, p: seq<Byte>, now: int)
    requires Configured(w) && FlowsOwned(w.mux, w.openings)
    ensures FlowsOwned(HostStep(w.mux, p, now).0, w.openings + Opens(w, p, now))
  {
    hide BuildIndex, HostStep, Lookup, Add, RenderFlow, Free, FragmentOffset, OwnedFlow;
    var m, m2 := w.mux, HostStep(w.mux, p, now).0;
    var openings := w.openings + Opens(w, p, now);
    HostStepEffect(m, p, now);
    forall k | k in m.flows ensures OwnedFlow(k, m.flows[k].value, m.selfs, openings) {
      OwnedStays(k, m.flows[k].value, m.selfs, w.openings, Opens(w, p, now));
    }
    if m2.flows != m.flows {
      LookupConfigured(w, AddrAt(p, 16));
      var pid := Lookup(m.index, AddrAt(p, 16)).value.target.profileID;
      AddEntries(m.flows, FlowKey(pid, p, false), p[9], now, FLOWS);
      if Add(m.flows, FlowKey(pid, p, false), p[9], now, FLOWS).1 {
        OpenedIsOwned(w, p, now, pid);
      }
    }
  }

  /** The flow a host packet enters is recorded as opened. */
  lemma OpenedIsOwned(w: World, p: seq<Byte>, now: int, pid: string)
    requires RecordsFlow(w.mux, p) && pid == Lookup(w.mux.index, AddrAt(p, 16)).value.target.profileID
    requires Free('/', pid) && pid in w.mux.selfs && Add(w.mux.flows, FlowKey(pid, p, false), p[9], now, FLOWS).1
    ensures OwnedFlow(FlowKey(pid, p, false), p[9], w.mux.selfs, w.openings + Opens(w, p, now))
  {
    hide Lookup, Add, RenderFlow, Free, HeaderLength, FragmentOffset;
    AddEntries(w.mux.flows, FlowKey(pid, p, false), p[9], now, FLOWS);
    var f := FlowOf(pid, p, false).value;
    assert Opens(w, p, now) == [Opening(f, p, w.config)];
    assert Opening(f, p, w.config) in w.openings + Opens(w, p, now);
    assert HostOpened(w.openings + Opens(w, p, now), f);
  }

  /** A live flow was opened by the host. */
  lemma TouchedIsOpened(m: State, openings: seq<Opening>, pid: string, p: seq<Byte>, t: Times)
    requires FlowsOwned(m, openings) && Free('/', pid) && WellFormed(p)
    requires Touch(m.flows, FlowKey(pid, p, true), Some(p[9]), t.at, t.stored, FLOWS).1
    ensures FlowOf(pid, p, true).Some? && FlowKey(pid, p, true) in m.flows
    ensures HostOpened(openings, FlowOf(pid, p, true).value) && m.flows[FlowKey(pid, p, true)].value == p[9]
  {
    hide RenderFlow, Free, HostOpened, HeaderLength;
    var key := FlowKey(pid, p, true);
    TouchEntries(m.flows, key, Some(p[9]), t.at, t.stored, FLOWS);
    var f: FlowId :| key == RenderFlow(f) && Free('/', f.profile) && f.profile in m.selfs
                     && f.proto == m.flows[key].value && HostOpened(openings, f);
    FlowKeyFaithful(f, FlowOf(pid, p, true).value);
  }

  lemma ProfileFlowsOwned(w: World, pid: string, p: seq<Byte>, t: Times)
    requires Configured(w) && FlowsOwned(w.mux, w.openings) && Free('/', pid)
    ensures FlowsOwned(ProfileStep(w.mux, pid, p, t).0, w.openings)
  {
    hide BuildIndex, ProfileStep, Touch, RenderFlow, Free, OwnedFlow, HostOpened;
    var m, m2 := w.mux, ProfileStep(w.mux, pid, p, t).0;
    ProfileStepEffect(m, pid, p, t);
    if m2.flows != m.flows {
      var key := FlowKey(pid, p, true);
      TouchEntries(m.flows, key, Some(p[9]), t.at, t.stored, FLOWS);
      if Touch(m.flows, key, Some(p[9]), t.at, t.stored, FLOWS).1 {
        TouchedIsOpened(m, w.openings, pid, p, t);
      }
    }
  }

  lemma LastSourceAfter(firsts: seq<First>, r: First, id: FragmentId)
    ensures LastSource(firsts + [r], id) == if r.id == id then Some(r.source) else LastSource(firsts, id)
  {
    assert (firsts + [r])[..|firsts|] == firsts;
  }

  lemma ProfileFragmentsOwned(w: World, pid: string, p: seq<Byte>, t: Times)
    requires Configured(w) && FragmentsOwned(w.mux, w.firsts) && Free('/', pid)
    ensures FragmentsOwned(ProfileStep(w.mux, pid, p, t).0, w.firsts + Kept(w, pid, p, t))
  {
    hide BuildIndex, ProfileStep, Touch, Add, RenderFragment, Free, FirstAttempt, FragmentOffset, Configured,
         LastSource;
    var m, m2 := w.mux, ProfileStep(w.mux, pid, p, t).0;
    ProfileStepEffect(m, pid, p, t);
    ProfileStepFragments(m, pid, p, t);
    var key := FragmentKey(pid, p);
    assert Kept(w, pid, p, t) == [] ==> w.firsts + Kept(w, pid, p, t) == w.firsts;
    if !WellFormed(p) {
      FragmentsStayOwned(m, m2, w.firsts);
    } else {
      AttemptGuards(m, pid, p, t);
      TouchEntries(m.fragments, key, None, t.at, t.stored, FRAGMENTS);
      match FirstAttempt(m, pid, p, t)
      case None =>
        FragmentKeyPresent(pid, p);
        FragmentsStayOwned(m, m2, w.firsts);
      case Some(v) =>
        AddEntries(m.fragments, key, v, t.put, FRAGMENTS);
        if Add(m.fragments, key, v, t.put, FRAGMENTS).1 {
          FirstEntered(m, m2, w.firsts, Kept(w, pid, p, t)[0], pid, p, v, t);
        } else {
          FragmentsStayOwned(m, m2, w.firsts);
        }
    }
  }

  lemma FragmentsStayOwned(m: State, m2: State, firsts: seq<First>)
    requires FragmentsOwned(m, firsts) && m2.selfs == m.selfs && |m2.fragments| <= FRAGMENTS.capacity
    requires forall k :: k in m2.fragments ==> k in m.fragments && m2.fragments[k].value == m.fragments[k].value
    ensures FragmentsOwned(m2, firsts)
  {
    hide OwnedFragment;
  }

  lemma AttemptGuards(m: State, pid: string, p: seq<Byte>, t: Times)
    requires WellFormed(p)
    ensures FirstAttempt(m, pid, p, t).Some? ==>
              pid in m.selfs && AddrAt(p, 16) == m.selfs[pid] && FragmentOffset(p) == 0 && MoreFragments(p)
  {
  }

  /** Entering a first fragment makes its source the last one for its datagram and leaves the others alone. */
  lemma FirstEntered(m: State, m2: State, firsts: seq<First>, r: First, pid: string, p: seq<Byte>, v: FragmentState,
                     t: Times)
    requires FragmentsOwned(m, firsts) && Free('/', pid) && WellFormed(p) && pid in m.selfs && m2.selfs == m.selfs
    requires Add(m.fragments, FragmentKey(pid, p), v, t.put, FRAGMENTS) == (m2.fragments, true)
    requires r.id == FragmentIdOf(pid, p) && r.source == FragmentSource(v, AddrAt(p, 12))
    ensures FragmentsOwned(m2, firsts + [r])
  {
    hide Add, RenderFragment, Free, LastSource;
    var key, id := FragmentKey(pid, p), FragmentIdOf(pid, p);
    AddEntries(m.fragments, key, v, t.put, FRAGMENTS);
    forall k | k in m2.fragments ensures OwnedFragment(k, m2.fragments[k].value, m2.selfs, firsts + [r]) {
      if k == key {
        LastSourceAfter(firsts, r, id);
        assert key == RenderFragment(id);
      } else {
        assert OwnedFragment(k, m.fragments[k].value, m.selfs, firsts);
        var f: FragmentId :| k == RenderFragment(f) && Free('/', f.profile) && f.profile in m.selfs
                             && LastSource(firsts, f) == Some(FragmentSource(m.fragments[k].value, f.src));
        LastSourceAfter(firsts, r, f);
      }
    }
  }

  // ---------------------------------------------------------------- reconfiguration

  lemma ForgetEntries<V>(t: Table<V>, removed: set<string>, policy: Policy<V>)
    ensures forall k :: k in Forget(t, removed) <==> k in t && !Purges(removed, k)
    ensures forall k :: k in Forget(t, removed) ==> Forget(t, removed)[k] == t[k]
    ensures |t| <= policy.capacity ==> |Forget(t, removed)| <= policy.capacity
    ensures |Forget(t, removed)| + |PurgedKeys(t, removed)| == |t|
  {
    hide Purges;
    if |t| <= policy.capacity {
      StepSize(t, ForgetOp(removed), policy);
    }
    var kept, gone := Forget(t, removed).Keys, PurgedKeys(t, removed);
    assert kept + gone == t.Keys && kept !! gone;
    assert |t.Keys| == |t| && |kept| == |Forget(t, removed)|;
  }

  /** Prefix matching finds every flow of a removed profile, so the flows left belong to profiles still served. */
  lemma ForgetKeepsFlows(m: State, m2: State, removed: set<string>, openings: seq<Opening>)
    requires FlowsOwned(m, openings) && m2.flows == Forget(m.flows, removed) && m.selfs.Keys - removed <= m2.selfs.Keys
    ensures FlowsOwned(m2, openings)
  {
    hide Forget, Free, RenderFlow, HostOpened, HasPrefix;
    ForgetEntries(m.flows, removed, FLOWS);
    forall k | k in m2.flows ensures OwnedFlow(k, m2.flows[k].value, m2.selfs, openings) {
      var f: FlowId :| k == RenderFlow(f) && Free('/', f.profile) && f.profile in m.selfs
                       && f.proto == m.flows[k].value && HostOpened(openings, f);
      FlowPrefix(f.profile, f);
    }
  }

  lemma ForgetKeepsFragments(m: State, m2: State, removed: set<string>, firsts: seq<First>)
    requires FragmentsOwned(m, firsts) && m2.fragments == Forget(m.fragments, removed)
    requires m.selfs.Keys - removed <= m2.selfs.Keys
    ensures FragmentsOwned(m2, firsts)
  {
    hide Forget, Free, RenderFragment, LastSource, HasPrefix;
    ForgetEntries(m.fragments, removed, FRAGMENTS);
    forall k | k in m2.fragments ensures OwnedFragment(k, m2.fragments[k].value, m2.selfs, firsts) {
      var f: FragmentId :| k == RenderFragment(f) && Free('/', f.profile) && f.profile in m.selfs
                           && LastSource(firsts, f) == Some(FragmentSource(m.fragments[k].value, f.src));
      FragmentPrefix(f.profile, f);
    }
  }

  lemma UpdateKeepsOwned(w: World, c: Config)
    requires FlowsOwned(w.mux, w.openings) && FragmentsOwned(w.mux, w.firsts)
    ensures var m := Reconfigure(w.mux, c.targets, c.leases, c.profiles);
            FlowsOwned(m, w.openings) && FragmentsOwned(m, w.firsts)
  {
    hide BuildIndex, ProfileIndex, StartLoops, Forget, PurgedKeys, FlowsOwned, FragmentsOwned;
    var m := Reconfigure(w.mux, c.targets, c.leases, c.profiles);
    var removed := w.mux.selfs.Keys - ProfileIndex(c.profiles).Keys;
    assert m.selfs.Keys == ProfileIndex(c.profiles).Keys;
    ForgetKeepsFlows(w.mux, m, removed, w.openings);
    ForgetKeepsFragments(w.mux, m, removed, w.firsts);
  }

  // ---------------------------------------------------------------- deliveries

  lemma DeliveredIsolated(w: World, p: seq<Byte>, now: int, b: Binding, bytes: seq<Byte>)
    requires Configured(w) && HostStep(w.mux, p, now).1 == Deliver(b, bytes)
    ensures b.tun < |w.queues|
    ensures Isolated(Injection(b.tun, bytes, p, w.config), w.mux.natAddr)
  {
    hide BuildIndex, HostStep, Lookup, Free, Translate, Key, FlowsAfterHost, Configured;
    HostStepEffect(w.mux, p, now);
    LookupConfigured(w, AddrAt(p, 16));
    TranslationTouchesOnly(p, b.self, b.target.canonical, p[9]);
    var index := ProfileIndex(w.config.profiles);
    var prof := index[b.target.profileID];
    assert prof in w.config.profiles && b.target in w.config.targets;
  }

  lemma InboundConfigured(w: World, pid: string, src: Addr)
    requires Configured(w) && InboundKey(pid, src) in w.mux.index.byInbound && Free('/', pid)
    ensures var t := w.mux.index.byInbound[InboundKey(pid, src)].target;
            && t in w.config.targets && t.profileID == pid && t.canonical == src && Key(t) in w.config.leases
            && w.mux.index.byInbound[InboundKey(pid, src)].effective == w.config.leases[Key(t)]
  {
    hide Key, BuildIndex, Free, Dotted, EffectiveSound, RawSound, Complete;
    BuildIndexSound(w.config.targets, w.config.leases, ProfileIndex(w.config.profiles));
    var t := w.mux.index.byInbound[InboundKey(pid, src)].target;
    SplitUnique('/', pid, Dotted(src), t.profileID, Dotted(t.canonical));
    DottedInjective(src, t.canonical);
  }

  /** A later fragment is written with the source of its datagram's last kept first fragment. */
  lemma LaterFragmentSource(w: World, pid: string, p: seq<Byte>, t: Times)
    requires FragmentsOwned(w.mux, w.firsts) && Free('/', pid) && WellFormed(p)
    requires FragmentOffset(p) > 0 && WrittenSource(w.mux, pid, p, t).Some?
    ensures LastSource(w.firsts, FragmentIdOf(pid, p)) == WrittenSource(w.mux, pid, p, t)
  {
    hide RenderFragment, Free, LastSource, HeaderLength, FragmentOffset;
    var key := FragmentKey(pid, p);
    TouchEntries(w.mux.fragments, key, None, t.at, t.stored, FRAGMENTS);
    var v := w.mux.fragments[key].value;
    var f: FragmentId :| key == RenderFragment(f) && Free('/', f.profile) && f.profile in w.mux.selfs
                         && LastSource(w.firsts, f) == Some(FragmentSource(v, f.src));
    FragmentKeyFaithful(f, FragmentIdOf(pid, p));
  }

  /** A first fragment that is kept and written is written with the source its later fragments will get. */
  lemma KeptFirstSource(m: State, pid: string, p: seq<Byte>, t: Times)
    requires WellFormed(p) && ProfileStep(m, pid, p, t).1.ToHost? && KeptState(m, pid, p, t).Some?
    ensures FragmentOffset(p) == 0 && MoreFragments(p)
    ensures var bytes := ProfileStep(m, pid, p, t).1.bytes;
            WellFormed(bytes) && AddrAt(bytes, 12) == FragmentSource(KeptState(m, pid, p, t).value, AddrAt(p, 12))
  {
    hide ProfileStep, Translate, InboundKey, Touch, FragmentOffset, FragmentKey, FlowKey, HeaderLength, MoreFragments,
         Add;
    ProfileStepWrites(m, pid, p, t);
    AttemptGuards(m, pid, p, t);
    TranslationTouchesOnly(p, WrittenSource(m, pid, p, t).value, m.natAddr, p[9]);
  }

  /** A first fragment that is written is kept, under its own key, unless the table holds 8192 unexpired entries. */
  lemma WrittenFirstIsKept(m: State, pid: string, p: seq<Byte>, t: Times)
    requires WellFormed(p) && ProfileStep(m, pid, p, t).1.ToHost? && FragmentOffset(p) == 0 && MoreFragments(p)
    ensures KeptState(m, pid, p, t).Some? <==> |Expire(m.fragments, t.put, FRAGMENTS)| < 8192
    ensures KeptState(m, pid, p, t).Some? ==>
              var m2 := ProfileStep(m, pid, p, t).0;
              && FragmentKey(pid, p) in m2.fragments
              && m2.fragments[FragmentKey(pid, p)] == Entry(KeptState(m, pid, p, t).value, t.put)
  {
    hide ProfileStep, Translate, InboundKey, Touch, FragmentOffset, FragmentKey, FlowKey, HeaderLength, MoreFragments,
         Expire;
    ProfileStepWrites(m, pid, p, t);
    ProfileStepFragments(m, pid, p, t);
    FragmentKeyPresent(pid, p);
  }

  /** The source decided for a packet that is not a later fragment is allowed to it. */
  lemma DecidedIsAllowed(w: World, pid: string, p: seq<Byte>, t: Times)
    requires Configured(w) && FlowsOwned(w.mux, w.openings) && Free('/', pid) && WellFormed(p) && FragmentOffset(p) == 0
    requires WrittenSource(w.mux, pid, p, t).Some?
    ensures SourceAllowed(pid, p, WrittenSource(w.mux, pid, p, t).value, w.config, w.openings)
  {
    hide BuildIndex, Free, Key, InboundKey, Touch, FragmentOffset, FlowKey, FlowsOwned, HeaderLength, HostOpened,
         FlowOf;
    if Touch(w.mux.flows, FlowKey(pid, p, true), Some(p[9]), t.at, t.stored, FLOWS).1 {
      TouchedIsOpened(w.mux, w.openings, pid, p, t);
    } else {
      InboundConfigured(w, pid, AddrAt(p, 12));
    }
  }

  /** A first fragment that is kept gives its later fragments the source decided for itself. */
  lemma KeptIsAllowed(w: World, pid: string, p: seq<Byte>, t: Times)
    requires Configured(w) && FlowsOwned(w.mux, w.openings) && Free('/', pid)
    ensures forall f :: f in Kept(w, pid, p, t) ==> FirstAllowed(f, w.openings)
  {
    hide BuildIndex, Free, Key, InboundKey, Touch, Add, FragmentOffset, MoreFragments, FlowKey, FlowsOwned,
         HeaderLength, Configured, SourceAllowed;
    if WellFormed(p) && KeptState(w.mux, pid, p, t).Some? {
      AttemptGuards(w.mux, pid, p, t);
      DecidedIsAllowed(w, pid, p, t);
      assert w.openings[..|w.openings|] == w.openings;
    }
  }

  lemma WrittenAddressed(w: World, pid: string, p: seq<Byte>, t: Times, bytes: seq<Byte>)
    requires Configured(w) && FlowsOwned(w.mux, w.openings) && FragmentsOwned(w.mux, w.firsts) && Free('/', pid)
    requires ProfileStep(w.mux, pid, p, t).1 == ToHost(bytes)
    ensures Addressed(Delivered(w, pid, p, t, bytes), w.mux.natAddr, w.firsts + Kept(w, pid, p, t), w.openings)
  {
    hide BuildIndex, ProfileStep, Translate, Free, Key, InboundKey, Touch, FragmentOffset, LastSource, FragmentKey,
         FlowKey, FragmentsOwned, FlowsOwned, HeaderLength, KeptState, SourceAllowed, WrittenSource;
    ProfileStepWrites(w.mux, pid, p, t);
    var src := WrittenSource(w.mux, pid, p, t).value;
    TranslationTouchesOnly(p, src, w.mux.natAddr, p[9]);
    ProfileIndexSound(w.config.profiles);
    var prof := ProfileIndex(w.config.profiles)[pid];
    assert prof in w.config.profiles && prof.id == pid && prof.self == AddrAt(p, 16);
    var r, firsts := Delivered(w, pid, p, t, bytes), w.firsts + Kept(w, pid, p, t);
    assert firsts[..|w.firsts|] == w.firsts && w.openings[..|w.openings|] == w.openings;
    if FragmentOffset(p) > 0 {
      LaterFragmentSource(w, pid, p, t);
    } else {
      DecidedIsAllowed(w, pid, p, t);
    }
    assert SourceSound(r, firsts, w.openings);
    if r.kept {
      KeptFirstSource(w.mux, pid, p, t);
    }
    assert FirstSound(r, firsts);
  }

  lemma AddressedStays(r: Delivery, natAddr: Addr, firsts: seq<First>, more: seq<First>, openings: seq<Opening>,
                       alsoOpenings: seq<Opening>)
    requires Addressed(r, natAddr, firsts, openings)
    ensures Addressed(r, natAddr, firsts + more, openings + alsoOpenings)
  {
    hide LastSource, Translate, SourceAllowed, HeaderLength, FragmentOffset, MoreFragments;
    assert (firsts + more)[..r.firsts] == firsts[..r.firsts];
    assert (openings + alsoOpenings)[..r.openings] == openings[..r.openings];
  }

  lemma FirstStays(f: First, openings: seq<Opening>, more: seq<Opening>)
    requires FirstAllowed(f, openings)
    ensures FirstAllowed(f, openings + more)
  {
    hide SourceAllowed, HeaderLength, FragmentOffset, MoreFragments;
    assert (openings + more)[..f.openings] == openings[..f.openings];
  }

  /** Sound records stay sound when more first fragments are kept and more flows opened. */
  lemma RecordsGrow(natAddr: Addr, written: seq<Delivery>, firsts: seq<First>, more: seq<First>, openings: seq<Opening>,
                    alsoOpenings: seq<Opening>)
    requires RecordsSound(natAddr, written, firsts, openings)
    requires forall f :: f in more ==> FirstAllowed(f, openings)
    requires forall o :: o in alsoOpenings ==> OpeningSound(o, natAddr)
    ensures RecordsSound(natAddr, written, firsts + more, openings + alsoOpenings)
  {
    hide Addressed, FirstAllowed, OpeningSound;
    forall r | r in written ensures Addressed(r, natAddr, firsts + more, openings + alsoOpenings) {
      AddressedStays(r, natAddr, firsts, more, openings, alsoOpenings);
    }
    forall f | f in firsts + more ensures FirstAllowed(f, openings + alsoOpenings) {
      FirstStays(f, openings, alsoOpenings);
    }
  }

  /** What a host packet opens is a flow to a canonical address of the profile. */
  lemma OpensSound(w: World, p: seq<Byte>, now: int)
    requires Configured(w)
    ensures forall o :: o in Opens(w, p, now) ==> OpeningSound(o, w.mux.natAddr)
  {
    hide BuildIndex, Lookup, Add, RenderFlow, Free, FragmentOffset, Key, HeaderLength;
    if Opens(w, p, now) != [] {
      LookupConfigured(w, AddrAt(p, 16));
      var pid := Lookup(w.mux.index, AddrAt(p, 16)).value.target.profileID;
      FlowComponents(pid, p);
    }
  }

  lemma FlowComponents(pid: string, p: seq<Byte>)
    ensures FlowOf(pid, p, false).Some? ==>
              FlowOf(pid, p, false).value.profile == pid && FlowOf(pid, p, false).value.remote == AddrAt(p, 16)
  {
  }

  // ---------------------------------------------------------------- the invariant is inductive

  lemma QueuesAfterSend(w: World, tun: nat, r: Injection, queue: Queue, closed: bool, pick: bool)
    requires QueuesSound(w) && tun < |w.queues| && r.tun == tun
    requires TrySend(w.queues[tun], closed, r.bytes, pick) == (queue, Sent)
    ensures QueuesSound(w.(queues := w.queues[tun := queue], injected := w.injected + [r]))
  {
    SendKeepsFifo(w.queues[tun], closed, r.bytes, pick);
    AccountedUpdate(w.queues, tun, queue);
    forall i | 0 <= i < |w.queues| ensures AcceptedBy(w.injected + [r], i) == w.queues[tun := queue][i].accepted {
      AcceptedByAfter(w.injected, r, i);
    }
  }

  lemma QueuesAfterRead(w: World, tun: nat)
    requires QueuesSound(w) && tun < |w.queues| && w.queues[tun].items != []
    ensures QueuesSound(w.(queues := w.queues[tun := Pop(w.queues[tun])]))
  {
    PopKeepsFifo(w.queues[tun]);
    AccountedUpdate(w.queues, tun, Pop(w.queues[tun]));
  }

  lemma HostKeepsInv(w: World, p: seq<Byte>, now: int, pick: bool)
    requires Inv(w) && !w.crashed
    ensures Inv(Step(w, HostPacket(p, now, pick)))
  {
    hide HostStep, QueuesSound, FlowsAfterHost, Lookup, Isolated, RecordsSound, TrySend, FlowsOwned, FragmentsOwned,
         ConfigOk, BuildIndex, ProfileIndex, Translate, Opens, FirstAllowed, OpeningSound;
    HostStepEffect(w.mux, p, now);
    HostFlowsOwned(w, p, now);
    OpensSound(w, p, now);
    var opens := Opens(w, p, now);
    RecordsGrow(w.mux.natAddr, w.written, w.firsts, [], w.openings, opens);
    assert w.firsts + [] == w.firsts;
    var (m, action) := HostStep(w.mux, p, now);
    SameFragmentsOwned(w.mux, m, w.firsts);
    SameFlowsOwned(m, CountDrop(m), w.openings + opens);
    SameFragmentsOwned(m, CountDrop(m), w.firsts);
    SameQueues(w, Step(w, HostPacket(p, now, pick)));
    if action.Deliver? {
      var b, bytes := action.binding, action.bytes;
      DeliveredIsolated(w, p, now, b, bytes);
      var (queue, result) := TrySend(w.queues[b.tun], b.tun in w.closed, bytes, pick);
      var r := Injection(b.tun, bytes, p, w.config);
      if result == Sent {
        QueuesAfterSend(w, b.tun, r, queue, b.tun in w.closed, pick);
        SameQueues(w.(queues := w.queues[b.tun := queue], injected := w.injected + [r]),
                   Step(w, HostPacket(p, now, pick)));
      }
    }
  }

  lemma SameQueues(w: World, w2: World)
    ensures w2.queues == w.queues && w2.injected == w.injected ==> QueuesSound(w2) == QueuesSound(w)
  {
  }

  lemma SameFlowsOwned(m: State, m2: State, openings: seq<Opening>)
    requires m2.flows == m.flows && m2.selfs == m.selfs
    ensures FlowsOwned(m2, openings) == FlowsOwned(m, openings)
  {
  }

  lemma SameFragmentsOwned(m: State, m2: State, firsts: seq<First>)
    requires m2.fragments == m.fragments && m2.selfs == m.selfs
    ensures FragmentsOwned(m2, firsts) == FragmentsOwned(m, firsts)
  {
  }

  lemma ProfileKeepsInv(w: World, tun: nat, p: seq<Byte>, t: Times)
    requires Inv(w) && !w.crashed && tun in w.mux.loops
    ensures Inv(Step(w, ProfilePacket(tun, p, t)))
  {
    hide ProfileStep, QueuesSound, Isolated, Addressed, FirstAllowed, OpeningSound, FlowsOwned, FragmentsOwned,
         ConfigOk, BuildIndex, ProfileIndex, Kept, Translate, Free;
    var pid := w.mux.loops[tun];
    var w2 := Step(w, ProfilePacket(tun, p, t));
    ProfileStepEffect(w.mux, pid, p, t);
    ProfileFlowsOwned(w, pid, p, t);
    ProfileFragmentsOwned(w, pid, p, t);
    SameQueues(w, w2);
    var (m, action) := ProfileStep(w.mux, pid, p, t);
    KeptIsAllowed(w, pid, p, t);
    RecordsGrow(w.mux.natAddr, w.written, w.firsts, Kept(w, pid, p, t), w.openings, []);
    assert w.openings + [] == w.openings;
    if action.ToHost? {
      WrittenAddressed(w, pid, p, t, action.bytes);
    }
  }

  lemma UpdateKeepsInv(w: World, c: Config)
    requires Inv(w) && !w.crashed && ConfigOk(c, |w.queues|)
    ensures Inv(Step(w, Update(c)))
  {
    hide QueuesSound, Isolated, RecordsSound, FlowsOwned, FragmentsOwned, BuildIndex, ProfileIndex, StartLoops, Forget,
         Free, PurgedKeys, FreeTargets;
    UpdateKeepsOwned(w, c);
    LoopsFree(w.mux.loops, c.profiles);
    SameQueues(w, Step(w, Update(c)));
  }

  lemma DeviceKeepsInv(w: World, e: Event)
    requires Inv(w) && !w.crashed && (e.DeviceRead? || e.DeviceClose?) && Enabled(w, e)
    ensures Inv(Step(w, e))
  {
    hide Isolated, RecordsSound, FlowsOwned, FragmentsOwned, BuildIndex, ProfileIndex, Free, QueuesSound, FreeTargets;
    if e.DeviceRead? {
      QueuesAfterRead(w, e.tun);
    } else {
      SameQueues(w, Step(w, e));
    }
  }

  lemma StepKeepsInv(w: World, e: Event)
    requires Inv(w) && Enabled(w, e)
    ensures Inv(Step(w, e))
  {
    if !w.crashed {
      match e
      case HostPacket(p, now, pick) => HostKeepsInv(w, p, now, pick);
      case ProfilePacket(tun, p, t) => ProfileKeepsInv(w, tun, p, t);
      case Update(c) => UpdateKeepsInv(w, c);
      case DeviceRead(_) => DeviceKeepsInv(w, e);
      case DeviceClose(_) => DeviceKeepsInv(w, e);
    }
  }

  lemma {:induction false} EmptyQueuesAccounted(queues: seq<Queue>)
    requires forall i :: 0 <= i < |queues| ==> queues[i].items == [] && queues[i].taken == []
    ensures Accounted(queues) == 0
  {
    if |queues| > 0 {
      EmptyQueuesAccounted(queues[..|queues| - 1]);
    }
  }

  lemma StartInv(natAddr: Addr, config: Config, depths: seq<nat>, clock: int)
    requires ConfigOk(config, |depths|)
    ensures Inv(Start(natAddr, config, depths, clock))
  {
    hide BuildIndex, ProfileIndex, Free, FreeTargets;
    LoopsFree(map[], config.profiles);
    EmptyQueuesAccounted(Start(natAddr, config, depths, clock).queues);
  }

  lemma {:induction false} RunKeepsInv(w: World, es: seq<Event>)
    requires Inv(w) && EnabledRun(w, es)
    ensures Inv(Run(w, es))
    decreases |es|
  {
    hide Inv, Enabled, Step;
    if |es| > 0 {
      StepKeepsInv(w, es[0]);
      RunKeepsInv(Step(w, es[0]), es[1..]);
    }
  }

  // ---------------------------------------------------------------- main results over runs

  /** w is the state after the enabled events es, from a start in this configuration. */
  ghost predicate Reached(w: World, natAddr: Addr, config: Config, depths: seq<nat>, clock: int, es: seq<Event>) {
    && ConfigOk(config, |depths|)
    && EnabledRun(Start(natAddr, config, depths, clock), es)
    && w == Run(Start(natAddr, config, depths, clock), es)
  }

  ghost predicate Reachable(w: World) {
    exists natAddr, config, depths, clock, es :: Reached(w, natAddr, config, depths, clock, es)
  }

  lemma ReachableInv(w: World)
    requires Reachable(w)
    ensures Inv(w)
  {
    hide Run, Start, EnabledRun, Inv, ConfigOk;
    var natAddr, config, depths, clock, es :| Reached(w, natAddr, config, depths, clock, es);
    StartInv(natAddr, config, depths, clock);
    RunKeepsInv(Start(natAddr, config, depths, clock), es);
  }

  /**
   Isolation: over every run, what a device's queue accepted came from the NAT address and carries its own
   profile's addresses; what a profile wrote was addressed to that profile and leaves for the NAT address from a
   source it is allowed; and flows were openings only to canonical addresses of their profile.
   */
  lemma ProfilesStayIsolated(w: World)
    requires Reachable(w)
    ensures forall r :: r in w.injected ==> Isolated(r, w.mux.natAddr)
    ensures RecordsSound(w.mux.natAddr, w.written, w.firsts, w.openings)
  {
    hide Reachable, Isolated, RecordsSound;
    ReachableInv(w);
  }

  /** Before, the host itself sent to this canonical address of the profile, over the same protocol. */
  ghost predicate Solicited(openings: seq<Opening>, natAddr: Addr, pid: string, proto: Byte, remote: Addr) {
    exists o :: o in openings && OpeningSound(o, natAddr)
                && o.flow.profile == pid && o.flow.proto == proto && o.flow.remote == remote
  }

  /** Under this configuration the target t has the lease. */
  ghost predicate LeasedTo(c: Config, t: Target, pid: string, canonical: Addr, lease: Addr) {
    t in c.targets && t.profileID == pid && t.canonical == canonical && Key(t) in c.leases && c.leases[Key(t)] == lease
  }

  lemma {:induction false} LastSourceIn(firsts: seq<First>, id: FragmentId)
    requires LastSource(firsts, id).Some?
    ensures exists f :: f in firsts && f.id == id && f.source == LastSource(firsts, id).value
  {
    var last := firsts[|firsts| - 1];
    if last.id == id {
      assert last in firsts;
    } else {
      LastSourceIn(firsts[..|firsts| - 1], id);
      var f :| f in firsts[..|firsts| - 1] && f.id == id && f.source == LastSource(firsts, id).value;
      assert f in firsts;
    }
  }

  /**
   Nothing unsolicited keeps its source: over every run, each packet a profile wrote to the host, later fragments
   included, either carries the lease of the target it came from, or its own source, to which the host had sent a
   packet over the same protocol when that was a canonical address of one of the profile's leased targets.
   */
  lemma SourcesAreSolicited(w: World, r: Delivery)
    requires Reachable(w) && r in w.written
    ensures WellFormed(r.packet) && WellFormed(r.bytes)
    ensures var remote, source := AddrAt(r.packet, 12), AddrAt(r.bytes, 12);
            || (source == remote && Solicited(w.openings, w.mux.natAddr, r.pid, r.packet[9], remote))
            || exists c, t :: LeasedTo(c, t, r.pid, remote, source)
  {
    hide Reachable, Inv, LastSource, OpeningSound, SourceAllowed;
    ProfilesStayIsolated(w);
    assert Addressed(r, w.mux.natAddr, w.firsts, w.openings);
    if FragmentOffset(r.packet) > 0 {
      var id := FragmentIdOf(r.pid, r.packet);
      LastSourceIn(w.firsts[..r.firsts], id);
      var f :| f in w.firsts[..r.firsts] && f.id == id && f.source == AddrAt(r.bytes, 12);
      assert f in w.firsts && FirstAllowed(f, w.openings);
      AllowedIsSolicited(w, r.pid, f.packet, f.source, f.config, f.openings);
    } else {
      AllowedIsSolicited(w, r.pid, r.packet, AddrAt(r.bytes, 12), r.config, r.openings);
    }
  }

  lemma AllowedIsSolicited(w: World, pid: string, p: seq<Byte>, source: Addr, config: Config, n: nat)
    requires WellFormed(p) && n <= |w.openings| && SourceAllowed(pid, p, source, config, w.openings[..n])
    requires forall o :: o in w.openings ==> OpeningSound(o, w.mux.natAddr)
    ensures || (source == AddrAt(p, 12) && Solicited(w.openings, w.mux.natAddr, pid, p[9], source))
            || exists c, t :: LeasedTo(c, t, pid, AddrAt(p, 12), source)
  {
    hide OpeningSound, HeaderLength;
    if source == AddrAt(p, 12) && FlowOf(pid, p, true).Some?
        && HostOpened(w.openings[..n], FlowOf(pid, p, true).value) {
      var o :| o in w.openings[..n] && o.flow == FlowOf(pid, p, true).value;
      assert o in w.openings;
    } else {
      var t :| t in config.targets && t.profileID == pid && t.canonical == AddrAt(p, 12) && Key(t) in config.leases
               && source == config.leases[Key(t)];
      assert LeasedTo(config, t, pid, AddrAt(p, 12), source);
    }
  }

  /**
   Conservation: while the process lives, every host packet read was counted as a drop, is still queued, or
   was taken by Read, and each device's queue is first in, first out.
   */
  lemma HostPacketsConserved(w: World)
    requires Reachable(w)
    ensures !w.crashed ==> w.mux.counters.hostPackets == w.mux.counters.drops + Accounted(w.queues)
    ensures forall i :: 0 <= i < |w.queues| ==>
              |w.queues[i].items| <= w.queues[i].depth
              && AcceptedBy(w.injected, i) == w.queues[i].taken + w.queues[i].items
  {
    hide Reachable, Accounted, AcceptedBy;
    ReachableInv(w);
  }

  /** Withdrawn profiles leave no state, and both tables stay within their bounds. */
  lemma OnlyServedProfilesHaveState(w: World)
    requires Reachable(w)
    ensures |w.mux.flows| <= 65536 && |w.mux.fragments| <= 8192
    ensures forall k :: k in w.mux.flows ==> exists id :: id in w.mux.selfs && Free('/', id) && HasPrefix(k, id + ['/'])
    ensures forall k :: k in w.mux.fragments ==>
              exists id :: id in w.mux.selfs && Free('/', id) && HasPrefix(k, id + ['/'])
  {
    hide Reachable, Configured, QueuesSound, Conserved, Isolated, FlowsOwned, FragmentsOwned, RecordsSound, HasPrefix,
         Free;
    ReachableInv(w);
    OwnedIsServed(w.mux, w.firsts, w.openings);
  }

  lemma OwnedIsServed(m: State, firsts: seq<First>, openings: seq<Opening>)
    requires FlowsOwned(m, openings) && FragmentsOwned(m, firsts)
    ensures |m.flows| <= 65536 && |m.fragments| <= 8192
    ensures forall k :: k in m.flows ==> exists id :: id in m.selfs && Free('/', id) && HasPrefix(k, id + ['/'])
    ensures forall k :: k in m.fragments ==> exists id :: id in m.selfs && Free('/', id) && HasPrefix(k, id + ['/'])
  {
    hide Free, LastSource, Decimal, Dotted, Hex;
    forall k | k in m.flows ensures exists id :: id in m.selfs && Free('/', id) && HasPrefix(k, id + ['/']) {
      var f: FlowId :| k == RenderFlow(f) && Free('/', f.profile) && f.profile in m.selfs;
      assert HasPrefix(k, f.profile + ['/']);
    }
    forall k | k in m.fragments ensures exists id :: id in m.selfs && Free('/', id) && HasPrefix(k, id + ['/']) {
      var f: FragmentId :| k == RenderFragment(f) && Free('/', f.profile) && f.profile in m.selfs;
      assert HasPrefix(k, f.profile + ['/']);
    }
  }

  /**
   Update deletes exactly the flows of the profiles it withdraws, keeps every other entry as it was, and adds
   exactly the number deleted to the counters.
   */
  lemma UpdatePurgesExactly(w: World, c: Config)
    requires Inv(w) && !w.crashed && ConfigOk(c, |w.queues|)
    ensures var m, m2 := w.mux, Step(w, Update(c)).mux;
            && (forall f: FlowId :: Free('/', f.profile) && RenderFlow(f) in m.flows ==>
                  (RenderFlow(f) in m2.flows <==> f.profile in m2.selfs))
            && (forall f: FragmentId :: Free('/', f.profile) && RenderFragment(f) in m.fragments ==>
                  (RenderFragment(f) in m2.fragments <==> f.profile in m2.selfs))
            && (forall k :: k in m2.flows ==> k in m.flows && m2.flows[k] == m.flows[k])
            && (forall k :: k in m2.fragments ==> k in m.fragments && m2.fragments[k] == m.fragments[k])
            && m2.counters.purgedFlows - m.counters.purgedFlows == |m.flows| - |m2.flows|
            && m2.counters.purgedFragments - m.counters.purgedFragments == |m.fragments| - |m2.fragments|
  {
    hide BuildIndex, StartLoops, Forget, Free, RenderFlow, RenderFragment, QueuesSound, Conserved, Isolated, FlowsOwned,
         FragmentsOwned, RecordsSound, PurgedKeys, ProfileIndex;
    var m, m2 := w.mux, Step(w, Update(c)).mux;
    var removed := m.selfs.Keys - ProfileIndex(c.profiles).Keys;
    assert m2.selfs.Keys == ProfileIndex(c.profiles).Keys;
    SelfsFree(w);
    ForgetEntries(m.flows, removed, FLOWS);
    ForgetEntries(m.fragments, removed, FRAGMENTS);
    FlowsPurgedExactly(m, removed, w.openings);
    FragmentsPurgedExactly(m, removed, w.firsts);
  }

  lemma FlowsPurgedExactly(m: State, removed: set<string>, openings: seq<Opening>)
    requires FlowsOwned(m, openings) && forall id :: id in removed ==> Free('/', id)
    ensures forall f: FlowId :: Free('/', f.profile) && RenderFlow(f) in m.flows ==>
              f.profile in m.selfs && (RenderFlow(f) in Forget(m.flows, removed) <==> f.profile !in removed)
  {
    hide Forget, Free, RenderFlow, HostOpened, Purges;
    ForgetEntries(m.flows, removed, FLOWS);
    forall f: FlowId | Free('/', f.profile) && RenderFlow(f) in m.flows
      ensures f.profile in m.selfs && (RenderFlow(f) in Forget(m.flows, removed) <==> f.profile !in removed)
    {
      assert OwnedFlow(RenderFlow(f), m.flows[RenderFlow(f)].value, m.selfs, openings);
      var g: FlowId :| RenderFlow(f) == RenderFlow(g) && Free('/', g.profile) && g.profile in m.selfs;
      FlowKeyFaithful(f, g);
      FlowPurgedIff(removed, f);
    }
  }

  lemma FragmentsPurgedExactly(m: State, removed: set<string>, firsts: seq<First>)
    requires FragmentsOwned(m, firsts) && forall id :: id in removed ==> Free('/', id)
    ensures forall f: FragmentId :: Free('/', f.profile) && RenderFragment(f) in m.fragments ==>
              f.profile in m.selfs && (RenderFragment(f) in Forget(m.fragments, removed) <==> f.profile !in removed)
  {
    hide Forget, Free, RenderFragment, LastSource, Purges;
    ForgetEntries(m.fragments, removed, FRAGMENTS);
    forall f: FragmentId | Free('/', f.profile) && RenderFragment(f) in m.fragments
      ensures f.profile in m.selfs && (RenderFragment(f) in Forget(m.fragments, removed) <==> f.profile !in removed)
    {
      assert OwnedFragment(RenderFragment(f), m.fragments[RenderFragment(f)].value, m.selfs, firsts);
      var g: FragmentId :| RenderFragment(f) == RenderFragment(g) && Free('/', g.profile) && g.profile in m.selfs;
      FragmentKeyFaithful(f, g);
      FragmentPurgedIff(removed, f);
    }
  }

  lemma SelfsFree(w: World)
    requires Configured(w)
    ensures forall id :: id in w.mux.selfs ==> Free('/', id)
  {
    hide BuildIndex, Free;
    ProfileIndexSound(w.config.profiles);
    forall id | id in w.mux.selfs ensures Free('/', id) {
      assert ProfileIndex(w.config.profiles)[id] in w.config.profiles;
    }
  }

  lemma FlowPurgedIff(removed: set<string>, f: FlowId)
    requires Free('/', f.profile) && forall id :: id in removed ==> Free('/', id)
    ensures Purges(removed, RenderFlow(f)) <==> f.profile in removed
  {
    hide RenderFlow, HasPrefix;
    forall id | id in removed ensures HasPrefix(RenderFlow(f), id + ['/']) <==> f.profile == id {
      FlowPrefix(id, f);
    }
  }

  lemma FragmentPurgedIff(removed: set<string>, f: FragmentId)
    requires Free('/', f.profile) && forall id :: id in removed ==> Free('/', id)
    ensures Purges(removed, RenderFragment(f)) <==> f.profile in removed
  {
    hide RenderFragment, HasPrefix;
    forall id | id in removed ensures HasPrefix(RenderFragment(f), id + ['/']) <==> f.profile == id {
      FragmentPrefix(id, f);
    }
  }

  lemma {:induction false} LastSourceIs(firsts: seq<First>, i: nat, n: nat)
    requires i < n <= |firsts| && forall j :: i < j < n ==> firsts[j].id != firsts[i].id
    ensures LastSource(firsts[..n], firsts[i].id) == Some(firsts[i].source)
    decreases n
  {
    assert firsts[..n][..n - 1] == firsts[..n - 1];
    if i < n - 1 {
      LastSourceIs(firsts, i, n - 1);
    }
  }

  /** `later` is a later fragment of the datagram whose first fragment last kept before it is `first`. */
  ghost predicate Follows(w: World, first: Delivery, later: Delivery) {
    && first in w.written && first.kept && later in w.written
    && |first.packet| >= 20 && |later.packet| >= 20 && FragmentOffset(later.packet) > 0
    && FragmentIdOf(first.pid, first.packet) == FragmentIdOf(later.pid, later.packet)
    && first.firsts < later.firsts <= |w.firsts|
    && forall j :: first.firsts < j < later.firsts ==> w.firsts[j].id != FragmentIdOf(first.pid, first.packet)
  }

  /**
   Fragments of one datagram stay together: over every run, if the first fragment last kept for a profile,
   protocol, pair of addresses and identification was written to the host, then every later fragment that is
   written under the same components leaves with the very source the first one left with, and for the NAT
   address like it, whatever reconfigurations happened in between.
   */
  lemma FragmentsStayTogether(w: World, first: Delivery, later: Delivery)
    requires Reachable(w) && Follows(w, first, later)
    ensures WellFormed(first.bytes) && WellFormed(later.bytes)
    ensures AddrAt(later.bytes, 12) == AddrAt(first.bytes, 12)
    ensures AddrAt(later.bytes, 16) == AddrAt(first.bytes, 16) == w.mux.natAddr
    ensures FragmentOffset(first.packet) == 0 && MoreFragments(first.packet)
  {
    hide Reachable, RecordsSound, Follows, FragmentOffset, MoreFragments, HeaderLength, AddrAt;
    ProfilesStayIsolated(w);
    TogetherIn(w, first, later);
  }

  lemma TogetherIn(w: World, first: Delivery, later: Delivery)
    requires RecordsSound(w.mux.natAddr, w.written, w.firsts, w.openings) && Follows(w, first, later)
    ensures WellFormed(first.bytes) && WellFormed(later.bytes)
    ensures AddrAt(later.bytes, 12) == AddrAt(first.bytes, 12)
    ensures AddrAt(later.bytes, 16) == AddrAt(first.bytes, 16) == w.mux.natAddr
    ensures FragmentOffset(first.packet) == 0 && MoreFragments(first.packet)
  {
    hide LastSource, FragmentOffset, HeaderLength, MoreFragments, SourceAllowed, FirstAllowed, OpeningSound, Translate;
    assert Addressed(first, w.mux.natAddr, w.firsts, w.openings)
        && Addressed(later, w.mux.natAddr, w.firsts, w.openings);
    LastSourceIs(w.firsts, first.firsts, later.firsts);
  }
}
