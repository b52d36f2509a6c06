/**
 The multiplexer as a function of its state: the binding indexes, one host packet, one profile packet, and a
 reconfiguration. Times are clock readings in nanoseconds.
 */
module Mux {
  import opened Bytes
  import opened Rewrite
  import opened Text
  import opened Keys
  import opened LazyTable
  import opened Inventory
  import opened Wrappers

  const SECOND := 1_000_000_000

  /** A profile the datapath serves; `tun` identifies its packet device. */
  datatype DatapathProfile = DatapathProfile(id: string, self: Addr, tun: nat)

  datatype Binding = Binding(target: Target, effective: Addr, self: Addr, tun: nat)

  datatype Index = Index(byEffective: map<Addr, Binding>, byInbound: map<string, Binding>, raw: map<Addr, Binding>)

  function InboundKey(pid: string, ip: Addr): string {
    pid + ['/'] + Dotted(ip)
  }

  /** Profiles by identifier; a later entry replaces an earlier one. */
  function ProfileIndex(profiles: seq<DatapathProfile>): map<string, DatapathProfile> {
    if |profiles| == 0 then map[]
    else
      var last := profiles[|profiles| - 1];
      ProfileIndex(profiles[..|profiles| - 1])[last.id := last]
  }

  lemma {:induction false} ProfileIndexSound(profiles: seq<DatapathProfile>)
    ensures forall id :: id in ProfileIndex(profiles) ==>
              ProfileIndex(profiles)[id] in profiles && ProfileIndex(profiles)[id].id == id
  {
    if |profiles| > 0 {
      ProfileIndexSound(profiles[..|profiles| - 1]);
    }
  }

  function Selfs(index: map<string, DatapathProfile>): map<string, Addr> {
    map id | id in index :: index[id].self
  }

  predicate Eligible(t: Target, leases: map<string, Addr>, index: map<string, DatapathProfile>) {
    t.profileID in index && Key(t) in leases
  }

  function Bind(t: Target, leases: map<string, Addr>, index: map<string, DatapathProfile>): Binding
    requires Eligible(t, leases, index)
  {
    Binding(t, leases[Key(t)], index[t.profileID].self, index[t.profileID].tun)
  }

  function AddBinding(x: Index, b: Binding): Index {
    Index(x.byEffective[b.effective := b],
          x.byInbound[InboundKey(b.target.profileID, b.target.canonical) := b],
          if b.target.canonical in x.raw then x.raw else x.raw[b.target.canonical := b])
  }

  /** The loop of `New` over the targets. */
  function BuildIndex(targets: seq<Target>, leases: map<string, Addr>, index: map<string, DatapathProfile>): Index {
    if |targets| == 0 then Index(map[], map[], map[])
    else
      var t := targets[|targets| - 1];
      var before := BuildIndex(targets[..|targets| - 1], leases, index);
      if Eligible(t, leases, index) then AddBinding(before, Bind(t, leases, index)) else before
  }

  // ---------------------------------------------------------------- state

  /** What a first fragment leaves for the later ones: the source stays, or becomes the binding's address. */
  datatype FragmentState = RawReply | Bound(binding: Binding)

  function FlowTimeout(proto: Byte): int {
    if proto == TCP then 300 * SECOND else if proto == UDP then 60 * SECOND else 30 * SECOND
  }

  const FLOWS: Policy<Byte> := Policy(FlowTimeout, 65536)
  const FRAGMENTS: Policy<FragmentState> := Policy((s: FragmentState) => 30 * SECOND, 8192)

  datatype Counters = Counters(hostPackets: nat, profilePackets: nat, drops: nat, flowLimitDrops: nat,
                               fragmentLimitDrops: nat, purgedFlows: nat, purgedFragments: nat)

  datatype State = State(
    natAddr: Addr,
    index: Index,
    selfs: map<string, Addr>,
    flows: Table<Byte>,
    fragments: Table<FragmentState>,
    counters: Counters,
    loops: map<nat, string>)

  // ---------------------------------------------------------------- packets from the host

  datatype HostAction = HostDrop | Deliver(binding: Binding, bytes: seq<Byte>) | HostPanic

  function Lookup(x: Index, dst: Addr): Option<Binding> {
    if dst in x.byEffective then Some(x.byEffective[dst])
    else if dst in x.raw then Some(x.raw[dst])
    else None
  }

  function CountDrop(m: State): State {
    m.(counters := m.counters.(drops := m.counters.drops + 1))
  }

  /** `addFlow` on the engine. */
  function AddFlow(m: State, key: string, proto: Byte, now: int): (State, bool) {
    var (flows, ok) := Add(m.flows, key, proto, now, FLOWS);
    var refused := if key != "" && !ok then 1 else 0;
    (m.(flows := flows, counters := m.counters.(flowLimitDrops := m.counters.flowLimitDrops + refused)), ok)
  }

  function Forward(m: State, b: Binding, p: seq<Byte>, proto: Byte): (r: (State, HostAction))
    requires WellFormed(p)
    ensures r.1.Deliver? ==> r.1.binding == b
  {
    match Translate(p, b.self, b.target.canonical, proto)
    case Translated(q) => (m, Deliver(b, q))
    case Rejected(_) => (CountDrop(m), HostDrop)
    case Panicked => (m, HostPanic)
  }

  /** The first half of `hostLoop`: which binding a host packet is sent through, if any. */
  function Admit(m0: State, p: seq<Byte>, now: int): (State, Option<Binding>) {
    var m := m0.(counters := m0.counters.(hostPackets := m0.counters.hostPackets + 1));
    match ParseIPv4(p)
    case None => (CountDrop(m), None)
    case Some(h) =>
      if h.src != m.natAddr then (CountDrop(m), None)
      else
        match Lookup(m.index, h.dst)
        case None => (CountDrop(m), None)
        case Some(b) =>
          if h.dst != b.effective && FragmentOffset(p) == 0 then
            var (m2, ok) := AddFlow(m, FlowKey(b.target.profileID, p, false), h.proto, now);
            if ok then (m2, Some(b)) else (CountDrop(m2), None)
          else (m, Some(b))
  }

  /** The body of `hostLoop` up to the hand-over to the profile's device. */
  function HostStep(m: State, p: seq<Byte>, now: int): (State, HostAction) {
    match Admit(m, p, now)
    case (m2, None) => (m2, HostDrop)
    case (m2, Some(b)) => Forward(m2, b, p, p[9])
  }

  // ---------------------------------------------------------------- packets from a profile

  datatype ProfileAction = ProfileDrop | ToHost(bytes: seq<Byte>) | ProfilePanic

  /** The clock readings of one packet: expiry test, new time stamp, and a fragment entry. */
  datatype Times = Times(at: int, stored: int, put: int)

  predicate Ordered(t: Times) {
    t.at <= t.stored <= t.put
  }

  function WriteHost(m: State, p: seq<Byte>, src: Addr, proto: Byte): (State, ProfileAction)
    requires WellFormed(p)
  {
    match Translate(p, src, m.natAddr, proto)
    case Translated(q) => (m, ToHost(q))
    case Rejected(_) => (m, ProfileDrop)
    case Panicked => (m, ProfilePanic)
  }

  /** `putFragment` on the engine. */
  function PutFragment(m: State, key: string, v: FragmentState, now: int): State {
    var (fragments, ok) := Add(m.fragments, key, v, now, FRAGMENTS);
    var refused := if key != "" && !ok then 1 else 0;
    m.(fragments := fragments, counters := m.counters.(fragmentLimitDrops := m.counters.fragmentLimitDrops + refused))
  }

  function FragmentSource(v: FragmentState, src: Addr): Addr {
    match v
    case RawReply => src
    case Bound(b) => b.effective
  }

  function LaterFragment(m: State, pid: string, p: seq<Byte>, h: Header, t: Times): (State, ProfileAction)
    requires WellFormed(p)
  {
    var key := FragmentKey(pid, p);
    var (fragments, ok) := Touch(m.fragments, key, None, t.at, t.stored, FRAGMENTS);
    var m2 := m.(fragments := fragments);
    if ok then WriteHost(m2, p, FragmentSource(m.fragments[key].value, h.src), h.proto)
    else (m2, ProfileDrop)
  }

  function FirstPacket(m: State, pid: string, p: seq<Byte>, h: Header, t: Times): (State, ProfileAction)
    requires WellFormed(p)
  {
    var (flows, replied) := Touch(m.flows, FlowKey(pid, p, true), Some(h.proto), t.at, t.stored, FLOWS);
    var m2 := m.(flows := flows);
    if replied then
      var m3 := if MoreFragments(p) then PutFragment(m2, FragmentKey(pid, p), RawReply, t.put) else m2;
      WriteHost(m3, p, h.src, h.proto)
    else
      var key := InboundKey(pid, h.src);
      if key !in m2.index.byInbound then (m2, ProfileDrop)
      else
        var b := m2.index.byInbound[key];
        var m3 := if MoreFragments(p) then PutFragment(m2, FragmentKey(pid, p), Bound(b), t.put) else m2;
        WriteHost(m3, p, b.effective, h.proto)
  }

  /** The body of `profileLoop`. */
  function ProfileStep(m0: State, pid: string, p: seq<Byte>, t: Times): (State, ProfileAction) {
    var m := m0.(counters := m0.counters.(profilePackets := m0.counters.profilePackets + 1));
    match ParseIPv4(p)
    case None => (m, ProfileDrop)
    case Some(h) =>
      if pid !in m.selfs || h.dst != m.selfs[pid] then (m, ProfileDrop)
      else if FragmentOffset(p) > 0 then LaterFragment(m, pid, p, h, t)
      else FirstPacket(m, pid, p, h, t)
  }

  // ---------------------------------------------------------------- reconfiguration

  /** `ensureProfileLoops`: every device gets one loop, for the profile it was first seen with. */
  function StartLoops(loops: map<nat, string>, profiles: seq<DatapathProfile>): map<nat, string> {
    if |profiles| == 0 then loops
    else
      var last := profiles[|profiles| - 1];
      var before := StartLoops(loops, profiles[..|profiles| - 1]);
      if last.tun in before then before else before[last.tun := last.id]
  }

  function PurgedKeys<V>(t: Table<V>, removed: set<string>): set<string> {
    set k | k in t && Purges(removed, k)
  }

  function NewState(natAddr: Addr, targets: seq<Target>, leases: map<string, Addr>,
                    profiles: seq<DatapathProfile>): State
  {
    var index := ProfileIndex(profiles);
    State(natAddr, BuildIndex(targets, leases, index), Selfs(index), map[], map[], Counters(0, 0, 0, 0, 0, 0, 0),
          StartLoops(map[], profiles))
  }

  function Reconfigure(m: State, targets: seq<Target>, leases: map<string, Addr>, profiles: seq<DatapathProfile>): State
  {
    var index := ProfileIndex(profiles);
    var removed := m.selfs.Keys - index.Keys;
    State(m.natAddr, BuildIndex(targets, leases, index), Selfs(index), Forget(m.flows, removed),
          Forget(m.fragments, removed),
          m.counters.(purgedFlows := m.counters.purgedFlows + |PurgedKeys(m.flows, removed)|,
                      purgedFragments := m.counters.purgedFragments + |PurgedKeys(m.fragments, removed)|),
          StartLoops(m.loops, profiles))
  }
}
