/**
 The engine's two tables against their histories: which acceptances and withdrawals a run performs, and that
 every answer the engine gets from a table is the answer of that history.
 */
module MuxHistory {
  import opened Bytes
  import opened Rewrite
  import opened Keys
  import opened LazyTable
  import opened PacketTun
  import opened Text
  import opened Mux
  import opened MuxIndex
  import opened MuxRuns
  import opened Wrappers

  /** The operation one event performs on the flow table, if any. */
  function FlowOp(w: World, e: Event): Option<Op<Byte>> {
    if w.crashed then None
    else
      match e
      case HostPacket(p, now, _) =>
        if RecordsFlow(w.mux, p) then
          Some(AddOp(FlowKey(Lookup(w.mux.index, AddrAt(p, 16)).value.target.profileID, p, false), p[9], now))
        else None
      case ProfilePacket(tun, p, t) =>
        if tun in w.mux.loops && FlowLookedUp(w.mux, w.mux.loops[tun], p) then
          Some(TouchOp(FlowKey(w.mux.loops[tun], p, true), Some(p[9]), t.at, t.stored))
        else None
      case Update(c) => Some(ForgetOp(w.mux.selfs.Keys - ProfileIndex(c.profiles).Keys))
      case DeviceRead(_) => None
      case DeviceClose(_) => None
  }

  predicate FlowLookedUp(m: State, pid: string, p: seq<Byte>) {
    WellFormed(p) && pid in m.selfs && AddrAt(p, 16) == m.selfs[pid] && FragmentOffset(p) == 0
  }

  /** The operation one event performs on the fragment table, if any. */
  function FragmentOp(w: World, e: Event): Option<Op<FragmentState>> {
    if w.crashed then None
    else
      match e
      case HostPacket(_, _, _) => None
      case ProfilePacket(tun, p, t) =>
        if tun !in w.mux.loops || !WellFormed(p) then None
        else
          var pid := w.mux.loops[tun];
          if pid !in w.mux.selfs || AddrAt(p, 16) != w.mux.selfs[pid] then None
          else if FragmentOffset(p) > 0 then Some(TouchOp(FragmentKey(pid, p), None, t.at, t.stored))
          else
            (match FirstAttempt(w.mux, pid, p, t)
             case None => None
             case Some(v) => Some(AddOp(FragmentKey(pid, p), v, t.put)))
      case Update(c) => Some(ForgetOp(w.mux.selfs.Keys - ProfileIndex(c.profiles).Keys))
      case DeviceRead(_) => None
      case DeviceClose(_) => None
  }

  function Grown<V>(h: seq<TableEvent<V>>, op: Option<Op<V>>, policy: Policy<V>): seq<TableEvent<V>> {
    match op
    case None => h
    case Some(o) => SpecStep(h, o, policy).0
  }

  function Changed<V>(t: Table<V>, op: Option<Op<V>>, policy: Policy<V>): Table<V> {
    match op
    case None => t
    case Some(o) => TableStep(t, o, policy).0
  }

  /** What the flow table was asked to accept and withdraw during a run. */
  function FlowHistory(w: World, h: seq<TableEvent<Byte>>, es: seq<Event>): seq<TableEvent<Byte>>
    decreases |es|
  {
    if |es| == 0 then h else FlowHistory(Step(w, es[0]), Grown(h, FlowOp(w, es[0]), FLOWS), es[1..])
  }

  function FragmentHistory(w: World, h: seq<TableEvent<FragmentState>>, es: seq<Event>): seq<TableEvent<FragmentState>>
    decreases |es|
  {
    if |es| == 0 then h else FragmentHistory(Step(w, es[0]), Grown(h, FragmentOp(w, es[0]), FRAGMENTS), es[1..])
  }

  // ---------------------------------------------------------------- the engine performs those operations

  lemma FlowOpIsPerformed(w: World, e: Event)
    requires Enabled(w, e)
    ensures Step(w, e).mux.flows == Changed(w.mux.flows, FlowOp(w, e), FLOWS)
  {
    hide HostStep, ProfileStep, Add, Touch, Forget, FlowKey, FragmentOffset, TrySend, Kept, BuildIndex, Translate,
         Lookup, PurgedKeys, FreeTargets, HeaderLength;
    if !w.crashed {
      match e
      case HostPacket(p, now, _) =>
        HostStepEffect(w.mux, p, now);
      case ProfilePacket(tun, p, t) =>
        ProfileFlows(w.mux, w.mux.loops[tun], p, t);
      case Update(_) =>
      case DeviceRead(_) =>
      case DeviceClose(_) =>
    }
  }

  lemma ProfileFlows(m: State, pid: string, p: seq<Byte>, t: Times)
    ensures ProfileStep(m, pid, p, t).0.flows ==
              if FlowLookedUp(m, pid, p) then Touch(m.flows, FlowKey(pid, p, true), Some(p[9]), t.at, t.stored, FLOWS).0
              else m.flows
  {
    hide Translate, FlowKey, FragmentKey, FragmentOffset, MoreFragments, Add, Touch, HeaderLength, InboundKey;
  }

  lemma FragmentOpIsPerformed(w: World, e: Event)
    requires Enabled(w, e)
    ensures Step(w, e).mux.fragments == Changed(w.mux.fragments, FragmentOp(w, e), FRAGMENTS)
  {
    hide HostStep, ProfileStep, Add, Touch, Forget, FragmentKey, FragmentOffset, TrySend, Kept, BuildIndex, Translate,
         PurgedKeys, FreeTargets, HeaderLength, FlowsAfterHost, FirstAttempt;
    if !w.crashed {
      match e
      case HostPacket(p, now, _) =>
        HostStepEffect(w.mux, p, now);
      case ProfilePacket(tun, p, t) =>
        ProfileStepFragments(w.mux, w.mux.loops[tun], p, t);
      case Update(_) =>
      case DeviceRead(_) =>
      case DeviceClose(_) =>
    }
  }

  lemma ChangedRefines<V>(t: Table<V>, h: seq<TableEvent<V>>, clock: int, op: Option<Op<V>>, later: int,
                          policy: Policy<V>)
    requires Refines(t, h, clock, policy) && clock <= later
    requires op.Some? ==> Monotone(op.value, clock) && OpEnd(op.value, clock) <= later
    ensures Refines(Changed(t, op, policy), Grown(h, op, policy), later, policy)
  {
    hide TableStep, SpecStep, LastSeen;
    match op
    case None => LiveEarlier(h, clock, later, policy);
    case Some(o) =>
      StepRefines(t, h, clock, o, policy);
      LiveEarlier(SpecStep(h, o, policy).0, OpEnd(o, clock), later, policy);
  }

  lemma OpsMonotone(w: World, e: Event)
    requires Enabled(w, e)
    ensures w.clock <= Step(w, e).clock
    ensures FlowOp(w, e).Some? ==>
              Monotone(FlowOp(w, e).value, w.clock) && OpEnd(FlowOp(w, e).value, w.clock) <= Step(w, e).clock
    ensures FragmentOp(w, e).Some? ==>
              Monotone(FragmentOp(w, e).value, w.clock) && OpEnd(FragmentOp(w, e).value, w.clock) <= Step(w, e).clock
  {
    hide HostStep, ProfileStep, FragmentKey, FlowKey, FragmentOffset, TrySend, Kept, FreeTargets, FirstAttempt,
         RecordsFlow, FlowLookedUp, Free, HeaderLength, Lookup;
  }

  ghost predicate TablesRefine(w: World, flowHistory: seq<TableEvent<Byte>>,
                               fragmentHistory: seq<TableEvent<FragmentState>>)
  {
    && Refines(w.mux.flows, flowHistory, w.clock, FLOWS)
    && Refines(w.mux.fragments, fragmentHistory, w.clock, FRAGMENTS)
  }

  lemma {:induction false} RunTablesRefine(w: World, f: seq<TableEvent<Byte>>, g: seq<TableEvent<FragmentState>>,
                                           es: seq<Event>)
    requires TablesRefine(w, f, g) && EnabledRun(w, es)
    ensures TablesRefine(Run(w, es), FlowHistory(w, f, es), FragmentHistory(w, g, es))
    decreases |es|
  {
    hide Refines, Enabled, Step, Changed, Grown, FlowOp, FragmentOp;
    if |es| > 0 {
      var w2 := Step(w, es[0]);
      FlowOpIsPerformed(w, es[0]);
      FragmentOpIsPerformed(w, es[0]);
      OpsMonotone(w, es[0]);
      ChangedRefines(w.mux.flows, f, w.clock, FlowOp(w, es[0]), w2.clock, FLOWS);
      ChangedRefines(w.mux.fragments, g, w.clock, FragmentOp(w, es[0]), w2.clock, FRAGMENTS);
      RunTablesRefine(w2, Grown(f, FlowOp(w, es[0]), FLOWS), Grown(g, FragmentOp(w, es[0]), FRAGMENTS), es[1..]);
    }
  }

  /**
   Over every run: touchFlow succeeds exactly when the key's last acceptance is within its protocol's timeout
   and its profile was not withdrawn since; addFlow refuses a key exactly when 65536 flows are live.
   */
  lemma FlowAnswersFollowHistory(natAddr: Addr, config: Config, depths: seq<nat>, clock: int, es: seq<Event>,
                                 key: string, proto: Byte, at: int, stored: int)
    requires EnabledRun(Start(natAddr, config, depths, clock), es)
    requires Run(Start(natAddr, config, depths, clock), es).clock <= at <= stored && key != ""
    ensures var m := Run(Start(natAddr, config, depths, clock), es).mux;
            var h := FlowHistory(Start(natAddr, config, depths, clock), [], es);
            && (Touch(m.flows, key, Some(proto), at, stored, FLOWS).1 <==>
                  && LastSeen(h, key).Some?
                  && var e := LastSeen(h, key).value;
                  at - e.seen <= if e.value == 6 then 300_000_000_000 else if e.value == 17 then 60_000_000_000
                                  else 30_000_000_000)
            && (AddFlow(m, key, proto, at).1 <==> |LiveKeys(h, at, FLOWS)| < 65536)
  {
    hide Run, EnabledRun, FlowHistory, FragmentHistory, LastSeen, LiveKeys, BuildIndex, Refines;
    var w0 := Start(natAddr, config, depths, clock);
    EmptyRefines<Byte>(clock, FLOWS);
    EmptyRefines<FragmentState>(clock, FRAGMENTS);
    RunTablesRefine(w0, [], [], es);
    var w, h := Run(w0, es), FlowHistory(w0, [], es);
    TouchRefines(w.mux.flows, h, w.clock, key, Some(proto), at, stored, FLOWS);
    AddRefines(w.mux.flows, h, w.clock, key, proto, at, FLOWS);
  }

  /** The same for later fragments, whose table has one timeout of 30 seconds and 8192 entries. */
  lemma FragmentAnswersFollowHistory(natAddr: Addr, config: Config, depths: seq<nat>, clock: int, es: seq<Event>,
                                     key: string, v: FragmentState, at: int, stored: int)
    requires EnabledRun(Start(natAddr, config, depths, clock), es)
    requires Run(Start(natAddr, config, depths, clock), es).clock <= at <= stored && key != ""
    ensures var m := Run(Start(natAddr, config, depths, clock), es).mux;
            var h := FragmentHistory(Start(natAddr, config, depths, clock), [], es);
            && (Touch(m.fragments, key, None, at, stored, FRAGMENTS).1 <==>
                  LastSeen(h, key).Some? && at - LastSeen(h, key).value.seen <= 30_000_000_000)
            && (Add(m.fragments, key, v, at, FRAGMENTS).1 <==> |LiveKeys(h, at, FRAGMENTS)| < 8192)
  {
    hide Run, EnabledRun, FlowHistory, FragmentHistory, LastSeen, LiveKeys, BuildIndex, Refines;
    var w0 := Start(natAddr, config, depths, clock);
    EmptyRefines<Byte>(clock, FLOWS);
    EmptyRefines<FragmentState>(clock, FRAGMENTS);
    RunTablesRefine(w0, [], [], es);
    var w, h := Run(w0, es), FragmentHistory(w0, [], es);
    TouchRefines(w.mux.fragments, h, w.clock, key, None, at, stored, FRAGMENTS);
    AddRefines(w.mux.fragments, h, w.clock, key, v, at, FRAGMENTS);
  }

  lemma EmptyRefines<V>(clock: int, policy: Policy<V>)
    ensures Refines(map[], [], clock, policy)
  {
  }
}
