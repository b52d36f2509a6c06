/**
 The engine object and its devices carry out the runs of `MuxRuns`: an execution of any enabled events on the
 heap ends in a state that the run represents, so every theorem about runs is one about the object.
 */
module EngineRuns {
  import opened Bytes
  import opened PacketTun
  import opened Mux
  import opened MuxEngine
  import opened MuxRuns

  /** The device holds this queue, and is closed or not. */
  ghost predicate Holds(d: Device, queue: Queue, closed: bool)
    reads d, d.toEngine, d.fromEngine
  {
    d.Valid() && d.ToEngine() == queue && d.closed == closed
  }

  ghost function DeviceBuffers(tuns: map<nat, Device>): set<array<Byte>>
    reads tuns.Values
  {
    (set d, i | d in tuns.Values && 0 <= i < |d.toEngine| :: d.toEngine[i]) +
    (set d, i | d in tuns.Values && 0 <= i < |d.fromEngine| :: d.fromEngine[i])
  }

  /** The engine's fields and its devices' queues are those of w. */
  ghost predicate Represents(e: Engine, w: World)
    reads e, e.tuns.Values, DeviceBuffers(e.tuns)
  {
    && e.Valid() && e.State() == w.mux && !w.crashed
    && (forall i :: i in e.tuns <==> 0 <= i < |w.queues|)
    && (forall i :: i in e.tuns ==> Holds(e.tuns[i], w.queues[i], i in w.closed))
    && (forall i, j :: i in e.tuns && j in e.tuns && e.tuns[i] == e.tuns[j] ==> i == j)
  }

  ghost predicate ForeignToAll(e: Engine, b: array<Byte>)
    reads e.tuns.Values
  {
    forall d :: d in e.tuns.Values ==> d.Foreign(b)
  }

  lemma RefusedUnchanged(q: Queue, closed: bool, bytes: seq<Byte>, pick: bool)
    ensures TrySend(q, closed, bytes, pick).1 != Sent ==> TrySend(q, closed, bytes, pick).0 == q
  {
  }

  /** One round of `hostLoop`; its read buffer can be used again afterwards. */
  method HostRound(e: Engine, p: array<Byte>, now: int, pick: bool, ghost w: World) returns (alive: bool)
    requires Represents(e, w) && ForeignToAll(e, p) && p.Length <= 0xffff
    modifies e, p, e.tuns.Values
    ensures alive <==> !Step(w, HostPacket(old(p[..]), now, pick)).crashed
    ensures alive ==> Represents(e, Step(w, HostPacket(old(p[..]), now, pick)))
    ensures ForeignToAll(e, p)
  {
    hide HostStep, TrySend, Device.ToEngine, Device.Valid, Engine.State, Device.Foreign, UsesOnly;
    ghost var result;
    ghost var (m, action) := HostStep(w.mux, p[..], now);
    ghost var w2 := Step(w, HostPacket(p[..], now, pick));
    assert forall i :: i in e.tuns ==> e.tuns[i] in e.tuns.Values;
    alive, result := e.HostRound(p, now, pick);
    match action
    case HostPanic =>
    case HostDrop =>
      assert e.State() == w2.mux;
      forall i | i in e.tuns ensures Holds(e.tuns[i], w2.queues[i], i in w2.closed) {
      }
    case Deliver(b, bytes) =>
      RefusedUnchanged(w.queues[b.tun], b.tun in w.closed, bytes, pick);
      assert e.State() == w2.mux;
      forall i | i in e.tuns ensures Holds(e.tuns[i], w2.queues[i], i in w2.closed) {
      }
  }

  /** One round of the loop that serves the device `tun`; what it writes to the host is what the run records. */
  method ProfileRound(e: Engine, tun: nat, p: array<Byte>, t: Times, ghost w: World)
    returns (alive: bool, written: bool)
    requires Represents(e, w) && ForeignToAll(e, p) && p.Length <= 0xffff && tun in e.profileSeen
    modifies e, p
    ensures var w2 := Step(w, ProfilePacket(tun, old(p[..]), t));
            && (alive <==> !w2.crashed)
            && (alive ==> Represents(e, w2))
            && (alive ==> w2.written == w.written +
                            if written then [Delivered(w, w.mux.loops[tun], old(p[..]), t, p[..])] else [])
    ensures ForeignToAll(e, p)
  {
    hide ProfileStep, Kept, Device.ToEngine, Device.Valid, UsesOnly;
    ProfileStepEffect(w.mux, e.profileSeen[tun], p[..], t);
    ghost var w2 := Step(w, ProfilePacket(tun, p[..], t));
    assert forall i :: i in e.tuns ==> e.tuns[i] in e.tuns.Values;
    alive, written := e.ProfileRound(e.profileSeen[tun], p, t);
  }

  method Update(e: Engine, c: Config, ghost w: World)
    requires Represents(e, w) && ConfigOk(c, |w.queues|)
    modifies e
    ensures Represents(e, Step(w, MuxRuns.Update(c)))
  {
    hide Reconfigure, Device.ToEngine, Device.Valid, Engine.State, UsesOnly;
    e.Update(c.targets, c.leases, c.profiles);
  }

  /** A read from one device, into a buffer of its own. */
  method Read(e: Engine, tun: nat, buf: array<Byte>, ghost w: World)
    requires Represents(e, w) && ForeignToAll(e, buf) && tun in e.tuns && w.queues[tun].items != []
    modifies e.tuns[tun], buf
    ensures Represents(e, Step(w, DeviceRead(tun)))
  {
    hide Fifo, Device.FromEngine;
    assert forall i :: i in e.tuns ==> e.tuns[i] in e.tuns.Values;
    var result, size := e.tuns[tun].Read([buf], 1, 0, true);
  }

  method Close(e: Engine, tun: nat, ghost w: World)
    requires Represents(e, w) && tun in e.tuns
    modifies e.tuns[tun]
    ensures Represents(e, Step(w, DeviceClose(tun)))
  {
    hide Fifo;
    e.tuns[tun].Close();
  }

  // ---------------------------------------------------------------- whole runs

  method Filled(packet: seq<Byte>) returns (p: array<Byte>)
    ensures fresh(p) && p[..] == packet
  {
    p := new Byte[|packet|](i requires 0 <= i < |packet| => packet[i]);
  }

  /** One event on the heap. */
  method Perform(e: Engine, event: Event, ghost w: World) returns (alive: bool)
    requires Represents(e, w) && Enabled(w, event) && FitsBuffer(event)
    modifies e, e.tuns.Values
    ensures alive <==> !Step(w, event).crashed
    ensures alive ==> Represents(e, Step(w, event))
  {
    hide Step, Device.ToEngine, Device.Valid, UsesOnly, ConfigOk;
    EnabledDevice(w, event);
    alive := true;
    match event
    case HostPacket(packet, now, pick) =>
      var p := Filled(packet);
      alive := HostRound(e, p, now, pick, w);
    case ProfilePacket(tun, packet, times) =>
      var p := Filled(packet);
      var written;
      alive, written := ProfileRound(e, tun, p, times, w);
    case Update(c) =>
      Update(e, c, w);
    case DeviceRead(tun) =>
      var buf := Filled([]);
      Read(e, tun, buf, w);
    case DeviceClose(tun) =>
      Close(e, tun, w);
  }

  /** Packets are read into buffers of 65535 bytes. */
  predicate FitsBuffer(event: Event) {
    match event
    case HostPacket(packet, _, _) => |packet| <= 0xffff
    case ProfilePacket(_, packet, _) => |packet| <= 0xffff
    case _ => true
  }

  lemma EnabledDevice(w: World, event: Event)
    requires Enabled(w, event) && !w.crashed
    ensures event.DeviceRead? ==> event.tun < |w.queues| && w.queues[event.tun].items != []
    ensures event.DeviceClose? ==> event.tun < |w.queues|
    ensures event.Update? || event.DeviceRead? || event.DeviceClose? ==> !Step(w, event).crashed
  {
  }

  /**
   Refinement: from any represented state, carrying out enabled events one after another on the engine and its
   devices ends in a state that represents the run's, or has died exactly when the run has crashed.
   */
  method Execute(e: Engine, events: seq<Event>, ghost w: World) returns (alive: bool)
    requires Represents(e, w) && EnabledRun(w, events) && forall x :: x in events ==> FitsBuffer(x)
    modifies e, e.tuns.Values
    ensures alive <==> !Run(w, events).crashed
    ensures alive ==> Represents(e, Run(w, events))
  {
    hide Step, Enabled, FitsBuffer, Represents;
    ghost var now := w;
    assert !w.crashed by { NotCrashed(e, w); }
    for i := 0 to |events|
      invariant Represents(e, now) && EnabledRun(now, events[i..]) && Run(now, events[i..]) == Run(w, events)
    {
      assert events[i..][0] == events[i] && events[i..][1..] == events[i + 1..];
      var going := Perform(e, events[i], now);
      now := Step(now, events[i]);
      if !going {
        CrashedStays(now, events[i + 1..]);
        return false;
      }
    }
    NotCrashed(e, now);
    return true;
  }

  lemma NotCrashed(e: Engine, w: World)
    requires Represents(e, w)
    ensures !w.crashed
  {
  }

  function Depths(wanted: seq<int>): (r: seq<nat>)
    ensures |r| == |wanted| && forall i :: 0 <= i < |r| ==> r[i] == if wanted[i] < 1 then 1 else wanted[i]
  {
    seq(|wanted|, i requires 0 <= i < |wanted| => if wanted[i] < 1 then 1 else wanted[i])
  }

  /** The devices numbered below n are open and empty, and no two are the same. */
  ghost predicate NewBelow(tuns: map<nat, Device>, n: nat, depths: seq<nat>)
    requires n <= |depths|
    reads tuns.Values, DeviceBuffers(tuns)
  {
    && (forall k :: k in tuns <==> 0 <= k < n)
    && (forall k, l :: k in tuns && l in tuns && tuns[k] == tuns[l] ==> k == l)
    && (forall k :: k in tuns ==> Holds(tuns[k], Queue(depths[k], [], [], []), false))
  }

  method AddDevice(tuns: map<nat, Device>, n: nat, wanted: seq<int>) returns (more: map<nat, Device>)
    requires n < |wanted| && NewBelow(tuns, n, Depths(wanted))
    ensures NewBelow(more, n + 1, Depths(wanted)) && more.Keys == tuns.Keys + {n}
    ensures more[n] !in tuns.Values && fresh(more[n]) && forall k :: k in tuns ==> more[k] == tuns[k]
  {
    hide Fifo, Depths;
    var d := new Device(wanted[n]);
    assert forall k :: k in tuns ==> tuns[k] in tuns.Values;
    more := tuns[n := d];
  }

  method NewDevices(wanted: seq<int>) returns (tuns: map<nat, Device>)
    ensures fresh(tuns.Values) && NewBelow(tuns, |wanted|, Depths(wanted))
  {
    hide NewBelow, Depths;
    tuns := map[];
    NoDevices(wanted);
    for i := 0 to |wanted|
      invariant fresh(tuns.Values) && NewBelow(tuns, i, Depths(wanted))
    {
      ghost var before := tuns;
      tuns := AddDevice(tuns, i, wanted);
      assert forall d :: d in tuns.Values ==> d in before.Values || d == tuns[i];
    }
  }

  lemma NoDevices(wanted: seq<int>)
    ensures NewBelow(map[], 0, Depths(wanted))
  {
  }

  /** New devices and a new engine represent the start of a run. */
  method Boot(natAddr: Addr, config: Config, wanted: seq<int>, clock: int) returns (e: Engine)
    requires ConfigOk(config, |wanted|)
    ensures fresh(e) && fresh(e.tuns.Values)
    ensures Represents(e, Start(natAddr, config, Depths(wanted), clock))
  {
    hide BuildIndex, ProfileIndex, StartLoops, UsesOnly, Fifo;
    var tuns := NewDevices(wanted);
    e := new Engine(natAddr, tuns, config.targets, config.leases, config.profiles);
  }
}
