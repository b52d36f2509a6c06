/**
 What the supervisor derives from its profiles: the inventory in profile order and the datapath profiles, and
 that the mux built from both selects raw destinations as the inventory does.
 */
module Supervisor {
  import opened Bytes
  import I = Inventory
  import opened Mux
  import opened MuxIndex
  import opened Sorting
  import opened Wrappers

  datatype Ip = V4(addr: Addr) | V6

  /** A peer or a service as LocalAPI reports it. */
  datatype Peer = Peer(kind: I.Kind, id: string, fqdn: string, online: bool, ips: seq<Ip>)

  /** The mutex-guarded part of a profile, with its configured identity and its device. */
  datatype ProfileView = ProfileView(id: string, name: string, running: bool, ips: seq<Ip>, targets: seq<I.Target>,
                                     tun: nat)

  // ---------------------------------------------------------------- one profile

  predicate OnlyRunningHasTargets(p: ProfileView) {
    p.targets != [] ==> p.running
  }

  function FirstV4(ips: seq<Ip>): Option<Addr> {
    if |ips| == 0 then None else if ips[0].V4? then Some(ips[0].addr) else FirstV4(ips[1..])
  }

  /** The targets of one peer: one for each of its first n addresses that is IPv4. */
  function TargetsOf(p: Peer, n: nat): seq<I.Target>
    requires n <= |p.ips|
  {
    if n == 0 then []
    else
      var before := TargetsOf(p, n - 1);
      if p.ips[n - 1].V4? then before + [I.Target("", "", 0, p.kind, p.id, p.fqdn, p.online, p.ips[n - 1].addr)]
          else before
  }

  function TargetsOfAll(peers: seq<Peer>): seq<I.Target> {
    if |peers| == 0 then []
    else TargetsOfAll(peers[..|peers| - 1]) + TargetsOf(peers[|peers| - 1], |peers[|peers| - 1].ips|)
  }

  ghost predicate ReportedAt(t: I.Target, p: Peer, ip: Ip) {
    ip.V4? && t == I.Target("", "", 0, p.kind, p.id, p.fqdn, p.online, ip.addr)
  }

  lemma {:induction false} TargetsOfMembers(p: Peer, n: nat)
    requires n <= |p.ips|
    ensures forall t :: t in TargetsOf(p, n) <==> exists j :: 0 <= j < n && ReportedAt(t, p, p.ips[j])
  {
    if n > 0 {
      TargetsOfMembers(p, n - 1);
    }
  }

  /** A running profile's targets are one for each IPv4 address of each peer, with the peer's fields, and no other. */
  lemma {:induction false} TargetsMembers(peers: seq<Peer>)
    ensures forall t :: t in TargetsOfAll(peers) <==>
              exists i, j :: 0 <= i < |peers| && 0 <= j < |peers[i].ips| && ReportedAt(t, peers[i], peers[i].ips[j])
  {
    if |peers| > 0 {
      var n := |peers| - 1;
      var front, p := peers[..n], peers[n];
      TargetsMembers(front);
      TargetsOfMembers(p, |p.ips|);
      assert forall i :: 0 <= i < n ==> front[i] == peers[i];
    }
  }

  class Profile {
    const id: string
    const name: string
    const tun: nat
    var running: bool
    var ips: seq<Ip>
    var targets: seq<I.Target>

    ghost function View(): ProfileView
      reads this
    {
      ProfileView(id, name, running, ips, targets, tun)
    }

    ghost predicate Valid()
      reads this
    {
      OnlyRunningHasTargets(View())
    }

    constructor (id: string, name: string, tun: nat)
      ensures Valid() && View() == ProfileView(id, name, false, [], [], tun)
    {
      this.id, this.name, this.tun := id, name, tun;
      running, ips, targets := false, [], [];
    }

    /** `setStatusAndTargets`: peers, then services, in the order the status lists them. */
    method SetStatusAndTargets(isRunning: bool, ips: seq<Ip>, peers: seq<Peer>)
      modifies this
      ensures Valid() && running == isRunning && this.ips == ips
      ensures targets == if isRunning then TargetsOfAll(peers) else []
    {
      var found: seq<I.Target> := [];
      for i := 0 to |peers|
        invariant found == TargetsOfAll(peers[..i])
      {
        var p := peers[i];
        ghost var before := found;
        for j := 0 to |p.ips|
          invariant found == before + TargetsOf(p, j)
        {
          if p.ips[j].V4? {
            found := found + [I.Target("", "", 0, p.kind, p.id, p.fqdn, p.online, p.ips[j].addr)];
          }
        }
        assert peers[..i + 1][..i] == peers[..i];
      }
      assert peers[..|peers|] == peers;
      running, this.ips := isRunning, ips;
      targets := if isRunning then found else [];
    }

    /** `degrade`. */
    method Degrade()
      modifies this`running, this`targets
      ensures Valid() && View() == old(View()).(running := false, targets := [])
    {
      running, targets := false, [];
    }
  }

  // ---------------------------------------------------------------- the aggregate views

  /** `Inventory` before Build: each profile with its position as order. */
  function Listed(ps: seq<ProfileView>): (r: seq<I.Profile>)
    ensures |r| == |ps|
    ensures forall i :: 0 <= i < |ps| ==> r[i] == I.Profile(ps[i].id, ps[i].name, i, ps[i].targets)
  {
    if |ps| == 0 then []
    else Listed(ps[..|ps| - 1]) + [I.Profile(ps[|ps| - 1].id, ps[|ps| - 1].name, |ps| - 1, ps[|ps| - 1].targets)]
  }

  /** `DatapathProfiles`: the running profiles with an IPv4 address. */
  function Served(ps: seq<ProfileView>): seq<DatapathProfile> {
    if |ps| == 0 then []
    else
      var last, before := ps[|ps| - 1], Served(ps[..|ps| - 1]);
      if last.running && FirstV4(last.ips).Some?
          then before + [DatapathProfile(last.id, FirstV4(last.ips).value, last.tun)]
      else before
  }

  /** The views of some profiles as they are now. */
  ghost function Views(profiles: seq<Profile>): (r: seq<ProfileView>)
    reads profiles
    ensures |r| == |profiles| && forall i :: 0 <= i < |r| ==> r[i] == profiles[i].View()
  {
    seq(|profiles|, i requires 0 <= i < |profiles| reads profiles => profiles[i].View())
  }

  method Inventory(profiles: seq<Profile>) returns (s: I.Snapshot)
    ensures I.Builds(s, Listed(Views(profiles)))
  {
    var listed: seq<I.Profile> := [];
    for i := 0 to |profiles|
      invariant listed == Listed(Views(profiles)[..i])
    {
      assert Views(profiles)[..i + 1][..i] == Views(profiles)[..i];
      listed := listed + [I.Profile(profiles[i].id, profiles[i].name, i, profiles[i].targets)];
    }
    assert Views(profiles)[..|profiles|] == Views(profiles);
    s := I.Build(listed);
  }

  method DatapathProfiles(profiles: seq<Profile>) returns (out: seq<DatapathProfile>)
    ensures out == Served(Views(profiles))
  {
    out := [];
    for i := 0 to |profiles|
      invariant out == Served(Views(profiles)[..i])
    {
      assert Views(profiles)[..i + 1][..i] == Views(profiles)[..i];
      var ip: Option<Addr> := None;
      var j := 0;
      while j < |profiles[i].ips| && ip == None
        invariant j <= |profiles[i].ips|
        invariant FirstV4(profiles[i].ips) == if ip.Some? then ip else FirstV4(profiles[i].ips[j..])
      {
        if profiles[i].ips[j].V4? {
          ip := Some(profiles[i].ips[j].addr);
        }
        j := j + 1;
      }
      if profiles[i].running && ip.Some? {
        out := out + [DatapathProfile(profiles[i].id, ip.value, profiles[i].tun)];
      }
    }
    assert Views(profiles)[..|profiles|] == Views(profiles);
  }

  // ---------------------------------------------------------------- end to end

  ghost predicate UniqueIds(ps: seq<ProfileView>) {
    forall i, j :: 0 <= i < j < |ps| ==> ps[i].id != ps[j].id
  }

  lemma ListedDistinct(ps: seq<ProfileView>)
    requires UniqueIds(ps)
    ensures I.DistinctProfiles(Listed(ps))
  {
  }

  ghost predicate FirstIs(ips: seq<Ip>, x: Addr) {
    exists k :: 0 <= k < |ips| && ips[k] == V4(x) && forall j :: 0 <= j < k ==> ips[j] == V6
  }

  lemma {:induction false} FirstV4Is(ips: seq<Ip>, x: Addr)
    ensures FirstV4(ips) == Some(x) <==> FirstIs(ips, x)
  {
    if |ips| > 0 {
      var rest := ips[1..];
      FirstV4Is(rest, x);
      if ips[0].V6? {
        if k :| 0 <= k < |rest| && rest[k] == V4(x) && forall j :: 0 <= j < k ==> rest[j] == V6 {
          assert ips[k + 1] == V4(x) && forall j :: 0 <= j < k + 1 ==> ips[j] == V6;
        }
        if k :| 0 <= k < |ips| && ips[k] == V4(x) && forall j :: 0 <= j < k ==> ips[j] == V6 {
          assert rest[k - 1] == V4(x) && forall j :: 0 <= j < k - 1 ==> rest[j] == V6;
        }
      }
    }
  }

  ghost predicate ServedFrom(d: DatapathProfile, p: ProfileView) {
    p.running && d.id == p.id && d.tun == p.tun && FirstIs(p.ips, d.self)
  }

  /** What is served: each running profile with an IPv4 address, with its own device and its first such address. */
  lemma {:induction false} ServedMembers(ps: seq<ProfileView>)
    ensures forall d :: d in Served(ps) <==> exists i :: 0 <= i < |ps| && ServedFrom(d, ps[i])
  {
    if |ps| > 0 {
      var n := |ps| - 1;
      var front, last := ps[..n], ps[n];
      ServedMembers(front);
      forall x ensures FirstV4(last.ips) == Some(x) <==> FirstIs(last.ips, x) {
        FirstV4Is(last.ips, x);
      }
      hide FirstV4, FirstIs;
      forall d ensures d in Served(ps) <==> exists i :: 0 <= i < |ps| && ServedFrom(d, ps[i]) {
        if i :| 0 <= i < |front| && ServedFrom(d, front[i]) {
          assert ServedFrom(d, ps[i]);
        }
        if i :| 0 <= i < |ps| && ServedFrom(d, ps[i]) {
          assert i == n || ServedFrom(d, front[i]);
        }
        if ServedFrom(d, last) {
          assert ServedFrom(d, ps[n]);
        }
      }
    }
  }

  lemma {:induction false} ServedIndex(ps: seq<ProfileView>)
    ensures forall id :: id in ProfileIndex(Served(ps)) <==>
              exists i :: 0 <= i < |ps| && ps[i].id == id && ps[i].running && FirstV4(ps[i].ips).Some?
  {
    hide FirstV4;
    if |ps| > 0 {
      var n := |ps| - 1;
      var front, last := ps[..n], ps[n];
      ServedIndex(front);
      ServedStep(front, last);
      assert ps == front + [last];
      var index := ProfileIndex(Served(ps));
      forall id ensures id in index <==> exists i :: 0 <= i < |ps| && Serves(ps[i], id) {
        if i :| 0 <= i < |front| && Serves(front[i], id) {
          assert Serves(ps[i], id);
        }
        if i :| 0 <= i < |ps| && Serves(ps[i], id) {
          assert i == n || Serves(front[i], id);
        }
        if Serves(last, id) {
          assert Serves(ps[n], id);
        }
      }
    }
  }

  predicate Serves(p: ProfileView, id: string) {
    p.id == id && p.running && FirstV4(p.ips).Some?
  }

  lemma ServedStep(front: seq<ProfileView>, last: ProfileView)
    ensures forall id :: id in ProfileIndex(Served(front + [last])) <==>
            id in ProfileIndex(Served(front)) || Serves(last, id)
  {
    var ps := front + [last];
    assert ps[..|ps| - 1] == front;
    if last.running && FirstV4(last.ips).Some? {
      var out := Served(ps);
      assert out[..|out| - 1] == Served(front);
    }
  }

  /** Every inventory target comes from a listed profile that has targets. */
  lemma {:induction false} TargetFromProfile(profiles: seq<I.Profile>, t: I.Target)
    requires t in I.AllTargets(profiles)
    ensures exists i :: 0 <= i < |profiles| && profiles[i].id == t.profileID && profiles[i].targets != []
  {
    var n := |profiles| - 1;
    if t in I.AllTargets(profiles[..n]) {
      TargetFromProfile(profiles[..n], t);
      var i :| 0 <= i < n && profiles[..n][i].id == t.profileID && profiles[..n][i].targets != [];
      assert profiles[i] == profiles[..n][i];
    } else {
      assert profiles[n].id == t.profileID && profiles[n].targets != [];
    }
  }

  /** Every inventory target comes from a profile that has targets. */
  lemma {:induction false} TargetOwner(ps: seq<ProfileView>, s: I.Snapshot, t: I.Target) returns (j: nat)
    requires I.Builds(s, Listed(ps)) && t in s.targets
    ensures j < |ps| && ps[j].id == t.profileID && ps[j].targets != []
  {
    hide I.AllTargets;
    SameMembers(s.targets, I.AllTargets(Listed(ps)));
    TargetFromProfile(Listed(ps), t);
    j :| 0 <= j < |ps| && Listed(ps)[j].id == t.profileID && Listed(ps)[j].targets != [];
  }

  /**
   Once a profile is degraded and until it runs again, no inventory target names it and the datapath does not
   serve it, so the mux built from both has no self address for it and no binding to it.
   */
  lemma {:induction false} DegradedDisappears(ps: seq<ProfileView>, s: I.Snapshot, leases: map<string, Addr>, i: nat)
    requires UniqueIds(ps) && I.Builds(s, Listed(ps)) && i < |ps| && !ps[i].running && ps[i].targets == []
    ensures forall t :: t in s.targets ==> t.profileID != ps[i].id
    ensures ps[i].id !in ProfileIndex(Served(ps))
    ensures var x := BuildIndex(s.targets, leases, ProfileIndex(Served(ps)));
            && (forall ip :: ip in x.raw ==> x.raw[ip].target.profileID != ps[i].id)
            && (forall ip :: ip in x.byEffective ==> x.byEffective[ip].target.profileID != ps[i].id)
            && (forall k :: k in x.byInbound ==> x.byInbound[k].target.profileID != ps[i].id)
  {
    hide I.Key, BuildIndex, ProfileIndex, FirstV4, I.AllTargets, Served, I.Builds;
    var index := ProfileIndex(Served(ps));
    forall t | t in s.targets ensures t.profileID != ps[i].id {
      var j := TargetOwner(ps, s, t);
      assert i != j;
    }
    ServedIndex(ps);
    BuildIndexSound(s.targets, leases, index);
  }

  /**
   When only running profiles have targets, every running profile has an IPv4 address and the leases cover the
   inventory, every inventory target can be bound.
   */
  lemma {:induction false} AllEligible(ps: seq<ProfileView>, s: I.Snapshot, leases: map<string, Addr>)
    requires I.Builds(s, Listed(ps))
    requires forall i :: 0 <= i < |ps| ==>
               OnlyRunningHasTargets(ps[i]) && (ps[i].running ==> FirstV4(ps[i].ips).Some?)
    requires forall t :: t in s.targets ==> I.Key(t) in leases
    ensures forall t :: t in s.targets ==> Eligible(t, leases, ProfileIndex(Served(ps)))
  {
    hide I.Key, ProfileIndex, FirstV4, Served, I.Builds;
    ServedIndex(ps);
    forall t | t in s.targets ensures Eligible(t, leases, ProfileIndex(Served(ps))) {
      var i := TargetOwner(ps, s, t);
      assert ps[i].id == t.profileID && ps[i].running && FirstV4(ps[i].ips).Some?;
    }
  }

  /**
   End to end: whenever only running profiles have targets, every running profile has an IPv4 address, and the
   leases cover the inventory, the mux sends each raw canonical address to the profile that ResolveRaw names,
   and knows exactly the addresses ResolveRaw knows.
   */
  lemma {:induction false} MuxFollowsInventory(ps: seq<ProfileView>, s: I.Snapshot, leases: map<string, Addr>, ip: Addr)
    requires UniqueIds(ps) && I.Builds(s, Listed(ps))
    requires forall i :: 0 <= i < |ps| ==>
               OnlyRunningHasTargets(ps[i]) && (ps[i].running ==> FirstV4(ps[i].ips).Some?)
    requires forall t :: t in s.targets ==> I.Key(t) in leases
    ensures var x := BuildIndex(s.targets, leases, ProfileIndex(Served(ps)));
            var r := I.ResolveRaw(s, ip);
            (ip in x.raw <==> r.Some?) && (r.Some? ==> x.raw[ip].target.profileID == r.value.profileID)
  {
    hide I.Key, I.ResolveRaw, BuildIndex, ProfileIndex, FirstV4, I.AllTargets, Served;
    ListedDistinct(ps);
    AllEligible(ps, s, leases);
    RawIndexAgrees(s, Listed(ps), leases, ProfileIndex(Served(ps)), ip);
  }
}
