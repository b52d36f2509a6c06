/**
 The reconcile arm of the main loop as a whole: the inventory is leased, and the mux and the DNS server are updated
 with the result. What the allocator guarantees of its leases is what delivery and name lookup rely on.
 */
module Reconcile {
  import opened Bytes
  import opened Rewrite
  import opened Allocator
  import opened Inventory
  import opened Mux
  import opened MuxIndex
  import opened NatRoundTrip
  import opened Wrappers
  import D = DnsMux
  import L = LeaseStore
  import R = MuxRuns
  import S = Supervisor

  /** The keys that `EffectiveLeases` asks for. */
  function KeysOf(targets: seq<Target>): (r: seq<string>)
    ensures |r| == |targets| && forall i :: 0 <= i < |r| ==> r[i] == Key(targets[i])
  {
    seq(|targets|, i requires 0 <= i < |targets| => Key(targets[i]))
  }

  /** A completed call on the inventory's keys returned these leases. */
  ghost predicate Leased(db: L.Db, cidr: Prefix, order: seq<string>, targets: seq<Target>, stop: nat, hash: Hash,
                         leases: map<string, Addr>)
  {
    && L.DbOk(db) && db.cidr == Some(cidr) && L.Enumerates(order, db.leases)
    && L.Effective(db, cidr, order, KeysOf(targets), stop, hash).1 == Some(leases)
  }

  /** The leases are injective, cover exactly the inventory, and lie in the pool above the reserved addresses. */
  lemma LeasesServeInventory(db: L.Db, cidr: Prefix, order: seq<string>, targets: seq<Target>, stop: nat, hash: Hash,
                             leases: map<string, Addr>)
    requires Leased(db, cidr, order, targets, stop, hash, leases)
    ensures InjectiveLeases(leases) && ValidPrefix(cidr)
    ensures forall k :: k in leases <==> exists t :: t in targets && Key(t) == k
    ensures forall k :: k in leases ==> Base(cidr) + 3 <= AddrNum(leases[k]) < Base(cidr) + Size(cidr)
  {
    hide L.Effective, L.Enumerates, Key, Base, Size, AddrNum;
    var keys := KeysOf(targets);
    L.EffectiveKeeps(db, cidr, order, keys, stop, hash);
    forall k ensures k in keys <==> exists t :: t in targets && Key(t) == k {
      if k in keys {
        var i :| 0 <= i < |keys| && keys[i] == k;
        assert targets[i] in targets && Key(targets[i]) == k;
      }
      if t :| t in targets && Key(t) == k {
        var i :| 0 <= i < |targets| && targets[i] == t;
        assert keys[i] == k;
      }
    }
  }

  /** What the arm installs in the mux. */
  function Installed(s: Snapshot, leases: map<string, Addr>, ps: seq<S.ProfileView>): R.Config {
    R.Config(s.targets, leases, S.Served(ps))
  }

  /** The snapshot is of these profiles, which have targets only when they run and an address when they do. */
  ghost predicate SnapshotOf(s: Snapshot, ps: seq<S.ProfileView>) {
    && S.UniqueIds(ps) && Builds(s, S.Listed(ps))
    && forall i :: 0 <= i < |ps| ==> S.OnlyRunningHasTargets(ps[i]) && (ps[i].running ==> S.FirstV4(ps[i].ips).Some?)
  }

  lemma AfterInstall(w: R.World, c: R.Config)
    requires R.Inv(w) && !w.crashed && R.ConfigOk(c, |w.queues|)
    ensures var w2 := R.Step(w, R.Update(c));
            && R.Inv(w2) && w2.config == c && w2.mux.natAddr == w.mux.natAddr
            && w2.mux.index == BuildIndex(c.targets, c.leases, ProfileIndex(c.profiles))
  {
    hide R.Inv, R.ConfigOk, BuildIndex, ProfileIndex, StartLoops;
    R.StepKeepsInv(w, R.Update(c));
  }

  /**
   After a reconcile whose lease call completed: a host packet to any inventory target's lease goes to exactly that
   target's profile and canonical address, and records no flow.
   */
  lemma ReconciledDelivery(db: L.Db, cidr: Prefix, order: seq<string>, stop: nat, hash: Hash, s: Snapshot,
                           ps: seq<S.ProfileView>, leases: map<string, Addr>, w: R.World, t: Target, p: seq<Byte>,
                               now: int)
    requires Leased(db, cidr, order, s.targets, stop, hash, leases) && SnapshotOf(s, ps)
    requires R.Inv(w) && !w.crashed && R.ConfigOk(Installed(s, leases, ps), |w.queues|)
    requires t in s.targets && Key(t) in leases && WellFormed(p)
    requires AddrAt(p, 12) == w.mux.natAddr && AddrAt(p, 16) == leases[Key(t)]
    ensures var m := R.Step(w, R.Update(Installed(s, leases, ps))).mux;
            && t.profileID in ProfileIndex(S.Served(ps))
            && GoesTo(HostStep(m, p, now).1, p, ProfileIndex(S.Served(ps))[t.profileID], t.canonical)
            && HostStep(m, p, now).0.flows == m.flows
  {
    hide Leased, R.ConfigOk, R.Step, HostStep, GoesTo, Key, HeaderLength, BuildIndex, ProfileIndex, S.Served, S.FirstV4,
         Builds, R.Inv;
    LeasesServeInventory(db, cidr, order, s.targets, stop, hash, leases);
    S.AllEligible(ps, s, leases);
    AfterInstall(w, Installed(s, leases, ps));
    InvIsConfigured(R.Step(w, R.Update(Installed(s, leases, ps))));
    EffectiveDelivery(R.Step(w, R.Update(Installed(s, leases, ps))), p, now, t);
  }

  lemma InvIsConfigured(w: R.World)
    requires R.Inv(w)
    ensures R.Configured(w)
  {
    hide R.Configured;
  }

  /** The answer to a name leads, through the index, to the answering target. */
  ghost predicate AnswerLeads(x: Index, targets: seq<Target>, leases: map<string, Addr>, name: string) {
    match D.LocalA(targets, leases, name)
    case None => true
    case Some(t) =>
      && Key(t) in leases && Lookup(x, leases[Key(t)]).Some?
      && Lookup(x, leases[Key(t)]).value.target.profileID == t.profileID
      && Lookup(x, leases[Key(t)]).value.target.canonical == t.canonical
  }

  lemma AnswerLeadsThere(targets: seq<Target>, leases: map<string, Addr>, profiles: seq<DatapathProfile>, name: string)
    requires InjectiveLeases(leases) && FreeTargets(targets)
    requires forall t :: t in targets ==> Eligible(t, leases, ProfileIndex(profiles))
    ensures AnswerLeads(BuildIndex(targets, leases, ProfileIndex(profiles)), targets, leases, name)
  {
    hide Key, BuildIndex, ProfileIndex, Lookup, D.LocalA, D.Matches, InjectiveLeases, FreeTargets;
    if D.LocalA(targets, leases, name).Some? {
      D.LocalAFound(targets, leases, name);
      D.AnswerReachesTarget(targets, leases, profiles, name);
    }
  }

  /** A raw address selects ResolveRaw's profile, and a record rewritten from it leads back to it. */
  ghost predicate RawLeads(x: Index, s: Snapshot, leases: map<string, Addr>, ip: Addr) {
    && (ip in x.raw <==> ResolveRaw(s, ip).Some?)
    && (ip in x.raw ==>
          && x.raw[ip].target.profileID == ResolveRaw(s, ip).value.profileID
          && Lookup(x, D.RewriteRecord(s.targets, leases, ip)).Some?
          && Lookup(x, D.RewriteRecord(s.targets, leases, ip)).value.target.canonical == ip)
  }

  lemma RawLeadsThere(s: Snapshot, ps: seq<S.ProfileView>, leases: map<string, Addr>, ip: Addr)
    requires SnapshotOf(s, ps) && InjectiveLeases(leases) && FreeTargets(s.targets)
    requires forall t :: t in s.targets ==> Eligible(t, leases, ProfileIndex(S.Served(ps)))
    ensures RawLeads(BuildIndex(s.targets, leases, ProfileIndex(S.Served(ps))), s, leases, ip)
  {
    hide Key, BuildIndex, ProfileIndex, S.Served, S.FirstV4, Builds, ResolveRaw, Lookup, D.RewriteRecord,
         InjectiveLeases, FreeTargets, Complete, EffectiveSound, InboundSound;
    S.MuxFollowsInventory(ps, s, leases, ip);
    var x := BuildIndex(s.targets, leases, ProfileIndex(S.Served(ps)));
    if ip in x.raw {
      BuildIndexSound(s.targets, leases, ProfileIndex(S.Served(ps)));
      assert x.raw[ip].target in s.targets && x.raw[ip].target.canonical == ip;
      D.RewrittenReachesCanonical(s.targets, leases, S.Served(ps), ip);
    }
  }

  /**
   After the same reconcile the mux sends raw destinations where ResolveRaw says, and every address the DNS server
   answers with, or rewrites a record to, leads to the target it stands for.
   */
  lemma ReconciledNames(db: L.Db, cidr: Prefix, order: seq<string>, stop: nat, hash: Hash, s: Snapshot,
                        ps: seq<S.ProfileView>, leases: map<string, Addr>, w: R.World, name: string, ip: Addr)
    requires Leased(db, cidr, order, s.targets, stop, hash, leases) && SnapshotOf(s, ps)
    requires R.Inv(w) && !w.crashed && R.ConfigOk(Installed(s, leases, ps), |w.queues|)
    ensures var x := R.Step(w, R.Update(Installed(s, leases, ps))).mux.index;
            AnswerLeads(x, s.targets, leases, name) && RawLeads(x, s, leases, ip)
  {
    hide Leased, R.Step, Key, BuildIndex, ProfileIndex, S.Served, S.FirstV4, Builds, R.Inv, AnswerLeads, RawLeads,
         InjectiveLeases, FreeTargets;
    LeasesServeInventory(db, cidr, order, s.targets, stop, hash, leases);
    S.AllEligible(ps, s, leases);
    AfterInstall(w, Installed(s, leases, ps));
    AnswerLeadsThere(s.targets, leases, S.Served(ps), name);
    RawLeadsThere(s, ps, leases, ip);
  }
}
