/**
 The coalescing change notification between profile watchers and the reconcile loop. Writers replace a profile's
 targets and then post to a channel of capacity one without blocking; the consumer takes the token and then reads
 the listed profiles one by one. Every step below is one critical section or one channel operation.
 */
module Notify {
  import opened Inventory

  /** Where a writing goroutine stands; goroutines not in the map have nothing outstanding. */
  datatype Writer =
    | Wrote(profile: nat)          // between the write in setStatusAndTargets or degrade and notify
    | Listed(profiles: set<nat>)   // StartConfiguredProfiles, having appended these profiles so far

  datatype Consumer =
    | Waiting                      // in the select of the main loop
    | Received                     // token taken, or start-up: the inventory is about to be read
    | Reading(remaining: set<nat>) // the snapshot of listed profiles not read yet

  datatype State = State(
    targets: map<nat, seq<Target>>,
    listed: set<nat>,
    token: bool,
    writers: map<nat, Writer>,
    consumer: Consumer,
    seen: map<nat, seq<Target>>,
    abandoned: set<nat>)

  function Targets(s: State, p: nat): seq<Target> {
    if p in s.targets then s.targets[p] else []
  }

  datatype Action =
    | Write(w: nat, p: nat, ts: seq<Target>)
    | Post(w: nat)
    | List(w: nat, p: nat)
    | Fail(w: nat)
    | Receive
    | TakeList
    | Read(p: nat)
    | Finish

  predicate Enabled(s: State, a: Action) {
    match a
    case Write(w, _, _) => w !in s.writers
    case Post(_) => true // also the notify of a StartConfiguredProfiles call that listed nothing
    case List(w, _) => w !in s.writers || s.writers[w].Listed?
    case Fail(w) => w in s.writers && s.writers[w].Listed?
    case Receive => s.consumer == Waiting && s.token
    case TakeList => s.consumer == Received
    case Read(p) => s.consumer.Reading? && p in s.consumer.remaining
    case Finish => s.consumer == Reading({})
  }

  function ListedBy(s: State, w: nat): set<nat> {
    if w in s.writers && s.writers[w].Listed? then s.writers[w].profiles else {}
  }

  function Step(s: State, a: Action): State
    requires Enabled(s, a)
  {
    match a
    case Write(w, p, ts) => s.(targets := s.targets[p := ts], writers := s.writers[w := Wrote(p)])
    // notify: the send succeeds or the channel already holds a token
    case Post(w) => s.(token := true, writers := s.writers - {w}, abandoned := {})
    case List(w, p) => s.(listed := s.listed + {p}, writers := s.writers[w := Listed(ListedBy(s, w) + {p})])
    // the error return of StartConfiguredProfiles leaves the profiles listed and does not notify
    case Fail(w) => s.(writers := s.writers - {w}, abandoned := s.abandoned + ListedBy(s, w))
    case Receive => s.(token := false, consumer := Received)
    case TakeList => s.(consumer := Reading(s.listed))
    case Read(p) => s.(seen := s.seen[p := Targets(s, p)], consumer := Reading(s.consumer.remaining - {p}))
    case Finish => s.(consumer := Waiting)
  }

  function Initially(targets: map<nat, seq<Target>>, p: nat): seq<Target> {
    if p in targets then targets[p] else []
  }

  lemma StartTargets(listed: set<nat>, targets: map<nat, seq<Target>>, token: bool, p: nat)
    ensures Targets(Start(listed, targets, token), p) == Initially(targets, p)
  {
  }

  /** After Start: the profiles are listed, and the main goroutine reads the inventory without a token. */
  function Start(listed: set<nat>, targets: map<nat, seq<Target>>, token: bool): State {
    State(targets, listed, token, map[], Received, map[], {})
  }

  function Run(s: State, actions: seq<Action>): State
    requires EnabledRun(s, actions)
    decreases |actions|
  {
    if |actions| == 0 then s else Run(Step(s, actions[0]), actions[1..])
  }

  predicate EnabledRun(s: State, actions: seq<Action>)
    decreases |actions|
  {
    |actions| == 0 || (Enabled(s, actions[0]) && EnabledRun(Step(s, actions[0]), actions[1..]))
  }

  // ---------------------------------------------------------------- the invariant

  /** The consumer will read p before it waits again. */
  predicate WillRead(s: State, p: nat) {
    s.token || s.consumer == Received || (s.consumer.Reading? && p in s.consumer.remaining)
  }

  ghost predicate WriterPending(s: State, p: nat) {
    exists w :: w in s.writers && s.writers[w] == Wrote(p)
  }

  ghost predicate ListerPending(s: State, p: nat) {
    exists w :: w in s.writers && s.writers[w].Listed? && p in s.writers[w].profiles
  }

  /** A listed profile whose last read is out of date, or that was never read, is on its way to being read. */
  ghost predicate Inv(s: State) {
    && (forall p :: p in s.seen ==> p in s.listed)
    && (s.consumer.Reading? ==> s.consumer.remaining <= s.listed)
    && (forall p :: p in s.listed && p in s.seen && s.seen[p] != Targets(s, p) ==>
            WillRead(s, p) || WriterPending(s, p))
    && (forall p :: p in s.listed && p !in s.seen ==> WillRead(s, p) || ListerPending(s, p) || p in s.abandoned)
  }

  /** Outstanding writers stay outstanding through the actions of others. */
  lemma PendingStays(s: State, a: Action, p: nat)
    requires Enabled(s, a) && !a.Post?
    ensures WriterPending(s, p) ==> WriterPending(Step(s, a), p)
    ensures ListerPending(s, p) ==> ListerPending(Step(s, a), p) || (a.Fail? && p in ListedBy(s, a.w))
  {
    var s2 := Step(s, a);
    if WriterPending(s, p) {
      var w :| w in s.writers && s.writers[w] == Wrote(p);
      assert w in s2.writers && s2.writers[w] == Wrote(p);
    }
    if ListerPending(s, p) {
      var w :| w in s.writers && s.writers[w].Listed? && p in s.writers[w].profiles;
      if !(a.Fail? && a.w == w) {
        assert w in s2.writers && s2.writers[w].Listed? && p in s2.writers[w].profiles;
      }
    }
  }

  lemma StepKeepsInv(s: State, a: Action)
    requires Inv(s) && Enabled(s, a)
    ensures Inv(Step(s, a))
  {
    hide WriterPending, ListerPending;
    var s2 := Step(s, a);
    forall p | p in s2.listed && p in s2.seen && s2.seen[p] != Targets(s2, p)
      ensures WillRead(s2, p) || WriterPending(s2, p)
    {
      if !a.Post? {
        PendingStays(s, a, p);
        NewlyPending(s, a, p);
      }
    }
    forall p | p in s2.listed && p !in s2.seen
      ensures WillRead(s2, p) || ListerPending(s2, p) || p in s2.abandoned
    {
      if !a.Post? {
        PendingStays(s, a, p);
        NewlyPending(s, a, p);
      }
    }
  }

  lemma NewlyPending(s: State, a: Action, p: nat)
    requires Enabled(s, a)
    ensures a.Write? && a.p == p ==> WriterPending(Step(s, a), p)
    ensures a.List? && a.p == p ==> ListerPending(Step(s, a), p)
  {
    var s2 := Step(s, a);
    if a.Write? && a.p == p {
      assert s2.writers[a.w] == Wrote(p);
    }
    if a.List? && a.p == p {
      assert s2.writers[a.w].Listed? && p in s2.writers[a.w].profiles;
    }
  }

  lemma {:induction false} RunKeepsInv(s: State, actions: seq<Action>)
    requires Inv(s) && EnabledRun(s, actions)
    ensures Inv(Run(s, actions))
    decreases |actions|
  {
    hide Inv, Enabled, Step;
    if |actions| > 0 {
      StepKeepsInv(s, actions[0]);
      RunKeepsInv(Step(s, actions[0]), actions[1..]);
    }
  }

  // ---------------------------------------------------------------- main results

  /** The targets p was last given, from the actions alone: `start` if it was given none. */
  function LastWritten(actions: seq<Action>, p: nat, start: seq<Target>): seq<Target> {
    if |actions| == 0 then start
    else
      var last := actions[|actions| - 1];
      if last.Write? && last.p == p then last.ts else LastWritten(actions[..|actions| - 1], p, start)
  }

  lemma {:induction false} LastWrittenFrom(actions: seq<Action>, p: nat, start: seq<Target>)
    requires |actions| > 0
    ensures LastWritten(actions, p, start) ==
            LastWritten(actions[1..], p, if actions[0].Write? && actions[0].p == p then actions[0].ts else start)
  {
    if |actions| > 1 {
      var front := actions[..|actions| - 1];
      assert front[1..] == actions[1..][..|actions[1..]| - 1];
      LastWrittenFrom(front, p, start);
    }
  }

  lemma StepWrites(s: State, a: Action, p: nat)
    requires Enabled(s, a)
    ensures Targets(Step(s, a), p) == if a.Write? && a.p == p then a.ts else Targets(s, p)
    ensures p in Step(s, a).listed <==> p in s.listed || (a.List? && a.p == p)
  {
  }

  /** The state holds each profile's last written targets, and lists the profiles that were listed. */
  lemma {:induction false} RunWrites(s: State, actions: seq<Action>, p: nat)
    requires EnabledRun(s, actions)
    ensures Targets(Run(s, actions), p) == LastWritten(actions, p, Targets(s, p))
    ensures p in Run(s, actions).listed <==> p in s.listed || exists a :: a in actions && a.List? && a.p == p
    decreases |actions|
  {
    hide Enabled, Step, Targets;
    if |actions| > 0 {
      StepWrites(s, actions[0], p);
      LastWrittenFrom(actions, p, Targets(s, p));
      RunWrites(Step(s, actions[0]), actions[1..], p);
      assert forall a :: a in actions <==> a == actions[0] || a in actions[1..];
    }
  }

  predicate Quiescent(s: State) {
    !s.token && s.writers == map[] && s.consumer == Waiting
  }

  /**
   No update is lost: in any interleaving, a listed profile whose last written targets differ from the consumer's
   last read of it has a token pending, a writer between write and notify, or a consumer that has yet to read it.
   */
  lemma NoUpdateLost(listed: set<nat>, targets: map<nat, seq<Target>>, token: bool, actions: seq<Action>, p: nat)
    requires EnabledRun(Start(listed, targets, token), actions)
    requires p in Run(Start(listed, targets, token), actions).seen
    ensures var s := Run(Start(listed, targets, token), actions);
            s.seen[p] != LastWritten(actions, p, Initially(targets, p)) ==> WillRead(s, p) || WriterPending(s, p)
  {
    hide Run, EnabledRun, WriterPending;
    RunKeepsInv(Start(listed, targets, token), actions);
    RunWrites(Start(listed, targets, token), actions, p);
  }

  /**
   At quiescence the last read of every listed profile is current if it was ever read, and a profile that was
   never read was listed by a StartConfiguredProfiles call that failed, with no notification since.
   */
  lemma QuiescentIsCurrent(listed: set<nat>, targets: map<nat, seq<Target>>, token: bool, actions: seq<Action>, p: nat)
    requires EnabledRun(Start(listed, targets, token), actions)
    requires Quiescent(Run(Start(listed, targets, token), actions))
    requires p in Run(Start(listed, targets, token), actions).listed
    ensures var s := Run(Start(listed, targets, token), actions);
            && (p in s.seen ==> s.seen[p] == LastWritten(actions, p, Initially(targets, p)))
            && (p !in s.seen ==> p in s.abandoned)
  {
    hide Run, EnabledRun;
    RunKeepsInv(Start(listed, targets, token), actions);
    RunWrites(Start(listed, targets, token), actions, p);
  }

  lemma {:induction false} NobodyAbandoned(s: State, actions: seq<Action>)
    requires EnabledRun(s, actions) && s.abandoned == {} && forall a :: a in actions ==> !a.Fail?
    ensures Run(s, actions).abandoned == {}
    decreases |actions|
  {
    if |actions| > 0 {
      assert actions[0] in actions;
      NobodyAbandoned(Step(s, actions[0]), actions[1..]);
    }
  }

  /** Without such failures, the consumer's view at rest is exactly the listed profiles with their last targets. */
  lemma QuiescentViewIsExact(listed: set<nat>, targets: map<nat, seq<Target>>, token: bool, actions: seq<Action>)
    requires EnabledRun(Start(listed, targets, token), actions)
    requires Quiescent(Run(Start(listed, targets, token), actions))
    requires forall a :: a in actions ==> !a.Fail?
    ensures var s := Run(Start(listed, targets, token), actions);
            && (forall p :: p in s.seen <==> p in listed || exists a :: a in actions && a.List? && a.p == p)
            && (forall p :: p in s.seen ==> s.seen[p] == LastWritten(actions, p, Initially(targets, p)))
  {
    hide Run, EnabledRun, Targets;
    var s := Run(Start(listed, targets, token), actions);
    NobodyAbandoned(Start(listed, targets, token), actions);
    RunKeepsInv(Start(listed, targets, token), actions);
    forall p
      ensures p in s.seen <==> p in listed || exists a :: a in actions && a.List? && a.p == p
      ensures p in s.seen ==> s.seen[p] == LastWritten(actions, p, Initially(targets, p))
    {
      RunWrites(Start(listed, targets, token), actions, p);
      StartTargets(listed, targets, token, p);
      if p in s.listed {
        QuiescentIsCurrent(listed, targets, token, actions, p);
      }
    }
  }

  // ---------------------------------------------------------------- exactly which profiles are read

  predicate Notifies(actions: seq<Action>) {
    exists a :: a in actions && a.Post?
  }

  /**
   p was listed when the consumer was about to take the list anyway, or some notification followed its listing.
   Profiles listed from the start need nothing: the main goroutine reads them before it waits.
   */
  predicate Announced(s: State, actions: seq<Action>, p: nat)
    requires EnabledRun(s, actions)
    decreases |actions|
  {
    |actions| > 0 &&
    if actions[0].List? && actions[0].p == p && p !in s.listed
    then s.token || s.consumer == Received || Notifies(actions[1..])
    else Announced(Step(s, actions[0]), actions[1..], p)
  }

  /** p is listed and has been read, or will be before the consumer waits without a token. */
  predicate Reaches(s: State, p: nat) {
    p in s.listed && (p in s.seen || WillRead(s, p))
  }

  lemma ReachesStep(s: State, a: Action, p: nat)
    requires Enabled(s, a) && p in s.listed
    ensures Reaches(Step(s, a), p) <==> Reaches(s, p) || a.Post?
  {
  }

  /** Once listed, a profile is read by the time of rest exactly if it is on its way already or somebody notifies. */
  lemma {:induction false} ListedReaches(s: State, actions: seq<Action>, p: nat)
    requires EnabledRun(s, actions) && p in s.listed
    ensures Reaches(Run(s, actions), p) <==> Reaches(s, p) || Notifies(actions)
    decreases |actions|
  {
    hide Enabled, Step, Reaches;
    if |actions| > 0 {
      ReachesStep(s, actions[0], p);
      ListedStays(s, actions[0], p);
      ListedReaches(Step(s, actions[0]), actions[1..], p);
      assert forall a :: a in actions <==> a == actions[0] || a in actions[1..];
    }
  }

  lemma ListedStays(s: State, a: Action, p: nat)
    requires Enabled(s, a)
    ensures p in Step(s, a).listed <==> p in s.listed || (a.List? && a.p == p)
  {
  }

  lemma {:induction false} UnlistedReaches(s: State, actions: seq<Action>, p: nat)
    requires EnabledRun(s, actions) && Inv(s) && p !in s.listed
    ensures Reaches(Run(s, actions), p) <==> Announced(s, actions, p)
    decreases |actions|
  {
    hide Enabled, Step, Reaches, Inv, Notifies;
    if |actions| == 0 {
      NotListed(s, p);
    } else {
      var a, s2 := actions[0], Step(s, actions[0]);
      ListedStays(s, a, p);
      if a.List? && a.p == p {
        JustListed(s, a, p);
        ListedReaches(s2, actions[1..], p);
      } else {
        StepKeepsInv(s, a);
        UnlistedReaches(s2, actions[1..], p);
      }
    }
  }

  lemma NotListed(s: State, p: nat)
    requires p !in s.listed
    ensures !Reaches(s, p)
  {
  }

  lemma JustListed(s: State, a: Action, p: nat)
    requires Inv(s) && Enabled(s, a) && p !in s.listed && a.List? && a.p == p
    ensures Reaches(Step(s, a), p) <==> s.token || s.consumer == Received
  {
    hide WriterPending, ListerPending;
  }

  /**
   The exact guarantee: at rest a listed profile has been read, and its last read is current, if and only if it
   was listed from the start, or it was listed while a token was pending or the list about to be taken, or
   somebody notified after it was listed.
   */
  lemma ReadIffAnnounced(listed: set<nat>, targets: map<nat, seq<Target>>, token: bool, actions: seq<Action>, p: nat)
    requires EnabledRun(Start(listed, targets, token), actions)
    requires Quiescent(Run(Start(listed, targets, token), actions))
    requires p in Run(Start(listed, targets, token), actions).listed
    ensures var s := Run(Start(listed, targets, token), actions);
            && (p in s.seen <==> p in listed || Announced(Start(listed, targets, token), actions, p))
            && (p in s.seen ==> s.seen[p] == LastWritten(actions, p, Initially(targets, p)))
  {
    hide Run, EnabledRun, Announced, Notifies;
    QuiescentIsCurrent(listed, targets, token, actions, p);
    var s0 := Start(listed, targets, token);
    if p in listed {
      ListedReaches(s0, actions, p);
    } else {
      UnlistedReaches(s0, actions, p);
    }
  }

  /** So the consumer's view at rest is the listed profiles' targets if and only if that holds of each of them. */
  lemma ViewIsExactIff(listed: set<nat>, targets: map<nat, seq<Target>>, token: bool, actions: seq<Action>)
    requires EnabledRun(Start(listed, targets, token), actions)
    requires Quiescent(Run(Start(listed, targets, token), actions))
    ensures var s := Run(Start(listed, targets, token), actions);
            s.seen == (map p | p in s.listed :: LastWritten(actions, p, Initially(targets, p))) <==>
            forall p :: p in s.listed ==> p in listed || Announced(Start(listed, targets, token), actions, p)
  {
    hide Run, EnabledRun, Announced;
    var s := Run(Start(listed, targets, token), actions);
    RunKeepsInv(Start(listed, targets, token), actions);
    forall p | p in s.listed
      ensures p in s.seen <==> p in listed || Announced(Start(listed, targets, token), actions, p)
      ensures p in s.seen ==> s.seen[p] == LastWritten(actions, p, Initially(targets, p))
    {
      ReadIffAnnounced(listed, targets, token, actions, p);
    }
  }

  /**
   The failing case is real: a new profile writes and notifies, the token is consumed, the profile is listed, and
   the next profile's start fails. The system comes to rest without ever having read the listed profile.
   */
  lemma FailedStartLosesProfile(ts: seq<Target>)
    ensures exists actions :: EnabledRun(Start({}, map[], false), actions)
              && LosesProfile(Run(Start({}, map[], false), actions), 7, ts)
  {
    hide Run, EnabledRun, LosesProfile;
    var s0 := Start({}, map[], false);
    var s1 := Step(s0, TakeList);
    var s2 := Step(s1, Finish);
    var s3 := Step(s2, Write(0, 7, ts));
    var s4 := Step(s3, Post(0));
    assert s4 == State(map[7 := ts], {}, true, map[], Waiting, map[], {});
    var rest := FailedStart(s4, 7, ts);
    RunCons(s3, Post(0), rest);
    RunCons(s2, Write(0, 7, ts), [Post(0)] + rest);
    RunCons(s1, Finish, [Write(0, 7, ts)] + ([Post(0)] + rest));
    RunCons(s0, TakeList, [Finish] + ([Write(0, 7, ts)] + ([Post(0)] + rest)));
  }

  /** With a token pending and nobody writing, a start that lists an unread p and fails leaves p unread at rest. */
  lemma FailedStart(s: State, p: nat, ts: seq<Target>) returns (actions: seq<Action>)
    requires s.consumer == Waiting && s.token && s.writers == map[] && s.listed == {}
    requires p !in s.seen && Targets(s, p) == ts
    ensures EnabledRun(s, actions) && LosesProfile(Run(s, actions), p, ts)
  {
    hide Run, EnabledRun;
    var s1 := Step(s, Receive);
    var s2 := Step(s1, TakeList);
    var s3 := Step(s2, Finish);
    var s4 := Step(s3, List(1, p));
    var s5 := Step(s4, Fail(1));
    assert s5.writers == map[];
    RunNil(s5);
    RunCons(s4, Fail(1), []);
    RunCons(s3, List(1, p), [Fail(1)] + []);
    RunCons(s2, Finish, [List(1, p)] + ([Fail(1)] + []));
    RunCons(s1, TakeList, [Finish] + ([List(1, p)] + ([Fail(1)] + [])));
    actions := [Receive] + ([TakeList] + ([Finish] + ([List(1, p)] + ([Fail(1)] + []))));
    RunCons(s, Receive, [TakeList] + ([Finish] + ([List(1, p)] + ([Fail(1)] + []))));
  }

  /** At rest, with p listed and holding ts, and never read. */
  predicate LosesProfile(s: State, p: nat, ts: seq<Target>) {
    Quiescent(s) && p in s.listed && Targets(s, p) == ts && p !in s.seen
  }

  // ---------------------------------------------------------------- rest can always be reached

  /** Only pending notifications and the consumer's own steps. */
  predicate Settling(actions: seq<Action>) {
    forall a :: a in actions ==> !a.Write? && !a.List? && !a.Fail?
  }

  ghost predicate SettlesTo(s: State, s2: State) {
    exists actions :: EnabledRun(s, actions) && Run(s, actions) == s2 && Settling(actions)
  }

  lemma SettleNow(s: State)
    ensures SettlesTo(s, s)
  {
    RunNil(s);
    assert Settling([]);
  }

  lemma SettleStep(s: State, a: Action, s2: State)
    requires Enabled(s, a) && !a.Write? && !a.List? && !a.Fail? && SettlesTo(Step(s, a), s2)
    ensures SettlesTo(s, s2)
  {
    hide Enabled, Step, Run, EnabledRun;
    var rest :| EnabledRun(Step(s, a), rest) && Run(Step(s, a), rest) == s2 && Settling(rest);
    RunCons(s, a, rest);
    assert Settling([a] + rest);
  }

  /** From any state, the pending notifications and the consumer alone can bring the system to rest. */
  lemma {:induction false} RestIsReachable(s: State) returns (s2: State)
    ensures SettlesTo(s, s2) && Quiescent(s2)
    decreases |s.writers|, if s.token then 1 else 0, if s.consumer == Received then 1 else 0, Unread(s.consumer)
  {
    hide SettlesTo, Run, EnabledRun, ListedBy;
    if s.writers != map[] {
      assert s.writers.Keys != {};
      var w :| w in s.writers;
      FewerWriters(s.writers, w);
      s2 := RestIsReachable(Step(s, Post(w)));
      SettleStep(s, Post(w), s2);
    } else {
      match s.consumer
      case Waiting =>
        if s.token {
          s2 := RestIsReachable(Step(s, Receive));
          SettleStep(s, Receive, s2);
        } else {
          s2 := s;
          SettleNow(s);
        }
      case Received =>
        s2 := RestIsReachable(Step(s, TakeList));
        SettleStep(s, TakeList, s2);
      case Reading(remaining) =>
        if remaining == {} {
          s2 := RestIsReachable(Step(s, Finish));
          SettleStep(s, Finish, s2);
        } else {
          var p :| p in remaining;
          s2 := RestIsReachable(Step(s, Read(p)));
          SettleStep(s, Read(p), s2);
        }
    }
  }

  /** How many profiles, and the last step, the consumer still has before it waits. */
  function Unread(c: Consumer): nat {
    if c.Reading? then |c.remaining| + 1 else 0
  }

  lemma FewerWriters(writers: map<nat, Writer>, w: nat)
    requires w in writers
    ensures |writers - {w}| < |writers|
  {
    assert (writers - {w}).Keys == writers.Keys - {w};
    assert |(writers - {w}).Keys| == |writers - {w}| && |writers.Keys| == |writers|;
  }

  lemma RunNil(s: State)
    ensures EnabledRun(s, []) && Run(s, []) == s
  {
  }

  lemma RunCons(s: State, a: Action, rest: seq<Action>)
    requires Enabled(s, a) && EnabledRun(Step(s, a), rest)
    ensures EnabledRun(s, [a] + rest) && Run(s, [a] + rest) == Run(Step(s, a), rest)
  {
    assert ([a] + rest)[1..] == rest;
  }
}
