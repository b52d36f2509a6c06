/** Name and address lookup of the merged DNS server, and that forward and reverse answers invert each other. */
module DnsMux {
  import opened Bytes
  import opened Text
  import opened Inventory
  import opened Mux
  import opened MuxIndex
  import opened Wrappers

  // ---------------------------------------------------------------- names

  function LowerChar(c: char): char {
    if 'A' <= c <= 'Z' then c - 'A' + 'a' else c
  }

  function Lower(s: string): (r: string)
    ensures |r| == |s| && forall i :: 0 <= i < |s| ==> r[i] == LowerChar(s[i])
  {
    seq(|s|, i requires 0 <= i < |s| => LowerChar(s[i]))
  }

  /** Drops one trailing dot, if there is one. */
  function TrimDot(s: string): string {
    if |s| > 0 && s[|s| - 1] == '.' then s[..|s| - 1] else s
  }

  function Norm(s: string): string {
    TrimDot(Lower(s)) + ['.']
  }

  /** The text before the first dot, or all of it. */
  function FirstLabel(s: string): string {
    if |s| == 0 || s[0] == '.' then "" else [s[0]] + FirstLabel(s[1..])
  }

  /** `dns.ReverseAddr` of an IPv4 address (section 3.5 of RFC 1035). */
  function ReverseName(x: Addr): string {
    Dotted(Addr(x.d, x.c, x.b, x.a)) + ".in-addr.arpa."
  }

  predicate NoUpper(s: string) {
    forall i :: 0 <= i < |s| ==> !('A' <= s[i] <= 'Z')
  }

  lemma {:induction false} DecimalNoUpper(n: nat)
    ensures NoUpper(Decimal(n))
  {
    if n >= 10 {
      DecimalNoUpper(n / 10);
    }
  }

  /** Reverse names are in normal form already, so distinct addresses have distinct normalised names. */
  lemma ReverseNameNormal(x: Addr)
    ensures Norm(ReverseName(x)) == ReverseName(x)
  {
    hide Decimal;
    DecimalNoUpper(x.a); DecimalNoUpper(x.b); DecimalNoUpper(x.c); DecimalNoUpper(x.d);
    var s := ReverseName(x);
    assert NoUpper(s);
    assert Lower(s) == s;
    assert s[|s| - 1] == '.';
    assert s == s[..|s| - 1] + ['.'];
  }

  lemma ReverseNameInjective(x: Addr, y: Addr)
    requires Norm(ReverseName(x)) == Norm(ReverseName(y))
    ensures x == y
  {
    hide Dotted, Norm;
    ReverseNameNormal(x);
    ReverseNameNormal(y);
    var u, v := Dotted(Addr(x.d, x.c, x.b, x.a)), Dotted(Addr(y.d, y.c, y.b, y.a));
    assert u == ReverseName(x)[..|ReverseName(x)| - 14] == ReverseName(y)[..|ReverseName(y)| - 14] == v;
    DottedInjective(Addr(x.d, x.c, x.b, x.a), Addr(y.d, y.c, y.b, y.a));
  }

  predicate SameLetter(c: char, d: char) {
    || c == d
    || ('A' <= c <= 'Z' && d as int == c as int + 32)
    || ('a' <= c <= 'z' && d as int == c as int - 32)
  }

  /** Equal texts up to the case of letters. */
  predicate SameLetters(s: string, t: string) {
    |s| == |t| && forall i :: 0 <= i < |s| ==> SameLetter(s[i], t[i])
  }

  lemma LowerIff(s: string, t: string)
    ensures Lower(s) == Lower(t) <==> SameLetters(s, t)
  {
    assert forall c, d :: LowerChar(c) == LowerChar(d) <==> SameLetter(c, d);
    if SameLetters(s, t) {
      assert Lower(s) == Lower(t);
    }
    if Lower(s) == Lower(t) {
      assert forall i :: 0 <= i < |s| ==> Lower(s)[i] == Lower(t)[i];
    }
  }

  /** s writes the name f: with the trailing dot of a full name, or without one. */
  predicate Writes(s: string, f: string) {
    s == f + ['.'] || (s == f && (f == "" || f[|f| - 1] != '.'))
  }

  lemma NormOfWritten(s: string, f: string)
    requires Writes(s, f)
    ensures Norm(s) == Lower(f) + ['.']
  {
    var low := Lower(s);
    if s == f + ['.'] {
      assert low == Lower(f) + ['.'];
    } else if f != "" {
      assert low[|low| - 1] == LowerChar(f[|f| - 1]) != '.';
    }
  }

  lemma {:induction false} FirstLabelOf(s: string, g: string)
    requires '.' in s
    ensures FirstLabel(s) == g <==> '.' !in g && |g| < |s| && s[..|g|] == g && s[|g|] == '.'
  {
    if s[0] == '.' {
      assert g != "" && |g| < |s| && s[..|g|] == g ==> g[0] == s[0];
    } else {
      assert s == [s[0]] + s[1..];
      if g == "" {
      } else {
        FirstLabelOf(s[1..], g[1..]);
        assert g == [g[0]] + g[1..];
        if |g| < |s| {
          assert s[..|g|] == [s[0]] + s[1..][..|g| - 1];
          assert s[|g|] == s[1..][|g| - 1];
        }
      }
    }
  }

  // ---------------------------------------------------------------- specification

  /** The reverse index that `New` builds; a later target replaces an earlier one. */
  function ReverseIndex(targets: seq<Target>, effective: map<string, Addr>): map<Addr, string> {
    if |targets| == 0 then map[]
    else
      var t := targets[|targets| - 1];
      var before := ReverseIndex(targets[..|targets| - 1], effective);
      if t.fqdn != "" && Key(t) in effective then before[effective[Key(t)] := Norm(t.fqdn)] else before
  }

  /** A full match, or for a query of one label a match of the target's first label. */
  predicate Matches(t: Target, name: string) {
    || Norm(t.fqdn) == name
    || ('.' !in TrimDot(name) && t.fqdn != "" && FirstLabel(Norm(t.fqdn)) == TrimDot(name))
  }

  /** The first label of f is the dotless g, letter by letter. */
  lemma FirstLabelMatches(f: string, g: string)
    requires '.' !in g
    ensures FirstLabel(Lower(f) + ['.']) == Lower(g) <==>
              SameLetters(f, g) || (|g| < |f| && f[|g|] == '.' && SameLetters(f[..|g|], g))
  {
    hide Lower, FirstLabel, SameLetters;
    var low := Lower(f) + ['.'];
    assert low[|f|] == '.';
    LowerDots(g);
    FirstLabelOf(low, Lower(g));
    if |g| < |f| {
      LowerFront(f, |g|);
      LowerIff(f[..|g|], g);
      assert low[..|g|] == Lower(f)[..|g|] && low[|g|] == Lower(f)[|g|];
      SameLength(f, g);
    } else if |g| == |f| {
      LowerIff(f, g);
      assert low[..|g|] == Lower(f);
    } else {
      SameLength(f, g);
    }
  }

  lemma SameLength(s: string, t: string)
    ensures SameLetters(s, t) ==> |s| == |t|
  {
  }

  lemma LowerFront(f: string, n: nat)
    requires n < |f|
    ensures Lower(f)[..n] == Lower(f[..n]) && (Lower(f)[n] == '.' <==> f[n] == '.')
  {
  }

  /**
   Which names match, for a target named f and a query for g, each written with or without the trailing dot: the
   same letters in either case, or for a g without dots the part of f before its first dot.
   */
  lemma MatchesExactly(t: Target, f: string, query: string, g: string)
    requires Writes(t.fqdn, f) && Writes(query, g)
    ensures Matches(t, Norm(query)) <==>
              || SameLetters(f, g)
              || ('.' !in g && |g| < |f| && f[|g|] == '.' && SameLetters(f[..|g|], g))
  {
    hide Lower, FirstLabel, SameLetters, Norm;
    NormOfWritten(t.fqdn, f);
    NormOfWritten(query, g);
    var name := Norm(query);
    assert TrimDot(name) == Lower(g);
    assert Norm(t.fqdn) == name <==> Lower(f) == Lower(g) by {
      assert Norm(t.fqdn)[..|f|] == Lower(f) && name[..|g|] == Lower(g);
    }
    LowerIff(f, g);
    LowerDots(g);
    if '.' !in g {
      FirstLabelMatches(f, g);
    }
  }

  lemma LowerDots(s: string)
    ensures '.' in Lower(s) <==> '.' in s
  {
    if '.' in s {
      var i :| 0 <= i < |s| && s[i] == '.';
      assert Lower(s)[i] == '.';
    }
    if '.' in Lower(s) {
      var i :| 0 <= i < |s| && Lower(s)[i] == '.';
      assert s[i] == '.';
    }
  }

  /** `localA`: the first matching target with a lease. */
  function LocalA(targets: seq<Target>, effective: map<string, Addr>, name: string): Option<Target> {
    if |targets| == 0 then None
    else if Matches(targets[0], name) && Key(targets[0]) in effective then Some(targets[0])
    else LocalA(targets[1..], effective, name)
  }

  /** `ptr`: the name of an address whose reverse name is asked for. */
  ghost predicate PtrAnswers(reverse: map<Addr, string>, name: string, answer: Option<string>) {
    match answer
    case None => forall ip :: ip in reverse ==> Norm(ReverseName(ip)) != name
    case Some(f) => exists ip :: ip in reverse && Norm(ReverseName(ip)) == name && reverse[ip] == f
  }

  /** The loop of `rewrite` over the targets for one A record: the last leased target with the address wins. */
  function RewriteRecord(targets: seq<Target>, effective: map<string, Addr>, ip: Addr): Addr {
    if |targets| == 0 then ip
    else
      var t := targets[|targets| - 1];
      if t.canonical == ip && Key(t) in effective then effective[Key(t)]
      else RewriteRecord(targets[..|targets| - 1], effective, ip)
  }

  /** A reverse query lists the four octets of the address that is looked up from the last one to the first. */
  lemma ReverseQuery(reverse: map<Addr, string>, x: Addr, query: string, answer: Option<string>)
    requires query == Decimal(x.d) + "." + Decimal(x.c) + "." + Decimal(x.b) + "." + Decimal(x.a) + ".in-addr.arpa."
    requires PtrAnswers(reverse, Norm(query), answer)
    ensures answer == if x in reverse then Some(reverse[x]) else None
  {
    hide Norm, Decimal;
    assert query == ReverseName(x);
    forall y ensures Norm(ReverseName(y)) == Norm(query) <==> y == x {
      if Norm(ReverseName(y)) == Norm(query) {
        ReverseNameInjective(y, x);
      }
    }
  }

  // ---------------------------------------------------------------- the lookups as loops

  class Server {
    var targets: seq<Target>
    var effective: map<string, Addr>
    var reverse: map<Addr, string>

    ghost predicate Valid()
      reads this
    {
      reverse == ReverseIndex(targets, effective)
    }

    /** `New`; `Update` installs the same three fields again. */
    constructor (targets: seq<Target>, effective: map<string, Addr>)
      ensures Valid() && this.targets == targets && this.effective == effective
    {
      this.targets, this.effective := targets, effective;
      reverse := map[];
      new;
      Update(targets, effective);
    }

    method Update(targets: seq<Target>, effective: map<string, Addr>)
      modifies this
      ensures Valid() && this.targets == targets && this.effective == effective
    {
      var index: map<Addr, string> := map[];
      for i := 0 to |targets|
        invariant index == ReverseIndex(targets[..i], effective)
      {
        var t := targets[i];
        assert targets[..i + 1][..i] == targets[..i];
        if t.fqdn != "" {
          var f := Norm(t.fqdn);
          if Key(t) in effective {
            index := index[effective[Key(t)] := f];
          }
        }
      }
      assert targets[..|targets|] == targets;
      this.targets, this.effective, reverse := targets, effective, index;
    }

    /** `localA`. */
    method Answer(name: string) returns (ip: Option<Addr>)
      ensures match LocalA(targets, effective, name)
              case None => ip == None
              case Some(t) => Key(t) in effective && ip == Some(effective[Key(t)])
    {
      for i := 0 to |targets|
        invariant LocalA(targets, effective, name) == LocalA(targets[i..], effective, name)
      {
        var t := targets[i];
        assert targets[i..][0] == t && targets[i..][1..] == targets[i + 1..];
        var found := Norm(t.fqdn) == name;
        if !found && '.' !in TrimDot(name) && t.fqdn != "" {
          found := FirstLabel(Norm(t.fqdn)) == TrimDot(name);
        }
        if found && Key(t) in effective {
          return Some(effective[Key(t)]);
        }
      }
      return None;
    }

    /** `ptr`, over the reverse map in any order. */
    method Ptr(name: string) returns (answer: Option<string>)
      ensures PtrAnswers(reverse, name, answer)
    {
      var pending := reverse.Keys;
      while pending != {}
        invariant pending <= reverse.Keys
        invariant forall ip :: ip in reverse && ip !in pending ==> Norm(ReverseName(ip)) != name
        decreases pending
      {
        var ip :| ip in pending;
        if Norm(ReverseName(ip)) == name {
          return Some(reverse[ip]);
        }
        pending := pending - {ip};
      }
      return None;
    }

    /** One A record in `rewrite`. */
    method RewriteA(ip: Addr) returns (out: Addr)
      ensures out == RewriteRecord(targets, effective, ip)
    {
      out := ip;
      for i := 0 to |targets|
        invariant out == RewriteRecord(targets[..i], effective, ip)
      {
        assert targets[..i + 1][..i] == targets[..i];
        if targets[i].canonical == ip && Key(targets[i]) in effective {
          out := effective[Key(targets[i])];
        }
      }
      assert targets[..|targets|] == targets;
    }
  }

  // ---------------------------------------------------------------- forward and reverse

  /** Targets with the same lease key have the same name. */
  ghost predicate NamePerKey(targets: seq<Target>) {
    forall t, u :: t in targets && u in targets && Key(t) == Key(u) ==> t.fqdn == u.fqdn
  }

  lemma {:induction false} ReverseEntries(targets: seq<Target>, effective: map<string, Addr>)
    ensures forall ip :: ip in ReverseIndex(targets, effective) ==>
              exists t :: t in targets && t.fqdn != "" && Key(t) in effective && effective[Key(t)] == ip
                          && ReverseIndex(targets, effective)[ip] == Norm(t.fqdn)
    ensures forall t :: t in targets && t.fqdn != "" && Key(t) in effective ==>
              effective[Key(t)] in ReverseIndex(targets, effective)
  {
    hide Key, Norm;
    if |targets| > 0 {
      var front, last := targets[..|targets| - 1], targets[|targets| - 1];
      ReverseEntries(front, effective);
      assert forall t :: t in targets <==> t in front || t == last;
    }
  }

  /** With injective leases, the reverse index gives each leased target its own name, and unnamed ones none. */
  lemma ReverseOfTarget(targets: seq<Target>, effective: map<string, Addr>, t: Target)
    requires t in targets && Key(t) in effective && InjectiveLeases(effective) && NamePerKey(targets)
    ensures var r := ReverseIndex(targets, effective);
            if t.fqdn == "" then effective[Key(t)] !in r
            else effective[Key(t)] in r && r[effective[Key(t)]] == Norm(t.fqdn)
  {
    hide Key, Norm, ReverseIndex;
    ReverseEntries(targets, effective);
    var ip, r := effective[Key(t)], ReverseIndex(targets, effective);
    if ip in r {
      var u :| u in targets && u.fqdn != "" && Key(u) in effective && effective[Key(u)] == ip && r[ip] == Norm(u.fqdn);
      assert Key(u) == Key(t);
    }
  }

  lemma {:induction false} LocalAFound(targets: seq<Target>, effective: map<string, Addr>, name: string)
    ensures LocalA(targets, effective, name).Some? ==>
              var t := LocalA(targets, effective, name).value;
              t in targets && Matches(t, name) && Key(t) in effective
  {
    hide Key, Matches;
    if |targets| > 0 {
      LocalAFound(targets[1..], effective, name);
    }
  }

  /** The answer is the first target that matches and is leased; there is none only if no target does. */
  lemma {:induction false} LocalAIsFirst(targets: seq<Target>, effective: map<string, Addr>, name: string)
    ensures match LocalA(targets, effective, name)
            case None => forall t :: t in targets && Key(t) in effective ==> !Matches(t, name)
            case Some(t) => exists i :: 0 <= i < |targets| && targets[i] == t && Matches(t, name) && Key(t) in effective
                              && forall j :: 0 <= j < i && Key(targets[j]) in effective ==> !Matches(targets[j], name)
  {
    hide Key, Matches;
    if |targets| > 0 {
      var rest := targets[1..];
      LocalAIsFirst(rest, effective, name);
      assert forall t :: t in targets <==> t == targets[0] || t in rest;
      if LocalA(targets, effective, name).Some? {
        var t := LocalA(targets, effective, name).value;
        if Matches(targets[0], name) && Key(targets[0]) in effective {
          assert targets[0] == t;
        } else {
          var i :| 0 <= i < |rest| && rest[i] == t
                   && forall j :: 0 <= j < i && Key(rest[j]) in effective ==> !Matches(rest[j], name);
          assert targets[i + 1] == t && forall j :: 1 <= j < i + 1 ==> targets[j] == rest[j - 1];
        }
      }
    }
  }

  /**
   The reverse lookup of an answered address gives the answering target's normalised name, and nothing for a
   target without one, whichever order the reverse map is searched in.
   */
  lemma ReverseOfAnswer(targets: seq<Target>, effective: map<string, Addr>, name: string, answer: Option<string>)
    requires InjectiveLeases(effective) && NamePerKey(targets) && LocalA(targets, effective, name).Some?
    requires var t := LocalA(targets, effective, name).value;
             Key(t) in effective
                 && PtrAnswers(ReverseIndex(targets, effective), Norm(ReverseName(effective[Key(t)])), answer)
    ensures var t := LocalA(targets, effective, name).value;
            answer == if t.fqdn == "" then None else Some(Norm(t.fqdn))
  {
    hide Key, Norm, ReverseIndex, LocalA, ReverseName, Matches, InjectiveLeases;
    LocalAFound(targets, effective, name);
    var t := LocalA(targets, effective, name).value;
    var ip, r := effective[Key(t)], ReverseIndex(targets, effective);
    ReverseOfTarget(targets, effective, t);
    match answer
    case None =>
      assert ip !in r;
    case Some(f) =>
      var x :| x in r && Norm(ReverseName(x)) == Norm(ReverseName(ip)) && r[x] == f;
      ReverseNameInjective(x, ip);
  }

  /**
   Forward and reverse invert each other: for an answered query, the reverse lookup of the answer returns the
   query name exactly when the answering target is named and matched in full, and always when the name has more
   than one label.
   */
  lemma ForwardReverseInverse(targets: seq<Target>, effective: map<string, Addr>, query: string, answer: Option<string>)
    requires InjectiveLeases(effective) && NamePerKey(targets) && LocalA(targets, effective, Norm(query)).Some?
    requires var t := LocalA(targets, effective, Norm(query)).value;
             Key(t) in effective
                 && PtrAnswers(ReverseIndex(targets, effective), Norm(ReverseName(effective[Key(t)])), answer)
    ensures var t := LocalA(targets, effective, Norm(query)).value;
            && (answer == Some(Norm(query)) <==> t.fqdn != "" && Norm(t.fqdn) == Norm(query))
            && ('.' in TrimDot(Norm(query)) ==> answer == Some(Norm(query)))
  {
    hide Key, ReverseIndex, LocalA, ReverseName, InjectiveLeases, PtrAnswers, NamePerKey, Lower, FirstLabel;
    LocalAFound(targets, effective, Norm(query));
    ReverseOfAnswer(targets, effective, Norm(query), answer);
    var t := LocalA(targets, effective, Norm(query)).value;
    if '.' in TrimDot(Norm(query)) {
      assert Norm("") == "." by {
        EmptyNorm();
      }
      assert TrimDot(".") == "";
    }
  }

  lemma RootMatches(t: Target)
    ensures Matches(t, Norm(".")) <==> t.fqdn == "" || t.fqdn[0] == '.'
  {
    EmptyNorm();
    if t.fqdn != "" {
      var low := Lower(t.fqdn);
      assert low[0] == LowerChar(t.fqdn[0]);
      assert |TrimDot(low)| > 0 ==> Norm(t.fqdn)[0] == low[0];
      assert |TrimDot(low)| == 0 ==> low == ['.'];
    }
  }

  /**
   A query for the root name is answered with the lease of the first leased target that has no name, or one that
   starts with a dot, and with nothing if there is none. An unnamed one has no reverse entry.
   */
  lemma RootQueryAnswer(targets: seq<Target>, effective: map<string, Addr>, answer: Option<string>)
    ensures match LocalA(targets, effective, Norm("."))
            case None => forall t :: t in targets && Key(t) in effective ==> t.fqdn != "" && t.fqdn[0] != '.'
            case Some(t) =>
              && t in targets && Key(t) in effective && (t.fqdn == "" || t.fqdn[0] == '.')
              && exists i :: 0 <= i < |targets| && targets[i] == t
                   && forall j :: 0 <= j < i && Key(targets[j]) in effective ==>
                           targets[j].fqdn != "" && targets[j].fqdn[0] != '.'
    ensures var r := LocalA(targets, effective, Norm("."));
            r.Some? && r.value.fqdn == "" && InjectiveLeases(effective) && NamePerKey(targets)
            && PtrAnswers(ReverseIndex(targets, effective), Norm(ReverseName(effective[Key(r.value)])), answer)
            ==> answer == None
  {
    hide Key, Norm, Matches, LocalA, ReverseIndex, ReverseName, InjectiveLeases, NamePerKey, PtrAnswers;
    LocalAIsFirst(targets, effective, Norm("."));
    forall t ensures Matches(t, Norm(".")) <==> t.fqdn == "" || t.fqdn[0] == '.' {
      RootMatches(t);
    }
    var r := LocalA(targets, effective, Norm("."));
    if r.Some? && InjectiveLeases(effective) && NamePerKey(targets)
       && PtrAnswers(ReverseIndex(targets, effective), Norm(ReverseName(effective[Key(r.value)])), answer) {
      ReverseOfAnswer(targets, effective, Norm("."), answer);
    }
  }

  lemma EmptyNorm()
    ensures Norm("") == "."
  {
  }

  // ---------------------------------------------------------------- names against the datapath

  /** An answered address leads, through the mux, to the answering target's profile and canonical address. */
  lemma AnswerReachesTarget(targets: seq<Target>, effective: map<string, Addr>, profiles: seq<DatapathProfile>,
                            name: string)
    requires InjectiveLeases(effective) && FreeTargets(targets) && LocalA(targets, effective, name).Some?
    requires LocalA(targets, effective, name).value.profileID in ProfileIndex(profiles)
    ensures var t := LocalA(targets, effective, name).value;
            && Key(t) in effective
            && var b := Lookup(BuildIndex(targets, effective, ProfileIndex(profiles)), effective[Key(t)]);
            b.Some? && b.value.target.profileID == t.profileID && b.value.target.canonical == t.canonical
  {
    hide Key, LocalA, BuildIndex, InjectiveLeases, FreeTargets, Lookup, Matches;
    LocalAFound(targets, effective, name);
    EffectiveLookup(targets, effective, ProfileIndex(profiles), LocalA(targets, effective, name).value);
  }

  lemma {:induction false} RewrittenFromTarget(targets: seq<Target>, effective: map<string, Addr>, ip: Addr)
    ensures var out := RewriteRecord(targets, effective, ip);
            if exists t :: t in targets && t.canonical == ip && Key(t) in effective
            then exists t :: t in targets && t.canonical == ip && Key(t) in effective && out == effective[Key(t)]
            else out == ip
  {
    hide Key;
    if |targets| > 0 {
      var front, last := targets[..|targets| - 1], targets[|targets| - 1];
      RewrittenFromTarget(front, effective, ip);
      assert forall t :: t in targets <==> t in front || t == last;
    }
  }

  /** out is what the last of the targets that rewrites the record makes of it. */
  ghost predicate LastRewrites(targets: seq<Target>, effective: map<string, Addr>, ip: Addr, i: int, out: Addr) {
    && 0 <= i < |targets| && Rewrites(targets[i], effective, ip) && out == effective[Key(targets[i])]
    && forall j :: i < j < |targets| ==> !Rewrites(targets[j], effective, ip)
  }

  /** The record becomes the lease of the last leased target with the address, and stays as it is without one. */
  lemma {:induction false} RewriteTakesLast(targets: seq<Target>, effective: map<string, Addr>, ip: Addr)
    ensures var out := RewriteRecord(targets, effective, ip);
            || (out == ip && forall i :: 0 <= i < |targets| ==> !Rewrites(targets[i], effective, ip))
            || exists i :: LastRewrites(targets, effective, ip, i, out)
  {
    hide Key;
    if |targets| > 0 {
      var n, out := |targets| - 1, RewriteRecord(targets, effective, ip);
      var front := targets[..n];
      RewriteTakesLast(front, effective, ip);
      assert forall i :: 0 <= i < n ==> front[i] == targets[i];
      if Rewrites(targets[n], effective, ip) {
        assert LastRewrites(targets, effective, ip, n, out);
      } else if i :| LastRewrites(front, effective, ip, i, out) {
        assert LastRewrites(targets, effective, ip, i, out);
      }
    }
  }

  predicate Rewrites(t: Target, effective: map<string, Addr>, ip: Addr) {
    t.canonical == ip && Key(t) in effective
  }

  /** A rewritten A record leads, through the mux, to a target with the canonical address that was rewritten. */
  lemma RewrittenReachesCanonical(targets: seq<Target>, effective: map<string, Addr>, profiles: seq<DatapathProfile>,
                                  ip: Addr)
    requires InjectiveLeases(effective) && FreeTargets(targets)
    requires forall t :: t in targets ==> t.profileID in ProfileIndex(profiles)
    requires exists t :: t in targets && t.canonical == ip && Key(t) in effective
    ensures var b := Lookup(BuildIndex(targets, effective, ProfileIndex(profiles)),
                            RewriteRecord(targets, effective, ip));
            b.Some? && b.value.target.canonical == ip
  {
    hide Key, BuildIndex, InjectiveLeases, FreeTargets, Lookup, RewriteRecord;
    RewrittenFromTarget(targets, effective, ip);
    var t :| t in targets && t.canonical == ip && Key(t) in effective
        && RewriteRecord(targets, effective, ip) == effective[Key(t)];
    EffectiveLookup(targets, effective, ProfileIndex(profiles), t);
  }
}
