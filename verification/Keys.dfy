/** The flow, fragment and inventory keys, and that they stand for their components. */
module Keys {
  import opened Bytes
  import opened Rewrite
  import opened Text
  import opened Wrappers

  // ---------------------------------------------------------------- flow keys

  datatype FlowId = FlowId(profile: string, proto: Byte, remote: Addr, remotePort: U16, local: U16)

  function RenderFlow(f: FlowId): string {
    f.profile + ['/'] + (Decimal(f.proto) + ['/'] + (Dotted(f.remote) + ['/'] +
                                                     (Decimal(f.remotePort) + ['/'] + Decimal(f.local))))
  }

  /** The components that `flowKey` formats; None where it returns the empty string. */
  function FlowOf(pid: string, p: seq<Byte>, inbound: bool): Option<FlowId> {
    if !WellFormed(p) then None
    else
      var n := HeaderLength(p);
      var proto := p[9];
      var remote := if inbound then AddrAt(p, 12) else AddrAt(p, 16);
      if IsTransport(proto) then
        if |p| < n + 4 then None
        else
          var a, b := U16At(p, n), U16At(p, n + 2);
          Some(if inbound then FlowId(pid, proto, remote, a, b) else FlowId(pid, proto, remote, b, a))
      else if proto == ICMP then
        if |p| < n + 6 then None else Some(FlowId(pid, proto, remote, 0, U16At(p, n + 4)))
      else None
  }

  function FlowKey(pid: string, p: seq<Byte>, inbound: bool): string {
    match FlowOf(pid, p, inbound)
    case None => ""
    case Some(f) => RenderFlow(f)
  }

  lemma FlowKeyFaithful(f: FlowId, g: FlowId)
    requires Free('/', f.profile) && Free('/', g.profile)
    ensures RenderFlow(f) == RenderFlow(g) <==> f == g
  {
    if RenderFlow(f) == RenderFlow(g) {
      DecimalFree(f.proto); DottedFree(f.remote); DecimalFree(f.remotePort);
      DecimalFree(g.proto); DottedFree(g.remote); DecimalFree(g.remotePort);
      var f4, g4 := Decimal(f.local), Decimal(g.local);
      var f3, g3 := Decimal(f.remotePort) + ['/'] + f4, Decimal(g.remotePort) + ['/'] + g4;
      var f2, g2 := Dotted(f.remote) + ['/'] + f3, Dotted(g.remote) + ['/'] + g3;
      var f1, g1 := Decimal(f.proto) + ['/'] + f2, Decimal(g.proto) + ['/'] + g2;
      SplitUnique('/', f.profile, f1, g.profile, g1);
      SplitUnique('/', Decimal(f.proto), f2, Decimal(g.proto), g2);
      SplitUnique('/', Dotted(f.remote), f3, Dotted(g.remote), g3);
      SplitUnique('/', Decimal(f.remotePort), f4, Decimal(g.remotePort), g4);
      DecimalInjective(f.proto, g.proto);
      DottedInjective(f.remote, g.remote);
      DecimalInjective(f.remotePort, g.remotePort);
      DecimalInjective(f.local, g.local);
    }
  }

  /** Purging by prefix selects exactly the flows of the profile. */
  lemma FlowPrefix(id: string, f: FlowId)
    requires Free('/', id) && Free('/', f.profile)
    ensures HasPrefix(RenderFlow(f), id + ['/']) <==> f.profile == id
  {
    PrefixIdentifies('/', id, f.profile, Decimal(f.proto) + ['/'] + (Dotted(f.remote) + ['/'] +
                     (Decimal(f.remotePort) + ['/'] + Decimal(f.local))));
  }

  /** On the bytes: which packets have a flow key. */
  lemma FlowKeyPresentIff(pid: string, p: seq<Byte>, inbound: bool)
    ensures FlowKey(pid, p, inbound) != "" <==>
            && WellFormed(p)
            && var n := 4 * (p[0] - 0x40);
               || ((p[9] == 6 || p[9] == 17) && |p| >= n + 4)
               || (p[9] == 1 && |p| >= n + 6)
  {
    hide RenderFlow;
    if FlowOf(pid, p, inbound).Some? {
      FlowRendered(FlowOf(pid, p, inbound).value);
    }
  }

  lemma FlowRendered(f: FlowId)
    ensures RenderFlow(f) != ""
  {
  }

  /** The remote end's address, then its port and the local port, or the identifier of an ICMP echo, as bytes. */
  function FlowBytes(p: seq<Byte>, inbound: bool): seq<Byte>
    requires WellFormed(p) && |p| >= 4 * (p[0] - 0x40) + (if p[9] == 1 then 6 else 4)
  {
    var n := 4 * (p[0] - 0x40);
    (if inbound then p[12..16] else p[16..20]) +
    if p[9] == 1 then p[n + 4..n + 6]
    else if inbound then p[n..n + 4] else p[n + 2..n + 4] + p[n..n + 2]
  }

  /** On the bytes: two packets have the same flow key exactly when those bytes, the protocol and the profile agree. */
  lemma FlowKeyOnBytes(pid: string, p: seq<Byte>, a: bool, pid2: string, q: seq<Byte>, b: bool)
    requires Free('/', pid) && Free('/', pid2) && FlowKey(pid, p, a) != "" && FlowKey(pid2, q, b) != ""
    ensures WellFormed(p) && |p| >= 4 * (p[0] - 0x40) + (if p[9] == 1 then 6 else 4)
    ensures WellFormed(q) && |q| >= 4 * (q[0] - 0x40) + (if q[9] == 1 then 6 else 4)
    ensures FlowKey(pid, p, a) == FlowKey(pid2, q, b) <==>
            pid == pid2 && p[9] == q[9] && FlowBytes(p, a) == FlowBytes(q, b)
  {
    hide RenderFlow, Free, FlowOf, FlowBytes;
    FlowParts(pid, p, a);
    FlowParts(pid2, q, b);
    FlowKeyFaithful(FlowOf(pid, p, a).value, FlowOf(pid2, q, b).value);
    PartsOfBytes(FlowOf(pid, p, a).value, FlowBytes(p, a), FlowOf(pid2, q, b).value, FlowBytes(q, b));
  }

  /** The components of a flow are read from these bytes: an address and an identifier, or an address and two ports. */
  predicate ReadFrom(f: FlowId, x: seq<Byte>) {
    && |x| == (if f.proto == 1 then 6 else 8) && f.remote == AddrAt(x, 0)
    && if f.proto == 1 then f.remotePort == 0 && f.local == U16At(x, 4)
       else f.remotePort == U16At(x, 4) && f.local == U16At(x, 6)
  }

  lemma PartsOfBytes(f: FlowId, x: seq<Byte>, g: FlowId, y: seq<Byte>)
    requires ReadFrom(f, x) && ReadFrom(g, y)
    ensures f == g <==> f.profile == g.profile && f.proto == g.proto && x == y
  {
    if f.profile == g.profile && f.proto == g.proto {
      AddrOfBytes(x, 0, y);
      WordOfBytes(x, 4, y);
      assert x == x[0..4] + x[4..6] + x[6..] && y == y[0..4] + y[4..6] + y[6..];
      if f.proto != 1 {
        WordOfBytes(x, 6, y);
        assert x[6..] == x[6..8] && y[6..] == y[6..8];
      }
    }
  }

  lemma FlowParts(pid: string, p: seq<Byte>, inbound: bool)
    requires FlowOf(pid, p, inbound).Some?
    ensures WellFormed(p) && |p| >= 4 * (p[0] - 0x40) + (if p[9] == 1 then 6 else 4)
    ensures var f, x := FlowOf(pid, p, inbound).value, FlowBytes(p, inbound);
            f.profile == pid && f.proto == p[9] && ReadFrom(f, x)
  {
  }

  lemma AddrOfBytes(x: seq<Byte>, i: nat, y: seq<Byte>)
    requires i + 4 <= |x| && i + 4 <= |y|
    ensures AddrAt(x, i) == AddrAt(y, i) <==> x[i..i + 4] == y[i..i + 4]
  {
    assert x[i..i + 4] == [x[i], x[i + 1], x[i + 2], x[i + 3]];
    assert y[i..i + 4] == [y[i], y[i + 1], y[i + 2], y[i + 3]];
  }

  lemma WordOfBytes(x: seq<Byte>, i: nat, y: seq<Byte>)
    requires i + 2 <= |x| && i + 2 <= |y|
    ensures U16At(x, i) == U16At(y, i) <==> x[i..i + 2] == y[i..i + 2]
  {
    WordParts(x[i], x[i + 1]);
    WordParts(y[i], y[i + 1]);
    assert x[i..i + 2] == [x[i], x[i + 1]];
    assert y[i..i + 2] == [y[i], y[i + 1]];
  }

  // ---------------------------------------------------------------- fragment keys

  datatype FragmentId = FragmentId(profile: string, proto: Byte, src: Addr, dst: Addr, ident: U16)

  function RenderFragment(f: FragmentId): string {
    f.profile + ['/'] + (Decimal(f.proto) + ['/'] + (Hex(AddrBytes(f.src)) + ['/'] +
                                                     (Hex(AddrBytes(f.dst)) + ['/'] + Decimal(f.ident))))
  }

  function FragmentIdOf(pid: string, p: seq<Byte>): FragmentId
    requires |p| >= 20
  {
    FragmentId(pid, p[9], AddrAt(p, 12), AddrAt(p, 16), U16At(p, 4))
  }

  function FragmentKey(pid: string, p: seq<Byte>): string {
    if |p| < 20 then "" else RenderFragment(FragmentIdOf(pid, p))
  }

  lemma FragmentKeyPresent(pid: string, p: seq<Byte>)
    requires |p| >= 20
    ensures FragmentKey(pid, p) != ""
  {
  }

  lemma FragmentKeyFaithful(f: FragmentId, g: FragmentId)
    requires Free('/', f.profile) && Free('/', g.profile)
    ensures RenderFragment(f) == RenderFragment(g) <==> f == g
  {
    if RenderFragment(f) == RenderFragment(g) {
      hide Decimal, Hex;
      DecimalFree(f.proto); HexFree(AddrBytes(f.src)); HexFree(AddrBytes(f.dst));
      DecimalFree(g.proto); HexFree(AddrBytes(g.src)); HexFree(AddrBytes(g.dst));
      var f4, g4 := Decimal(f.ident), Decimal(g.ident);
      var f3, g3 := Hex(AddrBytes(f.dst)) + ['/'] + f4, Hex(AddrBytes(g.dst)) + ['/'] + g4;
      var f2, g2 := Hex(AddrBytes(f.src)) + ['/'] + f3, Hex(AddrBytes(g.src)) + ['/'] + g3;
      var f1, g1 := Decimal(f.proto) + ['/'] + f2, Decimal(g.proto) + ['/'] + g2;
      SplitUnique('/', f.profile, f1, g.profile, g1);
      SplitUnique('/', Decimal(f.proto), f2, Decimal(g.proto), g2);
      SplitUnique('/', Hex(AddrBytes(f.src)), f3, Hex(AddrBytes(g.src)), g3);
      SplitUnique('/', Hex(AddrBytes(f.dst)), f4, Hex(AddrBytes(g.dst)), g4);
      DecimalInjective(f.proto, g.proto);
      HexInjective(AddrBytes(f.src), AddrBytes(g.src));
      HexInjective(AddrBytes(f.dst), AddrBytes(g.dst));
      AddrBytesInjective(f.src, g.src);
      AddrBytesInjective(f.dst, g.dst);
      DecimalInjective(f.ident, g.ident);
    }
  }

  /** On the bytes: protocol, both addresses, and the identification at offset 4. */
  lemma FragmentKeyOnBytes(pid: string, p: seq<Byte>, pid2: string, q: seq<Byte>)
    requires Free('/', pid) && Free('/', pid2) && |p| >= 20 && |q| >= 20
    ensures FragmentKey(pid, p) == FragmentKey(pid2, q) <==>
            pid == pid2 && p[4] == q[4] && p[5] == q[5] && p[9] == q[9] && p[12..20] == q[12..20]
  {
    hide RenderFragment, Free;
    FragmentKeyFaithful(FragmentIdOf(pid, p), FragmentIdOf(pid2, q));
    WordParts(p[4], p[5]);
    WordParts(q[4], q[5]);
    AddrOfBytes(p, 12, q);
    AddrOfBytes(p, 16, q);
    assert p[12..20] == p[12..16] + p[16..20] && q[12..20] == q[12..16] + q[16..20];
    assert p[12..20][..4] == p[12..16] && q[12..20][..4] == q[12..16];
    assert p[12..20][4..] == p[16..20] && q[12..20][4..] == q[16..20];
  }

  lemma AddrBytesInjective(x: Addr, y: Addr)
    requires AddrBytes(x) == AddrBytes(y)
    ensures x == y
  {
    assert AddrBytes(x)[0] == AddrBytes(y)[0] && AddrBytes(x)[1] == AddrBytes(y)[1];
    assert AddrBytes(x)[2] == AddrBytes(y)[2] && AddrBytes(x)[3] == AddrBytes(y)[3];
  }

  lemma FragmentPrefix(id: string, f: FragmentId)
    requires Free('/', id) && Free('/', f.profile)
    ensures HasPrefix(RenderFragment(f), id + ['/']) <==> f.profile == id
  {
    PrefixIdentifies('/', id, f.profile, Decimal(f.proto) + ['/'] + (Hex(AddrBytes(f.src)) + ['/'] +
                     (Hex(AddrBytes(f.dst)) + ['/'] + Decimal(f.ident))));
  }

  // ---------------------------------------------------------------- replies

  /** q answers p: the protocols agree, p's destination answers, and ports or the echo identifier match. */
  predicate Answers(q: seq<Byte>, p: seq<Byte>) {
    && WellFormed(p) && WellFormed(q)
    && q[9] == p[9] && AddrAt(q, 12) == AddrAt(p, 16)
    && var m, n := HeaderLength(q), HeaderLength(p);
    && (IsTransport(p[9]) ==>
          && m + 4 <= |q| && n + 4 <= |p|
          && U16At(q, m) == U16At(p, n + 2) && U16At(q, m + 2) == U16At(p, n))
    && (p[9] == ICMP ==> m + 6 <= |q| && n + 6 <= |p| && U16At(q, m + 4) == U16At(p, n + 4))
  }

  /** A packet and its answer have the same flow key, whatever the local addresses are on either side. */
  lemma ReplySharesFlow(pid: string, p: seq<Byte>, q: seq<Byte>)
    requires Answers(q, p)
    ensures FlowOf(pid, q, true) == FlowOf(pid, p, false)
    ensures FlowKey(pid, q, true) == FlowKey(pid, p, false)
    ensures FlowKey(pid, p, false) != "" <==> IsTransport(p[9]) || p[9] == ICMP
  {
  }
}
