/**
 What address translation guarantees: valid checksums afterwards, nothing else touched, and exactly when
 translating back restores the packet.
 */
module RewriteProofs {
  import opened Bytes
  import opened Checksum
  import opened Rewrite
  import opened Wrappers

  lemma {:induction false} WordSumPositive(p: seq<Byte>, i: nat)
    requires i < |p| && p[i] > 0
    ensures WordSum(p) > 0
  {
    if |p| > 1 && i >= 2 {
      WordSumPositive(p[2..], i - 2);
    }
  }

  lemma PutU16Twice(p: seq<Byte>, i: nat, v: U16, w: U16)
    requires i + 2 <= |p|
    ensures PutU16(PutU16(p, i, v), i, w) == PutU16(p, i, w)
  {
  }

  lemma PutU16Same(p: seq<Byte>, i: nat)
    requires i + 2 <= |p|
    ensures PutU16(p, i, U16At(p, i)) == p
  {
  }

  lemma PutU16Injective(p: seq<Byte>, i: nat, v: U16)
    requires i + 2 <= |p|
    ensures PutU16(p, i, v) == p <==> U16At(p, i) == v
  {
    PutU16Same(p, i);
  }

  lemma PutU16Slice(p: seq<Byte>, n: nat, i: nat, w: U16)
    requires n <= i && i + 2 <= |p|
    ensures PutU16(p, i, w)[n..] == PutU16(p[n..], i - n, w)
    ensures PutU16(p, i, w)[..n] == p[..n]
  {
  }

  // ---------------------------------------------------------------- the IPv4 header

  /** The header checksum `rewrite` would store for a packet's own addresses. */
  function HeaderChecksum(p: seq<Byte>): U16
    requires |p| >= 20 && 20 <= HeaderLength(p) <= |p|
  {
    InternetChecksum(PutU16(p, 10, 0)[..HeaderLength(p)])
  }

  lemma ReaddressedHeaderVerifies(p: seq<Byte>, src: Addr, dst: Addr)
    requires WellFormed(p)
    ensures Verifies(Readdress(p, src, dst)[..HeaderLength(p)])
  {
    hide PutU16, PutAddr, AddrAt, U16At, InternetChecksum, Verifies, Fold;
    var n := HeaderLength(p);
    var cleared := PutU16(PutAddr(PutAddr(p, 12, src), 16, dst), 10, 0);
    var header := cleared[..n];
    var c := InternetChecksum(header);
    assert U16At(header, 10) == 0 by {
      assert U16At(cleared, 10) == 0;
      U16AtPrefix(cleared, n, 10);
    }
    assert [] + header == header;
    FilledFieldVerifies([], header, 10, c);
    assert [] + PutU16(header, 10, c) == PutU16(cleared, 10, c)[..n] by {
      PutU16Prefix(cleared, n, 10, c);
    }
  }

  lemma U16AtPrefix(p: seq<Byte>, n: nat, i: nat)
    requires i + 2 <= n <= |p|
    ensures U16At(p[..n], i) == U16At(p, i)
  {
  }

  lemma U16AtSlice(p: seq<Byte>, n: nat, i: nat)
    requires n + i + 2 <= |p|
    ensures U16At(p[n..], i) == U16At(p, n + i)
  {
  }

  lemma PutU16Prefix(p: seq<Byte>, n: nat, i: nat, w: U16)
    requires i + 2 <= n <= |p|
    ensures PutU16(p, i, w)[..n] == PutU16(p[..n], i, w)
  {
  }

  // ---------------------------------------------------------------- effect of a translation

  /** The transport checksum field a translation rewrites, if any. */
  function TouchedField(p: seq<Byte>, proto: Byte): Option<nat>
    requires |p| >= 20
  {
    if FragmentOffset(p) > 0 then None
    else if IsTransport(proto) then Some(HeaderLength(p) + ChecksumField(proto))
    else if proto == ICMP && !MoreFragments(p) then Some(HeaderLength(p) + 2)
    else None
  }

  /** Only the addresses, the header checksum and the transport checksum change. */
  lemma TranslationTouchesOnly(p: seq<Byte>, src: Addr, dst: Addr, proto: Byte)
    requires WellFormed(p)
    requires Translate(p, src, dst, proto).Translated?
    ensures var q := Translate(p, src, dst, proto).bytes;
            && |q| == |p| && HeaderLength(q) == HeaderLength(p) && WellFormed(q)
            && AddrAt(q, 12) == src && AddrAt(q, 16) == dst && q[9] == p[9]
            && FragmentOffset(q) == FragmentOffset(p) && MoreFragments(q) == MoreFragments(p)
            && Verifies(q[..HeaderLength(p)])
            && forall k :: 0 <= k < |p| && !(10 <= k < 20)
                 && (TouchedField(p, proto).Some? ==> !(0 <= k - TouchedField(p, proto).value <= 1))
                 ==> q[k] == p[k]
  {
    hide InternetChecksum, UpdatedChecksum, TransportChecksum, Verifies, PutU16, PutAddr;
    var q := Translate(p, src, dst, proto).bytes;
    ReaddressKeeps(p, src, dst);
    ReaddressedHeaderVerifies(p, src, dst);
    assert q[..HeaderLength(p)] == Readdress(p, src, dst)[..HeaderLength(p)];
  }

  /** An unfragmented TCP segment of 8 to 17 bytes. */
  predicate Overruns(p: seq<Byte>, proto: Byte)
    requires |p| > 0
  {
    && proto == TCP && FragmentOffset(p) == 0 && !MoreFragments(p)
    && HeaderLength(p) + 8 <= |p| < HeaderLength(p) + 18
  }

  /** The fewest transport bytes that pass the length check of the packet's branch. */
  function LeastTransport(p: seq<Byte>, proto: Byte): nat {
    if FragmentOffset(p) > 0 then 0
    else if proto == ICMP then if MoreFragments(p) then 0 else 4
    else if !IsTransport(proto) then 0
    else if MoreFragments(p) then ChecksumField(proto) + 2
    else 8
  }

  predicate TooShort(p: seq<Byte>, proto: Byte)
    requires |p| > 0
  {
    |p| < HeaderLength(p) + LeastTransport(p, proto)
  }

  /** `rewrite` runs off the buffer exactly on unfragmented TCP segments of 8 to 17 bytes. */
  lemma PanicsExactlyWhen(p: seq<Byte>, src: Addr, dst: Addr, proto: Byte)
    requires WellFormed(p)
    ensures Translate(p, src, dst, proto).Panicked? <==> Overruns(p, proto)
  {
  }

  /** And rejects exactly the transports too short for the checks it makes. */
  lemma RejectsExactlyWhen(p: seq<Byte>, src: Addr, dst: Addr, proto: Byte)
    requires WellFormed(p)
    ensures Translate(p, src, dst, proto).Rejected? <==> TooShort(p, proto)
  {
  }

  // ---------------------------------------------------------------- unfragmented packets verify

  lemma IcmpFieldVerifies(cleared: seq<Byte>, n: nat)
    requires n + 4 <= |cleared| && U16At(cleared, n + 2) == 0
    ensures Verifies(PutU16(cleared, n + 2, InternetChecksum(cleared[n..]))[n..])
  {
    hide InternetChecksum, Verifies, PutU16, WordSum, U16At;
    var body := cleared[n..];
    var c := InternetChecksum(body);
    U16AtSlice(cleared, n, 2);
    assert [] + body == body;
    FilledFieldVerifies([], body, 2, c);
    PutU16Slice(cleared, n, n + 2, c);
    assert [] + PutU16(body, 2, c) == PutU16(body, 2, c);
  }

  lemma PseudoHeaderPositive(src: Addr, dst: Addr, proto: Byte, length: nat, body: seq<Byte>)
    requires proto > 0
    ensures WordSum(PseudoHeader(src, dst, proto, length) + body) > 0
  {
    WordSumPositive(PseudoHeader(src, dst, proto, length) + body, 9);
  }

  /** `ph` is the pseudo header. */
  lemma TransportFieldVerifies(ph: seq<Byte>, cleared: seq<Byte>, n: nat, f: nat, proto: Byte)
    requires |ph| % 2 == 0 && f % 2 == 0 && n + f + 2 <= |cleared| && U16At(cleared, n + f) == 0
    ensures Verifies(ph + PutU16(cleared, n + f, UdpZero(proto, InternetChecksum(ph + cleared[n..])))[n..])
  {
    hide InternetChecksum, Verifies, PutU16, WordSum, U16At;
    var body := cleared[n..];
    var c := UdpZero(proto, InternetChecksum(ph + body));
    U16AtSlice(cleared, n, f);
    PutU16Slice(cleared, n, n + f, c);
    FilledFieldVerifies(ph, body, f, c);
  }

  /**
   After a successful translation of an unfragmented packet the IPv4 header, the ICMP message, and the TCP or
   UDP segment with its pseudo header all verify, for odd lengths too, and a UDP checksum is present.
   */
  lemma UnfragmentedVerifies(p: seq<Byte>, src: Addr, dst: Addr, proto: Byte)
    requires WellFormed(p) && FragmentOffset(p) == 0 && !MoreFragments(p)
    requires Translate(p, src, dst, proto).Translated?
    ensures var q := Translate(p, src, dst, proto).bytes;
            var n := HeaderLength(p);
            && Verifies(q[..n])
            && (proto == ICMP ==> Verifies(q[n..]))
            && (IsTransport(proto) ==> Verifies(PseudoHeader(src, dst, proto, |q| - n) + q[n..]))
            && (proto == UDP ==> U16At(q, n + 6) != 0)
    ensures var q := Translate(p, src, dst, proto).bytes;
            var n := HeaderLength(p);
            && SumsToZero(WordSum(q[..n])) && (proto == ICMP ==> SumsToZero(WordSum(q[n..])))
            && (IsTransport(proto) && |q| - n <= 0xffff ==>
                  SumsToZero(AddrSum(src) + AddrSum(dst) + proto + (|q| - n) + WordSum(q[n..])))
  {
    hide Verifies, PseudoHeader, WordSum, SumsToZero, Readdress, IcmpMessage, WholeSegment, FirstFragment,
         FragmentOffset, MoreFragments, HeaderLength;
    var n := HeaderLength(p);
    var q := Translate(p, src, dst, proto).bytes;
    var r := Readdress(p, src, dst);
    TranslationTouchesOnly(p, src, dst, proto);
    if proto == ICMP {
      MessageVerifies(r, n, q);
    } else if IsTransport(proto) {
      SegmentVerifies(r, n, src, dst, proto, q);
      if |q| - n <= 0xffff {
        SegmentSum(src, dst, proto, q[n..]);
      }
    }
    VerifiesSums(q[..n]);
    if proto == ICMP {
      VerifiesSums(q[n..]);
    }
  }

  /** A sum whose one's complement is zero, as the receiver computes it. */
  predicate SumsToZero(n: nat) {
    n > 0 && n % 0xffff == 0
  }

  lemma VerifiesSums(p: seq<Byte>)
    ensures Verifies(p) <==> SumsToZero(WordSum(p))
  {
    hide Verifies, WordSum;
    VerifiesIff(p);
  }

  /** The pseudo header contributes the addresses, the protocol and the length of the segment, each once. */
  lemma SegmentSum(src: Addr, dst: Addr, proto: Byte, segment: seq<Byte>)
    requires |segment| <= 0xffff
    ensures WordSum(PseudoHeader(src, dst, proto, |segment|) + segment) ==
              AddrSum(src) + AddrSum(dst) + proto + |segment| + WordSum(segment)
    ensures Verifies(PseudoHeader(src, dst, proto, |segment|) + segment) <==>
            SumsToZero(AddrSum(src) + AddrSum(dst) + proto + |segment| + WordSum(segment))
  {
    hide WordSum, Verifies, AddrBytes, AddrSum, SumsToZero;
    var addrs, rest := AddrBytes(src) + AddrBytes(dst), ProtocolBytes(proto, |segment|);
    WordSumAppend(addrs + rest, segment);
    WordSumAppend(addrs, rest);
    AddressSum(src, dst);
    ProtocolSum(proto, |segment|);
    VerifiesSums(PseudoHeader(src, dst, proto, |segment|) + segment);
  }

  lemma ProtocolSum(proto: Byte, length: nat)
    requires length <= 0xffff
    ensures WordSum(ProtocolBytes(proto, length)) == proto + length
  {
    hide WordSum;
    WordSumAddr(Addr(0, proto, length / 0x100, length % 0x100));
  }

  lemma MessageVerifies(r: seq<Byte>, n: nat, q: seq<Byte>)
    requires IcmpMessage(r, n) == Translated(q)
    ensures n <= |q| && Verifies(q[n..])
  {
    hide InternetChecksum, Verifies, PutU16, U16At;
    IcmpFieldVerifies(PutU16(r, n + 2, 0), n);
  }

  lemma SegmentVerifies(r: seq<Byte>, n: nat, src: Addr, dst: Addr, proto: Byte, q: seq<Byte>)
    requires WholeSegment(r, n, src, dst, proto) == Translated(q)
    ensures n + ChecksumField(proto) + 2 <= |q| == |r|
    ensures Verifies(PseudoHeader(src, dst, proto, |q| - n) + q[n..])
    ensures proto == UDP ==> U16At(q, n + 6) != 0
  {
    hide InternetChecksum, Verifies, PutU16, PseudoHeader, WordSum, U16At;
    var f := ChecksumField(proto);
    TransportFieldVerifies(PseudoHeader(src, dst, proto, |r| - n), PutU16(r, n + f, 0), n, f, proto);
  }

  // ---------------------------------------------------------------- translating back

  /** The transport checksum that a translation to the packet's own addresses would leave in its place. */
  function OwnTransportChecksum(p: seq<Byte>, proto: Byte): U16
    requires WellFormed(p)
    requires TouchedField(p, proto).Some? && TouchedField(p, proto).value + 2 <= |p|
  {
    var n, f := HeaderLength(p), TouchedField(p, proto).value;
    if IsTransport(proto) && MoreFragments(p) then
      (if U16At(p, f) == 0xffff then 0 else U16At(p, f))
    else if IsTransport(proto) then
      TransportChecksum(PutU16(p, f, 0), n, AddrAt(p, 12), AddrAt(p, 16), proto)
    else InternetChecksum(PutU16(p, f, 0)[n..])
  }

  predicate CanonicalChecksums(p: seq<Byte>, proto: Byte)
    requires WellFormed(p)
    requires TouchedField(p, proto).Some? ==> TouchedField(p, proto).value + 2 <= |p|
  {
    && U16At(p, 10) == HeaderChecksum(p)
    && (TouchedField(p, proto).Some? ==>
          U16At(p, TouchedField(p, proto).value) == OwnTransportChecksum(p, proto))
  }

  lemma ReaddressBack(p: seq<Byte>, q: seq<Byte>)
    requires WellFormed(p) && |q| == |p|
    requires forall k :: 0 <= k < HeaderLength(p) && !(10 <= k < 20) ==> q[k] == p[k]
    ensures var r := Readdress(q, AddrAt(p, 12), AddrAt(p, 16));
            && r[..HeaderLength(p)] == PutU16(p, 10, HeaderChecksum(p))[..HeaderLength(p)]
            && r[HeaderLength(p)..] == q[HeaderLength(p)..]
  {
    hide InternetChecksum, PutU16, PutAddr, U16At;
    var n := HeaderLength(p);
    var cleared := PutU16(PutAddr(PutAddr(q, 12, AddrAt(p, 12)), 16, AddrAt(p, 16)), 10, 0);
    SameWordSameBytes(cleared, PutU16(p, 10, 0), 10);
    assert forall k {:trigger cleared[k]} :: 10 <= k < 20 ==> cleared[k] == PutU16(p, 10, 0)[k] by {
      assert AddrAt(cleared, 12) == AddrAt(p, 12) && AddrAt(cleared, 16) == AddrAt(p, 16);
    }
    assert cleared[..n] == PutU16(p, 10, 0)[..n];
    var c := HeaderChecksum(p);
    SameWordSameBytes(PutU16(cleared, 10, c), PutU16(p, 10, c), 10);
    assert forall k {:trigger cleared[k]} :: 0 <= k < n && k != 10 && k != 11 ==> cleared[k] == p[k];
  }

  lemma SameWordSameBytes(p: seq<Byte>, q: seq<Byte>, i: nat)
    requires i + 2 <= |p| && i + 2 <= |q| && U16At(p, i) == U16At(q, i)
    ensures p[i] == q[i] && p[i + 1] == q[i + 1]
  {
    WordParts(p[i], p[i + 1]);
    WordParts(q[i], q[i + 1]);
  }

  /** The whole effect of translating there and back: every checksum becomes the canonical one. */
  lemma TranslateBack(p: seq<Byte>, src: Addr, dst: Addr, proto: Byte)
    requires WellFormed(p) && Translate(p, src, dst, proto).Translated?
    ensures var q := Translate(p, src, dst, proto).bytes;
            var back := Translate(q, AddrAt(p, 12), AddrAt(p, 16), proto);
            var f := TouchedField(p, proto);
            && (f.Some? ==> f.value + 2 <= |p|)
            && back.Translated?
            && back.bytes == if f.Some?
                             then PutU16(PutU16(p, 10, HeaderChecksum(p)), f.value, OwnTransportChecksum(p, proto))
                             else PutU16(p, 10, HeaderChecksum(p))
  {
    hide InternetChecksum, UpdatedChecksum, TransportChecksum, Verifies, PutU16, PutAddr, HeaderChecksum, Readdress;
    var n := HeaderLength(p);
    var q := Translate(p, src, dst, proto).bytes;
    TranslationTouchesOnly(p, src, dst, proto);
    ReaddressBack(p, q);
    ReaddressKeeps(p, src, dst);
    var r := Readdress(q, AddrAt(p, 12), AddrAt(p, 16));
    var h := PutU16(p, 10, HeaderChecksum(p));
    assert forall k {:trigger r[k]} :: 0 <= k < n ==> r[k] == h[k] by {
      assert forall k :: 0 <= k < n ==> r[..n][k] == h[..n][k];
    }
    assert forall k {:trigger r[k]} :: n <= k < |p| ==> r[k] == q[k] by {
      assert forall k :: 0 <= k < |p| - n ==> r[n..][k] == q[n..][k];
    }
    match TouchedField(p, proto)
    case None =>
      assert r == h;
    case Some(f) =>
      FieldBack(p, q, r, h, f, src, dst, proto);
  }

  lemma FieldBack(p: seq<Byte>, q: seq<Byte>, r: seq<Byte>, h: seq<Byte>, f: nat, src: Addr, dst: Addr, proto: Byte)
    requires WellFormed(p) && Translate(p, src, dst, proto).Translated? && TouchedField(p, proto) == Some(f)
    requires q == Translate(p, src, dst, proto).bytes && WellFormed(q)
    requires AddrAt(q, 12) == src && AddrAt(q, 16) == dst
    requires FragmentOffset(q) == FragmentOffset(p) && MoreFragments(q) == MoreFragments(p)
    requires r == Readdress(q, AddrAt(p, 12), AddrAt(p, 16)) && h == PutU16(p, 10, HeaderChecksum(p))
    requires |q| == |p| && HeaderLength(q) == HeaderLength(p)
    requires forall k {:trigger r[k]} :: 0 <= k < |p| ==> r[k] == if k < HeaderLength(p) then h[k] else q[k]
    requires forall k {:trigger q[k]} :: HeaderLength(p) <= k < |p| && k != f && k != f + 1 ==> q[k] == p[k]
    ensures f + 2 <= |p|
    ensures Translate(q, AddrAt(p, 12), AddrAt(p, 16), proto)
            == Translated(PutU16(h, f, OwnTransportChecksum(p, proto)))
  {
    hide InternetChecksum, UpdatedChecksum, Verifies, PutU16, PutAddr, HeaderChecksum, Readdress, PseudoHeader,
         FragmentOffset, MoreFragments, HeaderLength, AddrAt, AddrBytes, U16At, UdpZero;
    var own := OwnTransportChecksum(p, proto);
    SameExceptField(r, h, f, own);
    if IsTransport(proto) && MoreFragments(p) {
      UpdatedTwice(p, q, f, src, dst, proto);
    } else {
      SameTailExceptField(r, p, HeaderLength(p), f, 0);
      PutU16Twice(r, f, 0, own);
    }
  }

  /** The incremental update, applied forth and back. */
  lemma UpdatedTwice(p: seq<Byte>, q: seq<Byte>, f: nat, src: Addr, dst: Addr, proto: Byte)
    requires WellFormed(p) && Translate(p, src, dst, proto) == Translated(q) && TouchedField(p, proto) == Some(f)
    requires MoreFragments(p) && IsTransport(proto) && |q| == |p|
    requires AddrAt(q, 12) == src && AddrAt(q, 16) == dst
    ensures f + 2 <= |p|
    ensures UpdatedChecksum(U16At(q, f), q[12..20], AddrBytes(AddrAt(p, 12)) + AddrBytes(AddrAt(p, 16)))
            == OwnTransportChecksum(p, proto)
  {
    hide InternetChecksum, UpdatedChecksum, Translate, U16At;
    var old8, new8 := p[12..20], AddrBytes(src) + AddrBytes(dst);
    assert AddrBytes(AddrAt(p, 12)) + AddrBytes(AddrAt(p, 16)) == old8;
    assert q[12..20] == new8;
    UpdatedOnce(p, q, src, dst, proto);
    UpdateRoundTrip(U16At(p, f), old8, new8, 4);
  }

  lemma UpdatedOnce(p: seq<Byte>, q: seq<Byte>, src: Addr, dst: Addr, proto: Byte)
    requires WellFormed(p) && Translate(p, src, dst, proto) == Translated(q)
    requires FragmentOffset(p) == 0 && MoreFragments(p) && IsTransport(proto)
    ensures var f := HeaderLength(p) + ChecksumField(proto);
            && f + 2 <= |p| == |q|
            && U16At(q, f) == UpdatedChecksum(U16At(p, f), p[12..20], AddrBytes(src) + AddrBytes(dst))
  {
    hide InternetChecksum, UpdatedChecksum, PutU16, PutAddr, Readdress;
  }

  lemma SameTailExceptField(r: seq<Byte>, p: seq<Byte>, n: nat, f: nat, w: U16)
    requires n <= f && f + 2 <= |r| == |p|
    requires forall k {:trigger r[k]} :: n <= k < |p| && k != f && k != f + 1 ==> r[k] == p[k]
    ensures PutU16(r, f, w)[n..] == PutU16(p, f, w)[n..]
  {
    SameWordSameBytes(PutU16(r, f, w), PutU16(p, f, w), f);
  }

  lemma SameExceptField(r: seq<Byte>, h: seq<Byte>, f: nat, w: U16)
    requires f + 2 <= |r| == |h|
    ensures (forall k {:trigger r[k]} :: 0 <= k < |r| && k != f && k != f + 1 ==> r[k] == h[k]) ==>
              PutU16(r, f, w) == PutU16(h, f, w)
  {
    SameWordSameBytes(PutU16(r, f, w), PutU16(h, f, w), f);
  }

  /** Translating back to the original addresses restores the packet exactly when its checksums were canonical. */
  lemma RoundTripIffCanonical(p: seq<Byte>, src: Addr, dst: Addr, proto: Byte)
    requires WellFormed(p) && Translate(p, src, dst, proto).Translated?
    ensures var q := Translate(p, src, dst, proto).bytes;
            var f := TouchedField(p, proto);
            && (f.Some? ==> f.value + 2 <= |p|)
            && (Translate(q, AddrAt(p, 12), AddrAt(p, 16), proto) == Translated(p) <==> CanonicalChecksums(p, proto))
  {
    hide InternetChecksum, UpdatedChecksum, TransportChecksum, PutU16, PutAddr, HeaderChecksum, Readdress, Translate,
         OwnTransportChecksum;
    TranslateBack(p, src, dst, proto);
    var h := PutU16(p, 10, HeaderChecksum(p));
    PutU16Injective(p, 10, HeaderChecksum(p));
    match TouchedField(p, proto)
    case None =>
    case Some(f) =>
      var own := OwnTransportChecksum(p, proto);
      PutU16Injective(p, f, own);
      assert PutU16(h, f, own) == p ==> U16At(p, 10) == HeaderChecksum(p) && U16At(p, f) == own by {
        assert forall k :: k == 10 || k == 11 ==> PutU16(h, f, own)[k] == h[k];
        U16AtOfSame(PutU16(h, f, own), h, 10);
      }
  }

  lemma U16AtOfSame(p: seq<Byte>, q: seq<Byte>, i: nat)
    requires i + 2 <= |p| && i + 2 <= |q| && p[i] == q[i] && p[i + 1] == q[i + 1]
    ensures U16At(p, i) == U16At(q, i)
  {
  }
}
