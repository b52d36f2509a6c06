/**
 Datagrams translated one fragment at a time: what the receiver reassembles (section 3.2 of RFC 791) is the
 original payload with its transport checksum updated, and it verifies exactly when the original did.
 */
module Reassembly {
  import opened Bytes
  import opened Checksum
  import opened Rewrite
  import opened RewriteProofs

  function Payload(f: seq<Byte>): seq<Byte>
    requires WellFormed(f)
  {
    f[HeaderLength(f)..]
  }

  function Start(f: seq<Byte>): nat {
    8 * FragmentOffset(f)
  }

  /** f carries the bytes of `whole` at its offset, and is marked last exactly when it reaches the end. */
  ghost predicate FragmentOf(f: seq<Byte>, whole: seq<Byte>) {
    && WellFormed(f)
    && Start(f) + |Payload(f)| <= |whole|
    && whole[Start(f)..Start(f) + |Payload(f)|] == Payload(f)
    && (MoreFragments(f) <==> Start(f) + |Payload(f)| < |whole|)
  }

  ghost predicate Covers(f: seq<Byte>, i: nat) {
    WellFormed(f) && Start(f) <= i < Start(f) + |Payload(f)|
  }

  ghost predicate Covered(frags: seq<seq<Byte>>, i: nat) {
    exists j :: 0 <= j < |frags| && Covers(frags[j], i)
  }

  /** The fragments, in any order, reassemble to `whole`. */
  ghost predicate Reassembles(frags: seq<seq<Byte>>, whole: seq<Byte>) {
    && (forall j :: 0 <= j < |frags| ==> FragmentOf(frags[j], whole))
    && (exists j :: 0 <= j < |frags| && !MoreFragments(frags[j]))
    && (forall i: nat :: i < |whole| ==> Covered(frags, i))
  }

  lemma FragmentByte(f: seq<Byte>, whole: seq<Byte>, i: nat)
    requires FragmentOf(f, whole) && Covers(f, i)
    ensures i < |whole| && whole[i] == Payload(f)[i - Start(f)]
  {
    assert whole[Start(f)..Start(f) + |Payload(f)|][i - Start(f)] == whole[i];
  }

  /** There is at most one datagram the fragments reassemble to. */
  lemma ReassemblyUnique(frags: seq<seq<Byte>>, w1: seq<Byte>, w2: seq<Byte>)
    requires Reassembles(frags, w1) && Reassembles(frags, w2)
    ensures w1 == w2
  {
    hide WellFormed, Payload, Start, Covers, MoreFragments;
    var last :| 0 <= last < |frags| && !MoreFragments(frags[last]);
    assert FragmentOf(frags[last], w1) && FragmentOf(frags[last], w2);
    assert |w1| == |w2|;
    hide FragmentOf;
    forall i: nat | i < |w1| ensures w1[i] == w2[i] {
      assert Covered(frags, i);
      var j :| 0 <= j < |frags| && Covers(frags[j], i);
      FragmentByte(frags[j], w1, i);
      FragmentByte(frags[j], w2, i);
    }
  }

  /** One fragment of a TCP or UDP datagram from src to dst, with the checksum field in the first fragment only. */
  ghost predicate TransportFragment(f: seq<Byte>, whole: seq<Byte>, src: Addr, dst: Addr, proto: Byte) {
    && IsTransport(proto)
    && FragmentOf(f, whole)
    && AddrAt(f, 12) == src && AddrAt(f, 16) == dst
    && (FragmentOffset(f) == 0 ==> MoreFragments(f))
    && (FragmentOffset(f) > 0 ==> Start(f) >= ChecksumField(proto) + 2)
  }

  /** The datagram after its fragments are readdressed from (src, dst) to (src2, dst2). */
  function Updated(whole: seq<Byte>, src: Addr, dst: Addr, src2: Addr, dst2: Addr, proto: Byte): (r: seq<Byte>)
    requires ChecksumField(proto) + 2 <= |whole|
    ensures |r| == |whole|
  {
    PutU16(whole, ChecksumField(proto),
           UpdatedChecksum(U16At(whole, ChecksumField(proto)),
                           AddrBytes(src) + AddrBytes(dst), AddrBytes(src2) + AddrBytes(dst2)))
  }

  lemma TranslatedFragment(f: seq<Byte>, whole: seq<Byte>, src: Addr, dst: Addr, src2: Addr, dst2: Addr, proto: Byte)
    requires TransportFragment(f, whole, src, dst, proto)
    requires Translate(f, src2, dst2, proto).Translated?
    ensures ChecksumField(proto) + 2 <= |whole|
    ensures var g := Translate(f, src2, dst2, proto).bytes;
            && WellFormed(f) && WellFormed(g)
            && FragmentOf(g, Updated(whole, src, dst, src2, dst2, proto))
            && Start(g) == Start(f) && |Payload(g)| == |Payload(f)| && MoreFragments(g) == MoreFragments(f)
  {
    hide InternetChecksum, UpdatedChecksum, Verifies, PutU16, PutAddr, Readdress, Translate, U16At, AddrAt;
    var g := Translate(f, src2, dst2, proto).bytes;
    TranslationTouchesOnly(f, src2, dst2, proto);
    PayloadBytes(f, whole);
    if FragmentOffset(f) == 0 {
      FirstFragmentBytes(f, whole, src, dst, src2, dst2, proto);
    } else {
      LaterFragmentBytes(f, whole, src, dst, src2, dst2, proto);
    }
  }

  lemma PayloadBytes(f: seq<Byte>, whole: seq<Byte>)
    requires FragmentOf(f, whole)
    ensures forall k {:trigger whole[k]} :: Start(f) <= k < Start(f) + |Payload(f)| ==>
            whole[k] == f[HeaderLength(f) + k - Start(f)]
  {
    hide MoreFragments, FragmentOffset;
    var s, body := Start(f), Payload(f);
    forall k | s <= k < s + |body| ensures whole[k] == f[HeaderLength(f) + k - s] {
      assert whole[s..s + |body|][k - s] == body[k - s];
    }
  }

  /** The first fragment carries the updated checksum where the updated datagram has it. */
  lemma FirstFragmentBytes(f: seq<Byte>, whole: seq<Byte>, src: Addr, dst: Addr, src2: Addr, dst2: Addr, proto: Byte)
    requires TransportFragment(f, whole, src, dst, proto) && FragmentOffset(f) == 0
    requires Translate(f, src2, dst2, proto).Translated?
    ensures ChecksumField(proto) + 2 <= |whole|
    ensures var g := Translate(f, src2, dst2, proto).bytes;
            |g| == |f| && Updated(whole, src, dst, src2, dst2, proto)[..|Payload(f)|] == g[HeaderLength(f)..]
  {
    hide InternetChecksum, UpdatedChecksum, Verifies, PutU16, PutAddr, Readdress, U16At, AddrBytes;
    var g := Translate(f, src2, dst2, proto).bytes;
    var n, c := HeaderLength(f), ChecksumField(proto);
    assert f[12..20] == AddrBytes(src) + AddrBytes(dst) by {
      AddressBytes(f, src, dst);
    }
    TranslationTouchesOnly(f, src2, dst2, proto);
    UpdatedOnce(f, g, src2, dst2, proto);
    PayloadBytes(f, whole);
    U16AtOfShifted(f, n, whole, c);
    var whole2 := Updated(whole, src, dst, src2, dst2, proto);
    U16AtOfShiftedBytes(g, n, whole2, c);
    assert |Payload(f)| == |f| - n && Start(f) == 0;
    forall k | 0 <= k < |f| - n ensures whole2[k] == g[n + k] {
      assert whole[k] == f[n + k];
    }
    assert whole2[..|f| - n] == g[n..];
  }

  lemma AddressBytes(f: seq<Byte>, src: Addr, dst: Addr)
    requires |f| >= 20 && AddrAt(f, 12) == src && AddrAt(f, 16) == dst
    ensures f[12..20] == AddrBytes(src) + AddrBytes(dst)
  {
  }

  /** Later fragments are beyond the checksum field and keep their payload. */
  lemma LaterFragmentBytes(f: seq<Byte>, whole: seq<Byte>, src: Addr, dst: Addr, src2: Addr, dst2: Addr, proto: Byte)
    requires TransportFragment(f, whole, src, dst, proto) && FragmentOffset(f) > 0
    requires Translate(f, src2, dst2, proto).Translated?
    ensures ChecksumField(proto) + 2 <= |whole|
    ensures var g := Translate(f, src2, dst2, proto).bytes;
            var s := Start(f);
            |g| == |f| && Updated(whole, src, dst, src2, dst2, proto)[s..s + |Payload(f)|] == g[HeaderLength(f)..]
  {
    hide InternetChecksum, UpdatedChecksum, Verifies, PutU16, PutAddr, Readdress, U16At, AddrBytes, Translate;
    var g := Translate(f, src2, dst2, proto).bytes;
    TranslationTouchesOnly(f, src2, dst2, proto);
    PayloadBytes(f, whole);
    var n, s := HeaderLength(f), Start(f);
    var whole2 := Updated(whole, src, dst, src2, dst2, proto);
    forall k | s <= k < s + |Payload(f)| ensures whole2[k] == g[n + k - s] {
      assert whole[k] == f[n + k - s];
    }
    assert whole2[s..s + |Payload(f)|] == g[n..];
  }

  lemma U16AtOfShifted(f: seq<Byte>, n: nat, whole: seq<Byte>, c: nat)
    requires n + c + 2 <= |f| && c + 2 <= |whole|
    requires whole[c] == f[n + c] && whole[c + 1] == f[n + (c + 1)]
    ensures U16At(f, n + c) == U16At(whole, c)
  {
  }

  lemma U16AtOfShiftedBytes(f: seq<Byte>, n: nat, whole: seq<Byte>, c: nat)
    requires n + c + 2 <= |f| && c + 2 <= |whole|
    requires U16At(f, n + c) == U16At(whole, c)
    ensures whole[c] == f[n + c] && whole[c + 1] == f[n + c + 1]
  {
    WordParts(whole[c], whole[c + 1]);
    WordParts(f[n + c], f[n + c + 1]);
  }

  /** Translating every fragment, each on its own, yields fragments of the updated datagram. */
  lemma FragmentwiseTranslationReassembles(frags: seq<seq<Byte>>, out: seq<seq<Byte>>, whole: seq<Byte>,
                                           src: Addr, dst: Addr, src2: Addr, dst2: Addr, proto: Byte)
    requires Reassembles(frags, whole) && |out| == |frags|
    requires forall j :: 0 <= j < |frags| ==>
               && TransportFragment(frags[j], whole, src, dst, proto)
               && Translate(frags[j], src2, dst2, proto) == Translated(out[j])
    ensures ChecksumField(proto) + 2 <= |whole|
    ensures Reassembles(out, Updated(whole, src, dst, src2, dst2, proto))
  {
    hide Translate, Updated, FragmentOf, TransportFragment, MoreFragments, Start, Payload;
    forall j | 0 <= j < |frags|
      ensures WellFormed(out[j]) && WellFormed(frags[j])
      ensures ChecksumField(proto) + 2 <= |whole| && FragmentOf(out[j], Updated(whole, src, dst, src2, dst2, proto))
      ensures Start(out[j]) == Start(frags[j]) && |Payload(out[j])| == |Payload(frags[j])|
      ensures MoreFragments(out[j]) == MoreFragments(frags[j])
    {
      TranslatedFragment(frags[j], whole, src, dst, src2, dst2, proto);
    }
    var last :| 0 <= last < |frags| && !MoreFragments(frags[last]);
    assert !MoreFragments(out[last]);
    hide WellFormed;
    forall i: nat | i < |whole| ensures Covered(out, i) {
      assert Covered(frags, i);
      var j :| 0 <= j < |frags| && Covers(frags[j], i);
      assert Covers(out[j], i);
    }
  }

  // ---------------------------------------------------------------- validity of the whole

  function CheckSum(src: Addr, dst: Addr, proto: Byte, whole: seq<Byte>): nat {
    WordSum(PseudoHeader(src, dst, proto, |whole|) + whole)
  }

  lemma PseudoHeaderSum(src: Addr, dst: Addr, proto: Byte, whole: seq<Byte>)
    ensures CheckSum(src, dst, proto, whole) ==
              WordSum(AddrBytes(src) + AddrBytes(dst)) +
              WordSum(ProtocolBytes(proto, |whole|)) + WordSum(whole)
  {
    hide WordSum, ProtocolBytes, AddrBytes;
    var addrs := AddrBytes(src) + AddrBytes(dst);
    var rest := ProtocolBytes(proto, |whole|);
    WordSumAppend(addrs + rest, whole);
    WordSumAppend(addrs, rest);
  }

  /** The pseudo-header sum of the updated datagram is congruent to the original one. */
  lemma UpdatedSumCongruent(whole: seq<Byte>, src: Addr, dst: Addr, src2: Addr, dst2: Addr, proto: Byte)
    requires ChecksumField(proto) + 2 <= |whole|
    ensures Congruent(CheckSum(src2, dst2, proto, Updated(whole, src, dst, src2, dst2, proto)),
                      CheckSum(src, dst, proto, whole))
  {
    hide Fold, Congruent, WordSum, PutU16;
    var m, m2 := AddrBytes(src) + AddrBytes(dst), AddrBytes(src2) + AddrBytes(dst2);
    var c := ChecksumField(proto);
    var prior := U16At(whole, c);
    PseudoHeaderSum(src, dst, proto, whole);
    PseudoHeaderSum(src2, dst2, proto, Updated(whole, src, dst, src2, dst2, proto));
    WordSumPut(whole, c, UpdatedChecksum(prior, m, m2));
    UpdateTotalValue(prior, m, m2, 4);
    var total := UpdateTotal(prior, m, m2);
    FoldProperties(total);
    var base := CheckSum(src, dst, proto, whole) - WordSum(m) + WordSum(m2) - prior + 0xffff;
    // The new sum is base - Fold(total), and base - total is the old sum less a multiple of 0xffff.
    CongruentShift(Fold(total), total, base, 0);
    CongruentBy(base - total, CheckSum(src, dst, proto, whole), -4);
    CongruentTransitive(base - Fold(total), base - total, CheckSum(src, dst, proto, whole));
  }

  /** A reassembled TCP or UDP datagram passes the checksum test after translation iff it did before. */
  lemma ReassembledVerifiesIff(whole: seq<Byte>, src: Addr, dst: Addr, src2: Addr, dst2: Addr, proto: Byte)
    requires IsTransport(proto) && ChecksumField(proto) + 2 <= |whole|
    ensures var whole2 := Updated(whole, src, dst, src2, dst2, proto);
            Verifies(PseudoHeader(src2, dst2, proto, |whole2|) + whole2)
            <==> Verifies(PseudoHeader(src, dst, proto, |whole|) + whole)
  {
    var whole2 := Updated(whole, src, dst, src2, dst2, proto);
    hide Congruent, MultipleOfOnes, Fold, WordSum, Verifies, PseudoHeader;
    UpdatedSumCongruent(whole, src, dst, src2, dst2, proto);
    PseudoHeaderPositive(src, dst, proto, |whole|, whole);
    PseudoHeaderPositive(src2, dst2, proto, |whole|, whole2);
    VerifiesIff(PseudoHeader(src, dst, proto, |whole|) + whole);
    VerifiesIff(PseudoHeader(src2, dst2, proto, |whole|) + whole2);
    ZeroTransfers(CheckSum(src2, dst2, proto, whole2), CheckSum(src, dst, proto, whole));
  }

  /**
   Whatever the receiver reassembles from the separately translated fragments of a TCP or UDP datagram passes
   the checksum test under the new addresses if and only if the datagram passed it under the old ones.
   */
  lemma TranslatedFragmentsVerifyIff(frags: seq<seq<Byte>>, out: seq<seq<Byte>>, whole: seq<Byte>, received: seq<Byte>,
                                     src: Addr, dst: Addr, src2: Addr, dst2: Addr, proto: Byte)
    requires Reassembles(frags, whole) && |out| == |frags| && Reassembles(out, received)
    requires forall j :: 0 <= j < |frags| ==>
               && TransportFragment(frags[j], whole, src, dst, proto)
               && Translate(frags[j], src2, dst2, proto) == Translated(out[j])
    ensures Verifies(PseudoHeader(src2, dst2, proto, |received|) + received)
            <==> Verifies(PseudoHeader(src, dst, proto, |whole|) + whole)
  {
    hide Translate, Updated, FragmentOf, MoreFragments, Covered, Verifies, PseudoHeader, WellFormed;
    FragmentwiseTranslationReassembles(frags, out, whole, src, dst, src2, dst2, proto);
    ReassemblyUnique(out, received, Updated(whole, src, dst, src2, dst2, proto));
    SomeTransport(frags, whole, src, dst, proto);
    ReassembledVerifiesIff(whole, src, dst, src2, dst2, proto);
  }

  lemma SomeTransport(frags: seq<seq<Byte>>, whole: seq<Byte>, src: Addr, dst: Addr, proto: Byte)
    requires Reassembles(frags, whole)
    requires forall j :: 0 <= j < |frags| ==> TransportFragment(frags[j], whole, src, dst, proto)
    ensures IsTransport(proto)
  {
    hide FragmentOf, MoreFragments, Covered, WellFormed;
    var j :| 0 <= j < |frags| && !MoreFragments(frags[j]);
    assert TransportFragment(frags[j], whole, src, dst, proto);
  }

  lemma ZeroTransfers(a: nat, b: nat)
    requires Congruent(a, b)
    ensures MultipleOfOnes(a) <==> MultipleOfOnes(b)
  {
    hide Congruent;
    var k := CongruentMultiple(a, b);
    var p, q := a / 0xffff, b / 0xffff;
    assert a == 0xffff * p + a % 0xffff && b == 0xffff * q + b % 0xffff;
    Euclid(a, q + k, b % 0xffff);
  }

  // ---------------------------------------------------------------- fragments against whole packets

  lemma CongruentWords(u: U16, c: U16)
    requires Congruent(u, c)
    ensures u == c || (u == 0 && c == 0xffff) || (u == 0xffff && c == 0)
  {
    hide Congruent;
    var k := CongruentMultiple(u, c);
  }

  /** The incremental checksum of a canonical datagram is the recomputed one, up to UDP's 0 for 0xffff. */
  lemma IncrementalIsRecomputed(cleared: seq<Byte>, src: Addr, dst: Addr, src2: Addr, dst2: Addr, proto: Byte,
                                prior: U16)
    requires IsTransport(proto)
    requires prior == UdpZero(proto, InternetChecksum(PseudoHeader(src, dst, proto, |cleared|) + cleared))
    ensures UdpZero(proto, UpdatedChecksum(prior, AddrBytes(src) + AddrBytes(dst), AddrBytes(src2) + AddrBytes(dst2)))
            == UdpZero(proto, InternetChecksum(PseudoHeader(src2, dst2, proto, |cleared|) + cleared))
    ensures proto == TCP ==>
              UpdatedChecksum(prior, AddrBytes(src) + AddrBytes(dst), AddrBytes(src2) + AddrBytes(dst2))
              == InternetChecksum(PseudoHeader(src2, dst2, proto, |cleared|) + cleared)
  {
    var m, m2 := AddrBytes(src) + AddrBytes(dst), AddrBytes(src2) + AddrBytes(dst2);
    var rest := ProtocolBytes(proto, |cleared|) + cleared;
    assert m + rest == PseudoHeader(src, dst, proto, |cleared|) + cleared;
    assert m2 + rest == PseudoHeader(src2, dst2, proto, |cleared|) + cleared;
    PseudoHeaderPositive(src2, dst2, proto, |cleared|, cleared);
    hide WordSum, UpdatedChecksum, PseudoHeader, ProtocolBytes, AddrBytes;
    assert Congruent(prior, InternetChecksum(m + rest));
    IncrementalEqualsFull(m, m2, rest, prior, 4);
    CongruentWords(UpdatedChecksum(prior, m, m2), InternetChecksum(m2 + rest));
  }

  /**
   Translating a whole packet whose transport checksum is the one the code computes updates its payload in the
   same way, except that a UDP checksum of 0 becomes 0xffff.
   */
  lemma WholeTranslationUpdates(p: seq<Byte>, src2: Addr, dst2: Addr, proto: Byte)
    requires WellFormed(p) && IsTransport(proto) && FragmentOffset(p) == 0 && !MoreFragments(p)
    requires Translate(p, src2, dst2, proto).Translated?
    requires U16At(p, HeaderLength(p) + ChecksumField(proto)) == OwnTransportChecksum(p, proto)
    ensures var whole := Payload(p);
            var c := ChecksumField(proto);
            var q := Translate(p, src2, dst2, proto).bytes;
            && WellFormed(q) && c + 2 <= |whole|
            && var updated := Updated(whole, AddrAt(p, 12), AddrAt(p, 16), src2, dst2, proto);
            && Payload(q) == PutU16(updated, c, UdpZero(proto, U16At(updated, c)))
            && (proto == TCP ==> Payload(q) == updated)
  {
    hide InternetChecksum, UpdatedChecksum, Verifies, PutU16, PutAddr, PseudoHeader, Readdress, WordSum, Fold,
         AddrBytes, U16At, AddrAt;
    var n, c := HeaderLength(p), ChecksumField(proto);
    var whole := Payload(p);
    var src, dst := AddrAt(p, 12), AddrAt(p, 16);
    var r := Readdress(p, src2, dst2);
    ReaddressKeeps(p, src2, dst2);
    TranslationTouchesOnly(p, src2, dst2, proto);
    assert r[n..] == whole;
    PutU16Slice(p, n, n + c, 0);
    PutU16Slice(r, n, n + c, 0);
    var cleared := PutU16(whole, c, 0);
    U16AtSlice(p, n, c);
    IncrementalIsRecomputed(cleared, src, dst, src2, dst2, proto, U16At(whole, c));
    var full := TransportChecksum(PutU16(r, n + c, 0), n, src2, dst2, proto);
    PutU16Slice(PutU16(r, n + c, 0), n, n + c, full);
    PutU16Twice(whole, c, 0, full);
    var updated := Updated(whole, src, dst, src2, dst2, proto);
    PutU16Twice(whole, c, U16At(updated, c), full);
  }

  /**
   Translation commutes with fragmentation: sending a canonical packet whole through the translation gives the
   receiver exactly the datagram it reassembles when the packet is sent in fragments that are each translated,
   for TCP byte for byte and for UDP up to a checksum of 0, which the whole packet carries as 0xffff.
   */
  lemma TranslationCommutesWithReassembly(p: seq<Byte>, src2: Addr, dst2: Addr, proto: Byte,
                                          frags: seq<seq<Byte>>, out: seq<seq<Byte>>, received: seq<Byte>)
    requires WellFormed(p) && IsTransport(proto) && FragmentOffset(p) == 0 && !MoreFragments(p)
    requires Translate(p, src2, dst2, proto).Translated?
    requires U16At(p, HeaderLength(p) + ChecksumField(proto)) == OwnTransportChecksum(p, proto)
    requires Reassembles(frags, Payload(p)) && |out| == |frags| && Reassembles(out, received)
    requires forall j :: 0 <= j < |frags| ==>
               && TransportFragment(frags[j], Payload(p), AddrAt(p, 12), AddrAt(p, 16), proto)
               && Translate(frags[j], src2, dst2, proto) == Translated(out[j])
    ensures var q := Translate(p, src2, dst2, proto).bytes;
            var c := ChecksumField(proto);
            && WellFormed(q) && c + 2 <= |received|
            && Payload(q) == PutU16(received, c, UdpZero(proto, U16At(received, c)))
            && (proto == TCP ==> Payload(q) == received)
  {
    hide Translate, FragmentOf, MoreFragments, Covered, OwnTransportChecksum, Payload, HeaderLength, FragmentOffset,
         Updated, PutU16, U16At, AddrAt;
    var src, dst := AddrAt(p, 12), AddrAt(p, 16);
    WholeTranslationUpdates(p, src2, dst2, proto);
    FragmentwiseTranslationReassembles(frags, out, Payload(p), src, dst, src2, dst2, proto);
    ReassemblyUnique(out, received, Updated(Payload(p), src, dst, src2, dst2, proto));
  }

  // ---------------------------------------------------------------- UDP's absent checksum

  /** What a UDP receiver accepts: zero means no checksum was computed (RFC 768). */
  predicate UdpAccepts(src: Addr, dst: Addr, whole: seq<Byte>)
    requires |whole| >= 8
  {
    U16At(whole, 6) == 0 || Verifies(PseudoHeader(src, dst, UDP, |whole|) + whole)
  }

  /** Whether the two address pairs have the same 16-bit one's complement sum. */
  ghost predicate SameAddressSum(src: Addr, dst: Addr, src2: Addr, dst2: Addr) {
    Congruent(WordSum(AddrBytes(src2) + AddrBytes(dst2)), WordSum(AddrBytes(src) + AddrBytes(dst)))
  }

  lemma AbsentChecksumStaysAbsent(src: Addr, dst: Addr, src2: Addr, dst2: Addr)
    ensures UpdatedChecksum(0, AddrBytes(src) + AddrBytes(dst), AddrBytes(src2) + AddrBytes(dst2)) == 0
            <==> SameAddressSum(src, dst, src2, dst2)
  {
    hide WordSum, Fold;
    var m, m2 := AddrBytes(src) + AddrBytes(dst), AddrBytes(src2) + AddrBytes(dst2);
    UpdateTotalValue(0, m, m2, 4);
    var total := UpdateTotal(0, m, m2);
    FoldProperties(0xffff);
    FoldCanonical(total, 0xffff);
    assert total - 0xffff == WordSum(m2) - WordSum(m) + 0xffff * 4;
  }

  /**
   A fragmented UDP datagram that was acceptable stays acceptable exactly when it carried a checksum, or the
   addresses happen to have equal sums, or its bytes verify as they stand. The first-fragment branch of
   `rewrite` does not recognise an absent checksum and turns it into a wrong one otherwise.
   */
  lemma UdpAcceptedIff(whole: seq<Byte>, src: Addr, dst: Addr, src2: Addr, dst2: Addr)
    requires |whole| >= 8 && UdpAccepts(src, dst, whole)
    ensures UdpAccepts(src2, dst2, Updated(whole, src, dst, src2, dst2, UDP)) <==>
              || U16At(whole, 6) != 0
              || SameAddressSum(src, dst, src2, dst2)
              || Verifies(PseudoHeader(src, dst, UDP, |whole|) + whole)
  {
    hide Verifies, PseudoHeader, WordSum, PutU16, UpdatedChecksum, Congruent;
    ReassembledVerifiesIff(whole, src, dst, src2, dst2, UDP);
    AbsentChecksumStaysAbsent(src, dst, src2, dst2);
  }

  /** A 20-byte header with the given flags and offset word, before its addresses and checksum are filled in. */
  function BlankHeader(length: nat, flags: U16): (h: seq<Byte>)
    ensures |h| == 20 && h[0] == 0x45 && h[9] == UDP && U16At(h, 6) == flags
  {
    WordParts(flags / 0x100, flags % 0x100);
    [0x45, 0, length / 0x100 % 0x100, length % 0x100, 0, 1, flags / 0x100, flags % 0x100, 64, UDP] + ZEROS
  }

  const ZEROS: seq<Byte> := [0, 0, 0, 0, 0, 0, 0, 0, 0, 0]

  /** A UDP fragment with a correct IPv4 header. */
  function UdpFragment(src: Addr, dst: Addr, flags: U16, body: seq<Byte>): seq<Byte> {
    Readdress(BlankHeader(20 + |body|, flags) + body, src, dst)
  }

  lemma UdpFragmentShape(src: Addr, dst: Addr, flags: U16, body: seq<Byte>)
    ensures var f := UdpFragment(src, dst, flags, body);
            && WellFormed(f) && HeaderLength(f) == 20 && Payload(f) == body && f[9] == UDP
            && AddrAt(f, 12) == src && AddrAt(f, 16) == dst
            && FragmentOffset(f) == flags % 0x2000 && (MoreFragments(f) <==> flags / 0x2000 % 2 == 1)
  {
    hide PutU16, PutAddr, InternetChecksum, AddrAt, Readdress, BlankHeader;
    var raw := BlankHeader(20 + |body|, flags) + body;
    assert U16At(raw, 6) == flags;
    ReaddressKeeps(raw, src, dst);
    assert raw[20..] == body;
  }

  /** A datagram in two fragments: its first eight bytes, and the rest at offset 1. */
  function InTwo(src: Addr, dst: Addr, whole: seq<Byte>): seq<seq<Byte>>
    requires |whole| > 8
  {
    [UdpFragment(src, dst, 0x2000, whole[..8]), UdpFragment(src, dst, 1, whole[8..])]
  }

  /** What the translation makes of the two fragments. */
  function InTwoTranslated(src: Addr, dst: Addr, whole: seq<Byte>, src2: Addr, dst2: Addr): seq<Translation>
    requires |whole| > 8
  {
    UdpFragmentShape(src, dst, 0x2000, whole[..8]);
    UdpFragmentShape(src, dst, 1, whole[8..]);
    var frags := InTwo(src, dst, whole);
    [Translate(frags[0], src2, dst2, UDP), Translate(frags[1], src2, dst2, UDP)]
  }

  lemma InTwoReassembles(src: Addr, dst: Addr, whole: seq<Byte>)
    requires |whole| > 8
    ensures Reassembles(InTwo(src, dst, whole), whole)
    ensures forall j :: 0 <= j < 2 ==> TransportFragment(InTwo(src, dst, whole)[j], whole, src, dst, UDP)
  {
    hide UdpFragment, AddrAt, WellFormed, HeaderLength, FragmentOffset, MoreFragments, Payload;
    UdpFragmentShape(src, dst, 0x2000, whole[..8]);
    UdpFragmentShape(src, dst, 1, whole[8..]);
    var frags := InTwo(src, dst, whole);
    assert Start(frags[0]) == 0 && Start(frags[1]) == 8;
    assert whole[8..8 + |whole[8..]|] == whole[8..];
    assert !MoreFragments(frags[1]);
    forall i: nat | i < |whole| ensures Covered(frags, i) {
      assert Covers(frags[if i < 8 then 0 else 1], i);
    }
  }

  lemma InTwoTranslates(src: Addr, dst: Addr, whole: seq<Byte>, src2: Addr, dst2: Addr)
    requires |whole| > 8
    ensures forall j :: 0 <= j < 2 ==> InTwoTranslated(src, dst, whole, src2, dst2)[j].Translated?
  {
    hide UdpFragment, AddrAt, HeaderLength, FragmentOffset, MoreFragments, Payload, Readdress, UpdatedChecksum, PutU16;
    UdpFragmentShape(src, dst, 0x2000, whole[..8]);
    UdpFragmentShape(src, dst, 1, whole[8..]);
    PayloadLength(InTwo(src, dst, whole)[0]);
  }

  lemma PayloadLength(f: seq<Byte>)
    requires WellFormed(f)
    ensures |f| == HeaderLength(f) + |Payload(f)|
  {
  }

  /**
   The failing case is real, for any addresses with different sums: a datagram without a checksum, sent in two
   fragments that are both translated, arrives as a datagram that the receiver refuses.
   */
  lemma AbsentUdpChecksumBreaks(whole: seq<Byte>, src: Addr, dst: Addr, src2: Addr, dst2: Addr, received: seq<Byte>)
    requires |whole| > 8 && U16At(whole, 6) == 0 && !Verifies(PseudoHeader(src, dst, UDP, |whole|) + whole)
    requires !SameAddressSum(src, dst, src2, dst2)
    ensures UdpAccepts(src, dst, whole) && Reassembles(InTwo(src, dst, whole), whole)
    ensures var out := InTwoTranslated(src, dst, whole, src2, dst2);
            && (forall j :: 0 <= j < 2 ==> out[j].Translated?)
            && Reassembles([out[0].bytes, out[1].bytes], Updated(whole, src, dst, src2, dst2, UDP))
            && (Reassembles([out[0].bytes, out[1].bytes], received) ==>
                    |received| >= 8 && !UdpAccepts(src2, dst2, received))
  {
    hide Verifies, PseudoHeader, WordSum, PutU16, UpdatedChecksum, Congruent, Reassembles, TransportFragment, Updated,
         UdpFragment, Translate, SameAddressSum, UdpAccepts;
    InTwoTranslates(src, dst, whole, src2, dst2);
    var frags, out := InTwo(src, dst, whole), InTwoTranslated(src, dst, whole, src2, dst2);
    var bytes := [out[0].bytes, out[1].bytes];
    assert UdpAccepts(src, dst, whole) by {
      AbsentIsAccepted(src, dst, whole);
    }
    InTwoReassembles(src, dst, whole);
    FragmentwiseTranslationReassembles(frags, bytes, whole, src, dst, src2, dst2, UDP);
    UdpAcceptedIff(whole, src, dst, src2, dst2);
    if Reassembles(bytes, received) {
      ReassemblyUnique(bytes, received, Updated(whole, src, dst, src2, dst2, UDP));
    }
  }

  lemma AbsentIsAccepted(src: Addr, dst: Addr, whole: seq<Byte>)
    requires |whole| >= 8 && U16At(whole, 6) == 0
    ensures UdpAccepts(src, dst, whole)
  {
  }

  /** A ten-byte datagram between the given ports, with no checksum. */
  function Example(from: Byte, to: Byte): (r: seq<Byte>)
    ensures |r| == 10
  {
    AddrBytes(Addr(0, from, 0, to)) + AddrBytes(Addr(0, 10, 0, 0)) + [0, 1]
  }

  /** For instance a datagram of ten bytes between 10.0.0.1 and 10.0.0.2, translated to 100.1.1.1 and 100.2.2.2. */
  lemma AbsentUdpChecksumExample(from: Byte, to: Byte, src: Addr, dst: Addr, src2: Addr, dst2: Addr,
                                 received: seq<Byte>)
    requires src == Addr(10, 0, 0, 1) && dst == Addr(10, 0, 0, 2)
    requires src2 == Addr(100, 1, 1, 1) && dst2 == Addr(100, 2, 2, 2)
    ensures UdpAccepts(src, dst, Example(from, to))
    ensures Reassembles(InTwo(src, dst, Example(from, to)), Example(from, to))
    ensures var out := InTwoTranslated(src, dst, Example(from, to), src2, dst2);
            && out[0].Translated? && out[1].Translated?
            && (Reassembles([out[0].bytes, out[1].bytes], received) ==>
                  |received| >= 8 && !UdpAccepts(src2, dst2, received))
  {
    hide Verifies, WordSum, PseudoHeader, ProtocolBytes, AddrBytes, InTwoTranslated, InTwo, Reassembles, UdpAccepts,
         SameAddressSum, Updated, U16At, Example;
    ExampleSums(from, to, src, dst, src2, dst2);
    AbsentUdpChecksumBreaks(Example(from, to), src, dst, src2, dst2, received);
  }

  lemma ExampleSums(from: Byte, to: Byte, src: Addr, dst: Addr, src2: Addr, dst2: Addr)
    requires src == Addr(10, 0, 0, 1) && dst == Addr(10, 0, 0, 2)
    requires src2 == Addr(100, 1, 1, 1) && dst2 == Addr(100, 2, 2, 2)
    ensures U16At(Example(from, to), 6) == 0 && !SameAddressSum(src, dst, src2, dst2)
    ensures !Verifies(PseudoHeader(src, dst, UDP, 10) + Example(from, to))
  {
    hide Verifies, WordSum, PseudoHeader, ProtocolBytes, AddrBytes, Example;
    var whole := Example(from, to);
    AddressSum(src, dst);
    AddressSum(src2, dst2);
    PseudoHeaderSum(src, dst, UDP, whole);
    ExampleBytes(from, to);
    UdpLengthTen();
    assert CheckSum(src, dst, UDP, whole) == 0x1400 + 3 + 17 + 10 + from + to + 10 + 1;
    VerifiesIff(PseudoHeader(src, dst, UDP, 10) + whole);
  }

  lemma UdpLengthTen()
    ensures WordSum(ProtocolBytes(UDP, 10)) == 17 + 10
  {
    hide WordSum;
    WordSumAddr(Addr(0, UDP, 0, 10));
  }

  lemma ExampleBytes(from: Byte, to: Byte)
    ensures WordSum(Example(from, to)) == from + to + 10 + 1 && U16At(Example(from, to), 6) == 0
  {
    hide WordSum;
    var x, y := Addr(0, from, 0, to), Addr(0, 10, 0, 0);
    AddressSum(x, y);
    OneWord();
    WordSumAppend(AddrBytes(x) + AddrBytes(y), [0, 1]);
  }

  lemma OneWord()
    ensures WordSum([0, 1]) == 1
  {
  }
}
