/**
 In-place address translation of one IPv4 packet (`ipv4`, `fragmentBits`, `rewrite` in the mux), against a
 specification on byte sequences.
 */
module Rewrite {
  import opened Bytes
  import opened Checksum
  import opened Wrappers

  const ICMP: Byte := 1
  const TCP: Byte := 6
  const UDP: Byte := 17

  /** What `ipv4` extracts from a packet. */
  datatype Header = Header(src: Addr, dst: Addr, proto: Byte)

  function HeaderLength(p: seq<Byte>): nat
    requires |p| > 0
  {
    p[0] % 16 * 4
  }

  predicate WellFormed(p: seq<Byte>) {
    |p| >= 20 && p[0] / 16 == 4 && 20 <= HeaderLength(p) <= |p|
  }

  /** `ipv4`: None is its error return. */
  function ParseIPv4(p: seq<Byte>): Option<Header> {
    if WellFormed(p) then Some(Header(AddrAt(p, 12), AddrAt(p, 16), p[9])) else None
  }

  /** On the bytes: version 4, at least five header words, and all of them there. */
  lemma WellFormedBytes(p: seq<Byte>)
    ensures WellFormed(p) <==> |p| >= 20 && 0x45 <= p[0] <= 0x4f && 4 * (p[0] - 0x40) <= |p|
    ensures WellFormed(p) ==> HeaderLength(p) == 4 * (p[0] - 0x40)
  {
  }

  /** The two results of `fragmentBits`. */
  function FragmentOffset(p: seq<Byte>): nat {
    if |p| < 8 then 0 else U16At(p, 6) % 0x2000
  }

  predicate MoreFragments(p: seq<Byte>) {
    |p| >= 8 && U16At(p, 6) / 0x2000 % 2 == 1
  }

  /** On the bytes: the low five bits of byte 6 are the high bits of the offset, and the next bit is the flag. */
  lemma FragmentBitsOnBytes(p: seq<Byte>)
    ensures |p| < 8 ==> FragmentOffset(p) == 0 && !MoreFragments(p)
    ensures |p| >= 8 ==> FragmentOffset(p) == 0x100 * ((p[6] as int) % 0x20) + p[7]
    ensures |p| >= 8 ==> (MoreFragments(p) <==> (p[6] as int) / 0x20 in {1, 3, 5, 7})
  {
    if |p| >= 8 {
      var hi, lo: int := p[6], p[7];
      assert (0x100 * hi + lo) / 0x2000 == hi / 0x20;
    }
  }

  predicate IsTransport(proto: Byte) {
    proto == TCP || proto == UDP
  }

  /** Position of the TCP or UDP checksum inside the segment. */
  function ChecksumField(proto: Byte): nat {
    if proto == UDP then 6 else 16
  }

  /** The pseudo header of sections 3.1 of RFC 9293 and RFC 768; the length is truncated to 16 bits. */
  function PseudoHeader(src: Addr, dst: Addr, proto: Byte, length: nat): (r: seq<Byte>)
    ensures |r| == 12
  {
    AddrBytes(src) + AddrBytes(dst) + ProtocolBytes(proto, length)
  }

  function ProtocolBytes(proto: Byte, length: nat): (r: seq<Byte>)
    ensures |r| == 4 && r[1] == proto
  {
    [0, proto, length % 0x1_0000 / 0x100, length % 0x1_0000 % 0x100]
  }

  /** The index panic is the one slice bound that `rewrite` does not check (a TCP segment of 8 to 17 bytes). */
  datatype Translation = Translated(bytes: seq<Byte>) | Rejected(bytes: seq<Byte>) | Panicked

  // ---------------------------------------------------------------- specification of rewrite

  /** New addresses and a fresh header checksum. */
  function Readdress(p: seq<Byte>, src: Addr, dst: Addr): (q: seq<Byte>)
    requires |p| >= 20 && HeaderLength(p) <= |p|
    ensures |q| == |p|
  {
    var cleared := PutU16(PutAddr(PutAddr(p, 12, src), 16, dst), 10, 0);
    PutU16(cleared, 10, InternetChecksum(cleared[..HeaderLength(p)]))
  }

  function UdpZero(proto: Byte, c: U16): U16 {
    if proto == UDP && c == 0 then 0xffff else c
  }

  /** The fully recomputed checksum of the segment q[n..], its checksum field cleared. */
  function TransportChecksum(q: seq<Byte>, n: nat, src: Addr, dst: Addr, proto: Byte): U16
    requires n <= |q|
  {
    UdpZero(proto, InternetChecksum(PseudoHeader(src, dst, proto, |q| - n) + q[n..]))
  }

  /** The branch for a first fragment of TCP or UDP; p is the packet before, q after readdressing. */
  function FirstFragment(p: seq<Byte>, q: seq<Byte>, off: nat, src: Addr, dst: Addr): Translation
    requires |q| == |p| >= 20
  {
    if |p| < off + 2 then Rejected(q)
    else Translated(PutU16(q, off, UpdatedChecksum(U16At(p, off), p[12..20], AddrBytes(src) + AddrBytes(dst))))
  }

  function IcmpMessage(q: seq<Byte>, n: nat): Translation {
    if |q| < n + 4 then Rejected(q)
    else
      var cleared := PutU16(q, n + 2, 0);
      Translated(PutU16(cleared, n + 2, InternetChecksum(cleared[n..])))
  }

  function WholeSegment(q: seq<Byte>, n: nat, src: Addr, dst: Addr, proto: Byte): Translation {
    var off := n + ChecksumField(proto);
    if |q| < n + 8 then Rejected(q)
    else if |q| < off + 2 then Panicked
    else
      var cleared := PutU16(q, off, 0);
      Translated(PutU16(cleared, off, TransportChecksum(cleared, n, src, dst, proto)))
  }

  function Translate(p: seq<Byte>, src: Addr, dst: Addr, proto: Byte): Translation
    requires |p| >= 20 && HeaderLength(p) >= 20
  {
    var n := HeaderLength(p);
    if |p| < n then Rejected(p)
    else
      var q := Readdress(p, src, dst);
      if FragmentOffset(p) > 0 then Translated(q)
      else if MoreFragments(p) && IsTransport(proto) then FirstFragment(p, q, n + ChecksumField(proto), src, dst)
      else if MoreFragments(p) && proto == ICMP then Translated(q)
      else if proto == ICMP then IcmpMessage(q, n)
      else if IsTransport(proto) then WholeSegment(q, n, src, dst, proto)
      else Translated(q)
  }

  /** Readdressing touches the header checksum and the addresses and nothing else. */
  lemma ReaddressKeeps(p: seq<Byte>, src: Addr, dst: Addr)
    requires |p| >= 20 && 20 <= HeaderLength(p) <= |p|
    ensures var q := Readdress(p, src, dst);
            && HeaderLength(q) == HeaderLength(p)
            && AddrAt(q, 12) == src && AddrAt(q, 16) == dst
            && FragmentOffset(q) == FragmentOffset(p)
            && MoreFragments(q) == MoreFragments(p)
            && (forall k :: 0 <= k < |p| && !(10 <= k < 20) ==> q[k] == p[k])
            && (forall i: nat :: 20 <= i && i + 2 <= |p| ==> U16At(q, i) == U16At(p, i))
  {
  }

  // ---------------------------------------------------------------- the in-place code

  method StoreU16(p: array<Byte>, i: nat, w: U16)
    requires i + 2 <= p.Length
    modifies p
    ensures p[..] == PutU16(old(p[..]), i, w)
  {
    p[i], p[i + 1] := w / 0x100, w % 0x100;
  }

  method StoreAddr(p: array<Byte>, i: nat, x: Addr)
    requires i + 4 <= p.Length
    modifies p
    ensures p[..] == PutAddr(old(p[..]), i, x)
  {
    p[i], p[i + 1], p[i + 2], p[i + 3] := x.a, x.b, x.c, x.d;
  }

  method ReplaceAddresses(p: array<Byte>, src: Addr, dst: Addr)
    requires p.Length >= 20 && 20 <= HeaderLength(p[..]) <= p.Length
    modifies p
    ensures p[..] == Readdress(old(p[..]), src, dst)
  {
    hide PutU16, PutAddr, InternetChecksum, U16At, AddrAt;
    ghost var start := p[..];
    var n := HeaderLength(p[..]);
    StoreAddr(p, 12, src);
    StoreAddr(p, 16, dst);
    StoreU16(p, 10, 0);
    ghost var cleared := p[..];
    assert cleared == PutU16(PutAddr(PutAddr(start, 12, src), 16, dst), 10, 0);
    assert p[..n] == cleared[..n];
    var c := Sum(p[..n]);
    StoreU16(p, 10, c);
  }

  datatype Outcome = Done | Failed | IndexPanic

  /** `rewrite`. Packets hold at most 65535 bytes, the size of the read buffers. */
  method RewritePacket(p: array<Byte>, src: Addr, dst: Addr, proto: Byte) returns (outcome: Outcome)
    requires 20 <= p.Length <= 0xffff && HeaderLength(p[..]) >= 20
    modifies p
    ensures match Translate(old(p[..]), src, dst, proto)
            case Translated(q) => outcome == Done && p[..] == q
            case Rejected(q) => outcome == Failed && p[..] == q
            case Panicked => outcome == IndexPanic
  {
    hide PutU16, PutAddr, InternetChecksum, UpdatedChecksum, PseudoHeader, U16At, AddrAt, Readdress;
    ghost var start := p[..];
    var n := HeaderLength(p[..]);
    if p.Length < n {
      return Failed;
    }
    var oldWords := p[12..20];
    ReplaceAddresses(p, src, dst);
    ghost var readdressed := p[..];
    ReaddressKeeps(start, src, dst);
    var offset, mf := FragmentOffset(p[..]), MoreFragments(p[..]);
    if offset > 0 {
      return Done;
    }
    if mf && IsTransport(proto) {
      var off := n + ChecksumField(proto);
      if p.Length < off + 2 {
        return Failed;
      }
      var prior := U16At(p[..], off);
      var c := AdjustChecksum(prior, oldWords, AddrBytes(src) + AddrBytes(dst));
      StoreU16(p, off, c);
      return Done;
    }
    if mf && proto == ICMP {
      return Done;
    }
    if proto == ICMP {
      if p.Length < n + 4 {
        return Failed;
      }
      StoreU16(p, n + 2, 0);
      assert p[n..] == p[..][n..];
      var c := Sum(p[n..]);
      StoreU16(p, n + 2, c);
      return Done;
    }
    if IsTransport(proto) {
      if p.Length < n + 8 {
        return Failed;
      }
      var off := n + ChecksumField(proto);
      if p.Length < off + 2 {
        return IndexPanic;
      }
      StoreU16(p, off, 0);
      assert p[n..] == p[..][n..];
      var ph := PseudoHeader(src, dst, proto, p.Length - n) + p[n..];
      var c := Sum(ph);
      StoreU16(p, off, UdpZero(proto, c));
    }
    return Done;
  }
}
