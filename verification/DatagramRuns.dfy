/** Fragmented datagrams over whole runs: what the host reassembles from what the mux wrote. */
module DatagramRuns {
  import opened Bytes
  import opened Checksum
  import opened Rewrite
  import opened MuxRuns
  import R = Reassembly

  function Packets(ds: seq<Delivery>): (r: seq<seq<Byte>>)
    ensures |r| == |ds| && forall i :: 0 <= i < |ds| ==> r[i] == ds[i].packet
  {
    seq(|ds|, i requires 0 <= i < |ds| => ds[i].packet)
  }

  function Written(ds: seq<Delivery>): (r: seq<seq<Byte>>)
    ensures |r| == |ds| && forall i :: 0 <= i < |ds| ==> r[i] == ds[i].bytes
  {
    seq(|ds|, i requires 0 <= i < |ds| => ds[i].bytes)
  }

  /** ds[n] is a kept first fragment and the others are the later fragments of its datagram. */
  ghost predicate OneDatagram(w: World, ds: seq<Delivery>, n: nat) {
    && n < |ds| && ds[n] in w.written && ds[n].kept && |ds[n].packet| >= 20
    && forall i :: 0 <= i < |ds| && i != n ==> Follows(w, ds[n], ds[i])
  }

  /**
   Over every run: when a profile sends a TCP or UDP datagram in fragments, of which the first is kept and written
   and the others are written after it, then whatever the host reassembles from what was written to it verifies,
   between the source of the first fragment and the NAT address, if and only if the profile's datagram did between
   its own addresses.
   */
  lemma {:induction false} WrittenDatagramVerifiesIff(w: World, ds: seq<Delivery>, n: nat, whole: seq<Byte>,
                                                      received: seq<Byte>, src: Addr, dst: Addr, proto: Byte)
    requires Reachable(w) && OneDatagram(w, ds, n) && proto == ds[n].packet[9]
    requires forall i :: 0 <= i < |ds| ==> R.TransportFragment(ds[i].packet, whole, src, dst, proto)
    requires R.Reassembles(Packets(ds), whole) && R.Reassembles(Written(ds), received)
    ensures WellFormed(ds[n].bytes)
    ensures Verifies(PseudoHeader(AddrAt(ds[n].bytes, 12), w.mux.natAddr, proto, |received|) + received)
            <==> Verifies(PseudoHeader(src, dst, proto, |whole|) + whole)
  {
    hide Reachable, R.TransportFragment, R.Reassembles, Verifies, PseudoHeader, Translate, RecordsSound, Follows;
    ProfilesStayIsolated(w);
    FirstTranslated(w, ds[n]);
    var src2 := AddrAt(ds[n].bytes, 12);
    forall i | 0 <= i < |ds|
      ensures R.TransportFragment(Packets(ds)[i], whole, src, dst, proto)
      ensures WellFormed(Packets(ds)[i])
              && Translate(Packets(ds)[i], src2, w.mux.natAddr, proto) == Translation.Translated(Written(ds)[i])
    {
      if i != n {
        LaterTranslated(w, ds[n], ds[i]);
      }
    }
    R.TranslatedFragmentsVerifyIff(Packets(ds), Written(ds), whole, received, src, dst, src2, w.mux.natAddr, proto);
  }

  lemma FirstTranslated(w: World, r: Delivery)
    requires RecordsSound(w.mux.natAddr, w.written, w.firsts, w.openings) && r in w.written
    ensures WellFormed(r.packet) && WellFormed(r.bytes)
    ensures Translate(r.packet, AddrAt(r.bytes, 12), w.mux.natAddr, r.packet[9]) == Translation.Translated(r.bytes)
  {
    hide Translate, SourceSound, FirstSound, FirstAllowed, OpeningSound, HeaderLength;
    assert Addressed(r, w.mux.natAddr, w.firsts, w.openings);
  }

  lemma LaterTranslated(w: World, first: Delivery, later: Delivery)
    requires RecordsSound(w.mux.natAddr, w.written, w.firsts, w.openings) && Follows(w, first, later)
    ensures WellFormed(first.bytes) && WellFormed(later.packet) && later.packet[9] == first.packet[9]
    ensures Translate(later.packet, AddrAt(first.bytes, 12), w.mux.natAddr, first.packet[9])
            == Translation.Translated(later.bytes)
  {
    hide Translate, RecordsSound, HeaderLength, FragmentOffset;
    TogetherIn(w, first, later);
    FirstTranslated(w, later);
  }
}
