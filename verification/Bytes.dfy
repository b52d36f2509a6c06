/**
 Bytes, machine words and IPv4 addresses as the packet code sees them.
 Shifts and masks by constants are written as divisions and remainders.
 */
module Bytes {

  const U32_LIMIT := 0x1_0000_0000

  type Byte = b: int | 0 <= b < 0x100
  type U16 = w: int | 0 <= w < 0x1_0000
  type U32 = w: int | 0 <= w < 0x1_0000_0000

  /** A valid IPv4 `netip.Addr`. */
  datatype Addr = Addr(a: Byte, b: Byte, c: Byte, d: Byte)

  function AddrBytes(x: Addr): (r: seq<Byte>)
    ensures |r| == 4
  {
    [x.a, x.b, x.c, x.d]
  }

  function Word(hi: Byte, lo: Byte): U16 {
    0x100 * (hi as int) + lo
  }

  lemma WordParts(hi: Byte, lo: Byte)
    ensures Word(hi, lo) / 0x100 == hi && Word(hi, lo) % 0x100 == lo
  {
  }

  function U16At(p: seq<Byte>, i: nat): U16
    requires i + 2 <= |p|
  {
    Word(p[i], p[i + 1])
  }

  function AddrAt(p: seq<Byte>, i: nat): Addr
    requires i + 4 <= |p|
  {
    Addr(p[i], p[i + 1], p[i + 2], p[i + 3])
  }

  function PutU16(p: seq<Byte>, i: nat, w: U16): (r: seq<Byte>)
    requires i + 2 <= |p|
    ensures |r| == |p| && U16At(r, i) == w
    ensures forall k :: 0 <= k < |p| && k != i && k != i + 1 ==> r[k] == p[k]
  {
    p[i := w / 0x100][i + 1 := w % 0x100]
  }

  function PutAddr(p: seq<Byte>, i: nat, x: Addr): (r: seq<Byte>)
    requires i + 4 <= |p|
    ensures |r| == |p| && AddrAt(r, i) == x
    ensures forall k :: 0 <= k < |p| && !(i <= k < i + 4) ==> r[k] == p[k]
  {
    p[i := x.a][i + 1 := x.b][i + 2 := x.c][i + 3 := x.d]
  }

  /** `IPv4NumFromBytes`: big-endian number of an address. */
  function AddrNum(x: Addr): U32 {
    0x1_0000 * (Word(x.a, x.b) as int) + Word(x.c, x.d)
  }

  /** `IPv4BytesFromNum`. */
  function NumAddr(n: U32): Addr {
    var hi, lo := n / 0x1_0000, n % 0x1_0000;
    Addr(hi / 0x100, hi % 0x100, lo / 0x100, lo % 0x100)
  }

  lemma AddrNumRoundTrip(x: Addr)
    ensures NumAddr(AddrNum(x)) == x
    ensures AddrNum(x) == 0x100_0000 * (x.a as int) + 0x1_0000 * (x.b as int) + 0x100 * (x.c as int) + x.d
  {
    var hi, lo := Word(x.a, x.b), Word(x.c, x.d);
    WordParts(x.a, x.b);
    WordParts(x.c, x.d);
    assert AddrNum(x) / 0x1_0000 == hi && AddrNum(x) % 0x1_0000 == lo;
  }

  lemma NumAddrRoundTrip(n: U32)
    ensures AddrNum(NumAddr(n)) == n
  {
    var hi: U16, lo: U16 := n / 0x1_0000, n % 0x1_0000;
    assert Word(hi / 0x100, hi % 0x100) == hi;
    assert Word(lo / 0x100, lo % 0x100) == lo;
  }
}
