/**
 The Internet checksum (section 1 of RFC 1071) and its incremental update
 (equation 3 in section 3 of RFC 1624), as loops over 32-bit accumulators.
 */
module Checksum {
  import opened Bytes

  /** The exact sum of the big-endian words; an odd last byte is padded with zero. */
  function WordSum(p: seq<Byte>): nat {
    if |p| == 0 then 0
    else if |p| == 1 then Word(p[0], 0)
    else U16At(p, 0) + WordSum(p[2..])
  }

  /** Closed form of folding the carries of n back into 16 bits until none is left. */
  function Fold(n: nat): U16 {
    if n == 0 then 0 else (n - 1) % 0xffff + 1
  }

  /** The checksum as a mathematical function of the bytes. */
  function InternetChecksum(p: seq<Byte>): U16 {
    0xffff - Fold(WordSum(p))
  }

  /** The receiver's test: the words, checksum field included, sum to zero. */
  predicate Verifies(p: seq<Byte>) {
    InternetChecksum(p) == 0
  }

  predicate MultipleOfOnes(n: int) {
    n % 0xffff == 0
  }

  ghost predicate Congruent(a: int, b: int) {
    (a - b) % 0xffff == 0
  }

  // ---------------------------------------------------------------- arithmetic

  lemma Euclid(n: int, q: int, r: int)
    requires n == 0xffff * q + r && 0 <= r < 0xffff
    ensures n % 0xffff == r
  {
  }

  /** The folded value, and how often 0xffff was taken out. */
  lemma FoldDecomposes(n: nat) returns (q: int)
    ensures n == 0xffff * q + Fold(n)
    ensures n > 0 ==> 1 <= Fold(n) <= 0xffff
    ensures n == 0 ==> Fold(n) == 0 && q == 0
  {
    if n == 0 {
      q := 0;
    } else {
      q := (n - 1) / 0xffff;
      assert n - 1 == 0xffff * q + (n - 1) % 0xffff;
    }
  }

  lemma CongruentBy(a: int, b: int, k: int)
    requires a - b == 0xffff * k
    ensures Congruent(a, b)
  {
    Euclid(a - b, k, 0);
  }

  lemma CongruentMultiple(a: int, b: int) returns (k: int)
    requires Congruent(a, b)
    ensures a - b == 0xffff * k
  {
    k := (a - b) / 0xffff;
    assert a - b == 0xffff * k + (a - b) % 0xffff;
  }

  lemma FoldProperties(n: nat)
    ensures Congruent(Fold(n), n)
    ensures Fold(n) == 0 <==> n == 0
    ensures n <= 0xffff ==> Fold(n) == n
  {
    hide Fold, Congruent;
    var q := FoldDecomposes(n);
    CongruentBy(Fold(n), n, -q);
  }

  /** Two positive sums fold to the same word exactly when they are congruent. */
  lemma FoldCanonical(m: nat, n: nat)
    requires m > 0 && n > 0
    ensures Fold(m) == Fold(n) <==> Congruent(m, n)
  {
    hide Fold, Congruent;
    var p := FoldDecomposes(m);
    var q := FoldDecomposes(n);
    if Fold(m) == Fold(n) {
      CongruentBy(m, n, p - q);
    }
    if Congruent(m, n) {
      var k := CongruentMultiple(m, n);
      assert Fold(m) - Fold(n) == 0xffff * (k - p + q);
    }
  }

  lemma FoldStep(s: nat)
    ensures Fold(s % 0x1_0000 + s / 0x1_0000) == Fold(s)
  {
    hide Fold, Congruent;
    var high, low := s / 0x1_0000, s % 0x1_0000;
    assert s == 0x1_0000 * high + low;
    if s != 0 {
      CongruentBy(s, low + high, high);
      FoldCanonical(s, low + high);
    }
  }

  lemma CongruentTransitive(a: int, b: int, c: int)
    requires Congruent(a, b) && Congruent(b, c)
    ensures Congruent(a, c)
  {
    hide Congruent;
    var j := CongruentMultiple(a, b);
    var k := CongruentMultiple(b, c);
    CongruentBy(a, c, j + k);
  }

  lemma CongruentSymmetric(a: int, b: int)
    requires Congruent(a, b)
    ensures Congruent(b, a)
  {
    hide Congruent;
    var k := CongruentMultiple(a, b);
    CongruentBy(b, a, -k);
  }

  lemma CongruentShift(a: int, b: int, shift: int, k: int)
    requires Congruent(a, b)
    ensures Congruent(shift + a + 0xffff * k, shift + b)
    ensures Congruent(shift - a + 0xffff * k, shift - b)
  {
    hide Congruent;
    var j := CongruentMultiple(a, b);
    CongruentBy(shift + a + 0xffff * k, shift + b, j + k);
    CongruentBy(shift - a + 0xffff * k, shift - b, k - j);
  }

  lemma VerifiesIff(p: seq<Byte>)
    ensures Verifies(p) <==> WordSum(p) > 0 && MultipleOfOnes(WordSum(p))
  {
    hide Fold, WordSum;
    var n := WordSum(p);
    var q := FoldDecomposes(n);
    if Fold(n) == 0xffff {
      Euclid(n, q + 1, 0);
    } else {
      Euclid(n, q, Fold(n));
    }
  }

  // ---------------------------------------------------------------- word sums

  lemma WordSumBound(p: seq<Byte>)
    ensures WordSum(p) <= 0xffff * ((|p| + 1) / 2)
  {
    if |p| > 1 {
      WordSumBound(p[2..]);
    }
  }

  lemma WordSumBoundEven(p: seq<Byte>)
    requires |p| % 2 == 0
    ensures WordSum(p) <= 0xffff * (|p| / 2)
  {
    hide WordSum;
    WordSumBound(p);
    assert (|p| + 1) / 2 == |p| / 2;
  }

  lemma {:induction false} WordSumAppend(a: seq<Byte>, b: seq<Byte>)
    requires |a| % 2 == 0
    ensures WordSum(a + b) == WordSum(a) + WordSum(b)
  {
    if |a| == 0 {
      assert a + b == b;
    } else {
      assert (a + b)[2..] == a[2..] + b;
      WordSumAppend(a[2..], b);
    }
  }

  /** Overwriting an aligned word shifts the sum by the difference of the words. */
  lemma {:induction false} WordSumPut(p: seq<Byte>, i: nat, w: U16)
    requires i % 2 == 0 && i + 2 <= |p|
    ensures WordSum(PutU16(p, i, w)) == WordSum(p) - U16At(p, i) + w
  {
    var r := PutU16(p, i, w);
    if i == 0 {
      assert r[2..] == p[2..];
    } else {
      assert r[2..] == PutU16(p[2..], i - 2, w);
      WordSumPut(p[2..], i - 2, w);
    }
  }

  function AddrSum(x: Addr): nat {
    (Word(x.a, x.b) as int) + Word(x.c, x.d)
  }

  lemma WordSumAddr(x: Addr)
    ensures WordSum(AddrBytes(x)) == AddrSum(x)
  {
    var tail := [x.c, x.d];
    assert tail[2..] == [];
    assert WordSum(tail) == Word(x.c, x.d) + WordSum(tail[2..]);
    assert AddrBytes(x)[2..] == tail;
  }

  lemma AddressSum(x: Addr, y: Addr)
    ensures WordSum(AddrBytes(x) + AddrBytes(y)) == AddrSum(x) + AddrSum(y)
  {
    WordSumAppend(AddrBytes(x), AddrBytes(y));
    WordSumAddr(x);
    WordSumAddr(y);
  }

  /** The sum of every second byte, beginning with the first or with the second. */
  function Alternate(p: seq<Byte>, take: bool): nat {
    if |p| == 0 then 0 else (if take then p[0] as int else 0) + Alternate(p[1..], !take)
  }

  /** Bytes at even positions weigh 256, the others 1; a last byte at an even position counts as a high byte. */
  lemma {:induction false} WordSumWeighs(p: seq<Byte>)
    ensures WordSum(p) == 0x100 * Alternate(p, true) + Alternate(p, false)
  {
    if |p| == 1 {
      assert Alternate(p[1..], false) == 0 && Alternate(p[1..], true) == 0;
    } else if |p| > 1 {
      WordSumWeighs(p[2..]);
      assert p[1..][1..] == p[2..];
    }
  }

  // ---------------------------------------------------------------- incremental update

  /** Equation 3 of RFC 1624 before folding: ~HC + sum(~m) + sum(m'). */
  function UpdateTotal(prior: U16, oldWords: seq<Byte>, newWords: seq<Byte>): nat
    requires |oldWords| % 2 == 0
  {
    WordSumBoundEven(oldWords);
    0xffff - prior + (0xffff * (|oldWords| / 2) - WordSum(oldWords)) + WordSum(newWords)
  }

  /** The updated checksum as a mathematical function; a trailing odd byte is ignored. */
  function UpdatedChecksum(prior: U16, oldWords: seq<Byte>, newWords: seq<Byte>): U16
    requires |oldWords| == |newWords|
  {
    var even := |oldWords| / 2 * 2;
    0xffff - Fold(UpdateTotal(prior, oldWords[..even], newWords[..even]))
  }

  lemma FoldAdd(m: nat, n: nat)
    ensures Fold(Fold(m) + n) == Fold(m + n)
  {
    FoldProperties(m);
    if m + n > 0 {
      FoldCanonical(Fold(m) + n, m + n);
    }
  }

  lemma WordSumPrefix(p: seq<Byte>, i: nat)
    requires i % 2 == 0 && i + 2 <= |p|
    ensures WordSum(p[..i + 2]) == WordSum(p[..i]) + U16At(p, i)
  {
    var tail := p[i..i + 2];
    assert tail[2..] == [];
    assert WordSum(tail) == U16At(p, i) + WordSum(tail[2..]);
    assert p[..i + 2] == p[..i] + tail;
    WordSumAppend(p[..i], tail);
  }

  lemma UpdateTotalStart(prior: U16, oldWords: seq<Byte>, newWords: seq<Byte>)
    ensures Fold(UpdateTotal(prior, oldWords[..0], newWords[..0])) == 0xffff - prior
  {
    FoldProperties(0xffff - prior);
  }

  lemma UpdateTotalStep(prior: U16, oldWords: seq<Byte>, newWords: seq<Byte>, i: nat)
    requires i % 2 == 0 && i + 2 <= |oldWords| == |newWords|
    ensures UpdateTotal(prior, oldWords[..i + 2], newWords[..i + 2]) ==
              UpdateTotal(prior, oldWords[..i], newWords[..i]) + (0xffff - U16At(oldWords, i)) + U16At(newWords, i)
  {
    hide WordSum;
    WordSumPrefix(oldWords, i);
    WordSumPrefix(newWords, i);
    assert (i + 2) / 2 == i / 2 + 1;
  }

  // ---------------------------------------------------------------- the loops

  /** The loop that adds the carries above 16 bits back in until there are none. */
  method FoldCarries(start: U32) returns (s: U16)
    ensures s == Fold(start)
  {
    var t: U32 := start;
    while t / 0x1_0000 != 0
      invariant Fold(t) == Fold(start)
      decreases t
    {
      FoldStep(t);
      t := t % 0x1_0000 + t / 0x1_0000;
    }
    s := t;
  }

  lemma NoOverflow(p: seq<Byte>)
    requires |p| <= 0x2_0000
    ensures WordSum(p) < U32_LIMIT
  {
    hide WordSum;
    WordSumBound(p);
    assert (|p| + 1) / 2 <= 0x1_0000;
  }

  lemma WordSumHead(p: seq<Byte>)
    ensures |p| > 1 ==> WordSum(p) == U16At(p, 0) + WordSum(p[2..])
    ensures |p| == 1 ==> WordSum(p) == Word(p[0], 0)
    ensures |p| == 0 ==> WordSum(p) == 0
  {
  }

  function Wrap(n: nat): U32 {
    n % U32_LIMIT
  }

  lemma WrapSmall(n: nat)
    requires n < U32_LIMIT
    ensures Wrap(n) == n
  {
  }

  /** The accumulator wraps at 32 bits; up to 128 KiB it never does. */
  method Sum(p: seq<Byte>) returns (c: U16)
    ensures |p| <= 0x2_0000 ==> c == InternetChecksum(p)
  {
    hide WordSum, Fold, Wrap, U16At, Word;
    var s: U32, q := 0, p;
    if |p| <= 0x2_0000 {
      NoOverflow(p);
    }
    while |q| > 1
      invariant |p| <= 0x2_0000 ==> s + WordSum(q) == WordSum(p)
      decreases |q|
    {
      WordSumHead(q);
      if |p| <= 0x2_0000 {
        WrapSmall(s + U16At(q, 0));
      }
      s := Wrap(s + U16At(q, 0));
      q := q[2..];
    }
    WordSumHead(q);
    if |q| == 1 {
      if |p| <= 0x2_0000 {
        WrapSmall(s + Word(q[0], 0));
      }
      s := Wrap(s + Word(q[0], 0));
    }
    var folded := FoldCarries(s);
    c := 0xffff - folded;
  }

  method AdjustChecksum(prior: U16, oldWords: seq<Byte>, newWords: seq<Byte>) returns (c: U16)
    requires |oldWords| == |newWords|
    ensures c == UpdatedChecksum(prior, oldWords, newWords)
  {
    hide Fold, UpdateTotal, WordSum;
    var s: U32, i := 0xffff - prior, 0;
    UpdateTotalStart(prior, oldWords, newWords);
    while i + 1 < |oldWords|
      invariant i % 2 == 0 && i <= |oldWords|
      invariant s <= 0xffff
      invariant s == Fold(UpdateTotal(prior, oldWords[..i], newWords[..i]))
    {
      var added := (0xffff - U16At(oldWords, i)) + U16At(newWords, i);
      UpdateTotalStep(prior, oldWords, newWords, i);
      FoldAdd(UpdateTotal(prior, oldWords[..i], newWords[..i]), added);
      // No overflow: the sum fits U32 by its type.
      s := s + added;
      s := FoldCarries(s);
      i := i + 2;
    }
    assert i == |oldWords| / 2 * 2;
    c := 0xffff - s;
  }

  // ---------------------------------------------------------------- what they are for

  /** Storing the checksum of the cleared field makes the whole verify; so does 0xffff in place of 0. */
  lemma FilledFieldVerifies(before: seq<Byte>, p: seq<Byte>, i: nat, w: U16)
    requires |before| % 2 == 0 && i % 2 == 0 && i + 2 <= |p|
    requires U16At(p, i) == 0
    requires var c := InternetChecksum(before + p); w == c || (c == 0 && w == 0xffff)
    ensures Verifies(before + PutU16(p, i, w))
  {
    hide Fold, WordSum, PutU16, Verifies, MultipleOfOnes;
    WordSumAppend(before, p);
    WordSumAppend(before, PutU16(p, i, w));
    WordSumPut(p, i, w);
    ComplementCancels(WordSum(before + p), w);
    VerifiesIff(before + PutU16(p, i, w));
  }

  /** A sum plus the complement of its fold is a positive multiple of 0xffff. */
  lemma ComplementCancels(s: nat, w: U16)
    requires w == 0xffff - Fold(s) || (Fold(s) == 0xffff && w == 0xffff)
    ensures s + w > 0 && MultipleOfOnes(s + w)
  {
    hide Fold;
    var q := FoldDecomposes(s);
    Euclid(s + w, if w == 0xffff - Fold(s) then q + 1 else q + 2, 0);
  }

  /** The total in terms of the number of words replaced. */
  lemma UpdateTotalValue(prior: U16, m: seq<Byte>, m2: seq<Byte>, half: nat)
    requires |m| == |m2| == 2 * half
    ensures UpdatedChecksum(prior, m, m2) == 0xffff - Fold(UpdateTotal(prior, m, m2))
    ensures UpdateTotal(prior, m, m2) == 0xffff - prior + 0xffff * half - WordSum(m) + WordSum(m2)
    ensures WordSum(m) <= 0xffff * half
  {
    hide Fold, WordSum;
    assert (|m| + 1) / 2 == |m| / 2 == half;
    assert m[..2 * half] == m;
    assert m2[..2 * half] == m2;
    WordSumBound(m);
  }

  /** Removing m and adding m2 in complement arithmetic is the sum with m2 in place of m. */
  lemma ReplaceCongruent(prior: U16, m: nat, m2: nat, rest: nat, half: nat, total: nat)
    requires Congruent(prior, 0xffff - Fold(m + rest))
    requires total == 0xffff - prior + 0xffff * half - m + m2
    ensures Congruent(total, m2 + rest)
  {
    hide Congruent, Fold;
    FoldProperties(m + rest);
    CongruentShift(Fold(m + rest), m + rest, 0xffff, 0);
    CongruentTransitive(prior, 0xffff - Fold(m + rest), 0xffff - (m + rest));
    CongruentShift(prior, 0xffff - (m + rest), 0xffff - m + m2, half);
  }

  lemma CongruentComplements(a: nat, b: nat)
    requires Congruent(a, b)
    ensures Congruent(0xffff - Fold(a), 0xffff - Fold(b))
  {
    hide Congruent, Fold;
    FoldProperties(a);
    FoldProperties(b);
    CongruentTransitive(Fold(a), a, b);
    CongruentSymmetric(Fold(b), b);
    CongruentTransitive(Fold(a), b, Fold(b));
    CongruentShift(Fold(a), Fold(b), 0xffff, 0);
  }

  /**
   Incremental equals full recomputation. `rest` is what the checksum covers besides the words `m`, with the
   checksum field clear; the words `m` become `m2`. The results agree exactly unless everything covered
   is zero afterwards, and are congruent in any case.
   */
  lemma IncrementalEqualsFull(m: seq<Byte>, m2: seq<Byte>, rest: seq<Byte>, prior: U16, half: nat)
    requires |m| == |m2| == 2 * half
    requires Congruent(prior, InternetChecksum(m + rest))
    ensures Congruent(UpdatedChecksum(prior, m, m2), InternetChecksum(m2 + rest))
    ensures prior == InternetChecksum(m + rest) && WordSum(m2 + rest) > 0 && half > 0 ==>
              UpdatedChecksum(prior, m, m2) == InternetChecksum(m2 + rest)
  {
    hide Congruent, Fold, WordSum, UpdatedChecksum, UpdateTotal;
    WordSumAppend(m, rest);
    WordSumAppend(m2, rest);
    UpdateTotalValue(prior, m, m2, half);
    var total := UpdateTotal(prior, m, m2);
    ReplaceCongruent(prior, WordSum(m), WordSum(m2), WordSum(rest), half, total);
    CongruentComplements(total, WordSum(m2 + rest));
    if prior == InternetChecksum(m + rest) && WordSum(m2 + rest) > 0 && half > 0 {
      TotalPositive(prior, WordSum(m), WordSum(m2), WordSum(rest), half, total);
      FoldCanonical(total, WordSum(m2 + rest));
    }
  }

  lemma TotalPositive(prior: U16, m: nat, m2: nat, rest: nat, half: nat, total: nat)
    requires prior == 0xffff - Fold(m + rest) && half > 0 && m <= 0xffff * half
    requires total == 0xffff - prior + 0xffff * half - m + m2
    ensures total > 0
  {
    hide Fold;
    FoldProperties(m + rest);
  }

  /** Updating forth and back restores every checksum except 0xffff, which comes back as 0. */
  lemma UpdateRoundTrip(prior: U16, m: seq<Byte>, m2: seq<Byte>, half: nat)
    requires |m| == |m2| == 2 * half && half > 0
    ensures UpdatedChecksum(UpdatedChecksum(prior, m, m2), m2, m) == if prior == 0xffff then 0 else prior
  {
    hide Congruent, Fold;
    UpdateTotalValue(prior, m, m2, half);
    var there := UpdateTotal(prior, m, m2);
    UpdateTotalValue(0xffff - Fold(there), m2, m, half);
    var back := UpdateTotal(0xffff - Fold(there), m2, m);
    FoldProperties(there);
    assert back > 0;
    RoundTripCongruent(prior, WordSum(m), WordSum(m2), half, there, back);
    FoldCanonical(back, if prior == 0xffff then 0xffff else 0xffff - prior);
    FoldProperties(0xffff);
    FoldProperties(0xffff - prior);
  }

  lemma RoundTripCongruent(prior: U16, m: nat, m2: nat, half: nat, there: nat, back: nat)
    requires there == 0xffff - prior + 0xffff * half - m + m2
    requires back == Fold(there) + 0xffff * half - m2 + m
    ensures Congruent(back, 0xffff - prior) && Congruent(back, if prior == 0xffff then 0xffff else 0xffff - prior)
  {
    hide Fold, Congruent;
    var q := FoldDecomposes(there);
    CongruentBy(back, 0xffff - prior, 2 * half - q);
    if prior == 0xffff {
      CongruentBy(back, 0xffff, 2 * half - q - 1);
    }
  }
}
