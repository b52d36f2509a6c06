/**
 The textual keys: decimal, hexadecimal and dotted formatting, and why joining components with a separator
 that none of them contains loses nothing.
 */
module Text {
  import opened Bytes

  const DIGITS := "0123456789abcdef"

  function Digit(d: nat): (c: char)
    requires d < 16
    ensures c != '/' && c != '.'
  {
    DIGITS[d]
  }

  /** The decimal digits of a number. */
  function Decimal(n: nat): (s: string)
    ensures |s| > 0
  {
    if n < 10 then [Digit(n)] else Decimal(n / 10) + [Digit(n % 10)]
  }

  function HexByte(b: Byte): string {
    [Digit(b / 16), Digit(b % 16)]
  }

  /** Two lower-case hexadecimal digits per byte. */
  function Hex(p: seq<Byte>): (s: string)
    ensures |s| == 2 * |p|
  {
    if |p| == 0 then "" else HexByte(p[0]) + Hex(p[1..])
  }

  /** An IPv4 address in dotted form. */
  function Dotted(x: Addr): string {
    Decimal(x.a) + ['.'] + (Decimal(x.b) + ['.'] + (Decimal(x.c) + ['.'] + Decimal(x.d)))
  }

  predicate Free(sep: char, s: string) {
    sep !in s
  }

  /** Whether s starts with prefix. */
  predicate HasPrefix(s: string, prefix: string) {
    prefix <= s
  }

  // ---------------------------------------------------------------- formatting is injective

  lemma DigitInjective(c: nat, d: nat)
    requires c < 16 && d < 16 && Digit(c) == Digit(d)
    ensures c == d
  {
    assert forall i, j :: 0 <= i < j < 16 ==> DIGITS[i] != DIGITS[j];
  }

  lemma {:induction false} DecimalInjective(m: nat, n: nat)
    requires Decimal(m) == Decimal(n)
    ensures m == n
    decreases m
  {
    var s, t := Decimal(m), Decimal(n);
    assert s[|s| - 1] == Digit(m % 10) && t[|t| - 1] == Digit(n % 10);
    DigitInjective(m % 10, n % 10);
    if m < 10 || n < 10 {
    } else {
      assert Decimal(m / 10) == s[..|s| - 1] == Decimal(n / 10);
      DecimalInjective(m / 10, n / 10);
    }
  }

  /** The number that decimal digits stand for, read from the front. */
  function Number(s: string): int {
    if |s| == 0 then 0 else 10 * Number(s[..|s| - 1]) + (s[|s| - 1] as int - '0' as int)
  }

  /** The decimal text consists of digits, starts with a zero for zero only, and reads as the number. */
  lemma {:induction false} DecimalReads(n: nat)
    ensures Number(Decimal(n)) == n
    ensures forall c :: c in Decimal(n) ==> '0' <= c <= '9'
    ensures Decimal(n)[0] == '0' ==> n == 0
  {
    var s := Decimal(n);
    assert forall d :: 0 <= d < 10 ==> DIGITS[d] as int == '0' as int + d;
    assert s[..|s| - 1] == if n < 10 then "" else Decimal(n / 10);
    if n >= 10 {
      DecimalReads(n / 10);
    }
  }

  lemma {:induction false} DecimalFree(n: nat)
    ensures Free('/', Decimal(n)) && Free('.', Decimal(n))
  {
    if n >= 10 {
      DecimalFree(n / 10);
    }
  }

  lemma {:induction false} HexInjective(p: seq<Byte>, q: seq<Byte>)
    requires |p| == |q| && Hex(p) == Hex(q)
    ensures p == q
  {
    if |p| > 0 {
      var s, t := Hex(p), Hex(q);
      assert s[0] == t[0] && s[1] == t[1];
      DigitInjective(p[0] / 16, q[0] / 16);
      DigitInjective(p[0] % 16, q[0] % 16);
      assert Hex(p[1..]) == s[2..] == t[2..] == Hex(q[1..]);
      HexInjective(p[1..], q[1..]);
      assert p == [p[0]] + p[1..] && q == [q[0]] + q[1..];
    }
  }

  lemma {:induction false} HexFree(p: seq<Byte>)
    ensures Free('/', Hex(p))
  {
    if |p| > 0 {
      HexFree(p[1..]);
    }
  }

  // ---------------------------------------------------------------- separators

  /** The text before the first separator, and the text after it, are determined by the whole. */
  lemma SplitUnique(sep: char, a: string, x: string, b: string, y: string)
    requires Free(sep, a) && Free(sep, b)
    requires a + [sep] + x == b + [sep] + y
    ensures a == b && x == y
  {
    var s := a + [sep] + x;
    assert s[|a|] == s[|b|] == sep;
    assert forall i {:trigger s[i]} :: 0 <= i < |a| ==> s[i] == a[i];
    assert forall i {:trigger s[i]} :: 0 <= i < |b| ==> s[i] == b[i];
    assert |a| == |b|;
    assert a == s[..|a|] == b;
    assert x == s[|a| + 1..] == y;
  }

  /** Prefix matching with a trailing separator identifies the first component. */
  lemma PrefixIdentifies(sep: char, id: string, a: string, x: string)
    requires Free(sep, id) && Free(sep, a)
    ensures HasPrefix(a + [sep] + x, id + [sep]) <==> a == id
  {
    var s, prefix := a + [sep] + x, id + [sep];
    if HasPrefix(s, prefix) {
      assert s == prefix + s[|prefix|..];
      SplitUnique(sep, a, x, id, s[|prefix|..]);
    }
  }

  lemma DottedInjective(x: Addr, y: Addr)
    requires Dotted(x) == Dotted(y)
    ensures x == y
  {
    DecimalFree(x.a); DecimalFree(x.b); DecimalFree(x.c);
    DecimalFree(y.a); DecimalFree(y.b); DecimalFree(y.c);
    var x3, y3 := Decimal(x.d), Decimal(y.d);
    var x2, y2 := Decimal(x.c) + ['.'] + x3, Decimal(y.c) + ['.'] + y3;
    var x1, y1 := Decimal(x.b) + ['.'] + x2, Decimal(y.b) + ['.'] + y2;
    SplitUnique('.', Decimal(x.a), x1, Decimal(y.a), y1);
    SplitUnique('.', Decimal(x.b), x2, Decimal(y.b), y2);
    SplitUnique('.', Decimal(x.c), x3, Decimal(y.c), y3);
    DecimalInjective(x.a, y.a);
    DecimalInjective(x.b, y.b);
    DecimalInjective(x.c, y.c);
    DecimalInjective(x.d, y.d);
  }

  lemma DottedFree(x: Addr)
    ensures Free('/', Dotted(x))
  {
    DecimalFree(x.a);
    DecimalFree(x.b);
    DecimalFree(x.c);
    DecimalFree(x.d);
  }
}
