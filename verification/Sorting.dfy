/** Orders and a stable sort, standing for the library's `sort` package. */
module Sorting {

  ghost predicate TotalPreorder<T(!new)>(le: (T, T) -> bool) {
    && (forall x, y :: le(x, y) || le(y, x))
    && (forall x, y, z :: le(x, y) && le(y, z) ==> le(x, z))
  }

  ghost predicate SortedBy<T>(s: seq<T>, le: (T, T) -> bool) {
    forall i, j :: 0 <= i < j < |s| ==> le(s[i], s[j])
  }

  lemma SameMembers<T(!new)>(a: seq<T>, b: seq<T>)
    requires multiset(a) == multiset(b)
    ensures forall t :: t in a <==> t in b
  {
    assert forall t :: t in a <==> t in multiset(a);
    assert forall t :: t in b <==> t in multiset(b);
  }

  function Insert<T>(x: T, s: seq<T>, le: (T, T) -> bool): (r: seq<T>)
    ensures multiset(r) == multiset([x]) + multiset(s)
  {
    if |s| == 0 then [x]
    else if le(x, s[0]) then [x] + s
    else
      assert s == [s[0]] + s[1..];
      [s[0]] + Insert(x, s[1..], le)
  }

  /** An element goes before the later elements it equals, so equal elements keep their order. */
  function StableSort<T>(s: seq<T>, le: (T, T) -> bool): (r: seq<T>)
    ensures multiset(r) == multiset(s) && |r| == |s|
  {
    if |s| == 0 then []
    else
      assert s == [s[0]] + s[1..];
      var r := Insert(s[0], StableSort(s[1..], le), le);
      assert |r| == |multiset(r)| == |multiset(s)| == |s|;
      r
  }

  lemma {:induction false} InsertSorted<T(!new)>(x: T, s: seq<T>, le: (T, T) -> bool)
    requires TotalPreorder(le) && SortedBy(s, le)
    ensures SortedBy(Insert(x, s, le), le)
  {
    if |s| > 0 && !le(x, s[0]) {
      var rest := Insert(x, s[1..], le);
      InsertSorted(x, s[1..], le);
      forall y | y in rest ensures le(s[0], y) {
        assert y in multiset(rest);
        assert y in multiset([x]) || y in multiset(s[1..]);
      }
    }
  }

  lemma {:induction false} StableSortSorted<T(!new)>(s: seq<T>, le: (T, T) -> bool)
    requires TotalPreorder(le)
    ensures SortedBy(StableSort(s, le), le)
  {
    if |s| > 0 {
      StableSortSorted(s[1..], le);
      InsertSorted(s[0], StableSort(s[1..], le), le);
    }
  }

  /** s[i] is least, and the first among the least. */
  ghost predicate FirstLeast<T>(s: seq<T>, le: (T, T) -> bool, i: int) {
    && 0 <= i < |s|
    && (forall j :: 0 <= j < |s| ==> le(s[i], s[j]))
    && (forall j :: 0 <= j < i ==> !le(s[j], s[i]))
  }

  lemma FirstLeastCons<T(!new)>(x: T, rest: seq<T>, le: (T, T) -> bool, i: int)
    requires TotalPreorder(le) && FirstLeast(rest, le, i)
    ensures FirstLeast([x] + rest, le, if le(x, rest[i]) then 0 else i + 1)
  {
    var s := [x] + rest;
    assert forall j :: 1 <= j < |s| ==> s[j] == rest[j - 1];
    if le(x, rest[i]) {
      forall j | 0 <= j < |s| ensures le(x, s[j]) {
        assert j > 0 ==> le(rest[i], rest[j - 1]);
      }
    } else {
      forall j | 0 <= j < i + 1 ensures !le(s[j], rest[i]) {
        assert j > 0 ==> !le(rest[j - 1], rest[i]);
      }
    }
  }

  /** Stability at the head: the first of the least elements comes out first. */
  lemma {:induction false} HeadIsFirstLeast<T(!new)>(s: seq<T>, le: (T, T) -> bool)
    requires TotalPreorder(le) && |s| > 0
    ensures exists i :: FirstLeast(s, le, i) && s[i] == StableSort(s, le)[0]
  {
    var rest := s[1..];
    if |rest| == 0 {
      assert le(s[0], s[0]);
      assert FirstLeast(s, le, 0);
    } else {
      HeadIsFirstLeast(rest, le);
      assert StableSort(s, le)[0] == if le(s[0], StableSort(rest, le)[0]) then s[0] else StableSort(rest, le)[0];
      hide StableSort, TotalPreorder, FirstLeast;
      var i: int :| FirstLeast(rest, le, i) && rest[i] == StableSort(rest, le)[0];
      FirstLeastCons(s[0], rest, le, i);
      assert s == [s[0]] + rest;
      assert le(s[0], rest[i]) || s[i + 1] == rest[i];
    }
  }

  /** Go's comparison of strings, byte by byte. */
  predicate StringLe(a: string, b: string) {
    |a| == 0 || (|b| > 0 && (a[0] < b[0] || (a[0] == b[0] && StringLe(a[1..], b[1..]))))
  }

  /** A prefix comes first, and otherwise the string with the smaller character where the two first differ. */
  lemma {:induction false} StringLeIff(a: string, b: string)
    ensures StringLe(a, b) <==> a <= b || exists k :: 0 <= k < |a| && k < |b| && a[..k] == b[..k] && a[k] < b[k]
  {
    if |a| > 0 && |b| > 0 {
      var a2, b2 := a[1..], b[1..];
      StringLeIff(a2, b2);
      forall k | 0 < k <= |a| && k <= |b| && a[..k] == b[..k] ensures a[0] == b[0] {
        assert a[0] == a[..k][0] == b[..k][0];
      }
      if a[0] == b[0] {
        assert a == [a[0]] + a2 && b == [b[0]] + b2;
        if k :| 0 <= k < |a2| && k < |b2| && a2[..k] == b2[..k] && a2[k] < b2[k] {
          assert a[..k + 1] == [a[0]] + a2[..k] == b[..k + 1];
          assert a[k + 1] < b[k + 1];
        }
        if k :| 0 <= k < |a| && k < |b| && a[..k] == b[..k] && a[k] < b[k] {
          assert k > 0 && a2[..k - 1] == a[..k][1..] == b[..k][1..] == b2[..k - 1];
          assert a2[k - 1] < b2[k - 1];
        }
      } else if a[0] < b[0] {
        assert a[..0] == b[..0];
      }
    }
  }

  lemma {:induction false} StringLeTotal(a: string, b: string)
    ensures StringLe(a, b) || StringLe(b, a)
  {
    if |a| > 0 && |b| > 0 && a[0] == b[0] {
      StringLeTotal(a[1..], b[1..]);
    }
  }

  lemma {:induction false} StringLeTransitive(a: string, b: string, c: string)
    requires StringLe(a, b) && StringLe(b, c)
    ensures StringLe(a, c)
  {
    if |a| > 0 && a[0] == b[0] == c[0] {
      StringLeTransitive(a[1..], b[1..], c[1..]);
    }
  }

  lemma {:induction false} StringLeAntisymmetric(a: string, b: string)
    requires StringLe(a, b) && StringLe(b, a)
    ensures a == b
  {
    if |a| > 0 {
      StringLeAntisymmetric(a[1..], b[1..]);
      assert a == [a[0]] + a[1..] && b == [b[0]] + b[1..];
    }
  }

  lemma StringLeIsTotalPreorder()
    ensures TotalPreorder(StringLe)
  {
    forall a, b ensures StringLe(a, b) || StringLe(b, a) {
      StringLeTotal(a, b);
    }
    forall a, b, c | StringLe(a, b) && StringLe(b, c) ensures StringLe(a, c) {
      StringLeTransitive(a, b, c);
    }
  }
}
