/**
 * Sequence utilities the data layer is built from: duplicate removal in
 * order of first appearance (pandas `unique`), a comparison sort
 * parameterised by a strict order (Python `sorted`, pandas group-key
 * ordering), the code-point order on strings, and minimum/maximum.
 */
module Sequences {

  predicate Distinct<T(==)>(s: seq<T>) {
    forall i, j :: 0 <= i < j < |s| ==> s[i] != s[j]
  }

  /** The position of the first occurrence of `x` in `s`. */
  function IndexOf<T(==)>(s: seq<T>, x: T): (i: nat)
    requires x in s
    ensures i < |s| && s[i] == x
    ensures forall j :: 0 <= j < i ==> s[j] != x
  {
    if s[0] == x then 0 else 1 + IndexOf(s[1..], x)
  }

  lemma IndexOfExtend<T>(p: seq<T>, z: T)
    ensures forall y :: y in p ==> IndexOf(p + [z], y) == IndexOf(p, y)
    ensures z !in p ==> IndexOf(p + [z], z) == |p|
  {
    forall y | y in p
      ensures IndexOf(p + [z], y) == IndexOf(p, y)
    {
      var i := IndexOf(p, y);
      assert (p + [z])[i] == y;
      var k := IndexOf(p + [z], y);
      assert k <= i;
      assert (p + [z])[k] == p[k];
    }
  }

  /**
   * The distinct elements of `s`, each once, in the order in which they
   * first occur in `s`.
   */
  function Unique<T(==,!new)>(s: seq<T>): (u: seq<T>)
    ensures Distinct(u)
    ensures forall x :: x in u <==> x in s
    ensures forall i, j :: 0 <= i < j < |u| ==> IndexOf(s, u[i]) < IndexOf(s, u[j])
  {
    if |s| == 0 then []
    else
      var p := s[..|s| - 1];
      var z := s[|s| - 1];
      assert s == p + [z];
      IndexOfExtend(p, z);
      var u := Unique(p);
      if z in u then u else u + [z]
  }

  /** `lt` is irreflexive, transitive and relates any two distinct values. */
  ghost predicate StrictTotalOrder<T(!new)>(lt: (T, T) -> bool) {
    && (forall x :: !lt(x, x))
    && (forall x, y, z :: lt(x, y) && lt(y, z) ==> lt(x, z))
    && (forall x, y :: x != y ==> lt(x, y) || lt(y, x))
  }

  predicate StrictlySorted<T>(s: seq<T>, lt: (T, T) -> bool) {
    forall i, j :: 0 <= i < j < |s| ==> lt(s[i], s[j])
  }

  lemma StrictlySortedIsDistinct<T(!new)>(s: seq<T>, lt: (T, T) -> bool)
    requires StrictTotalOrder(lt)
    requires StrictlySorted(s, lt)
    ensures Distinct(s)
  {
  }

  function Insert<T(==)>(x: T, s: seq<T>, lt: (T, T) -> bool): (r: seq<T>)
    ensures multiset(r) == multiset(s) + multiset{x}
  {
    if |s| == 0 then [x]
    else if lt(x, s[0]) then [x] + s
    else
      assert s == [s[0]] + s[1..];
      [s[0]] + Insert(x, s[1..], lt)
  }

  /** Insertion sort by `lt`. */
  function Sort<T(==)>(s: seq<T>, lt: (T, T) -> bool): (r: seq<T>)
    ensures multiset(r) == multiset(s)
  {
    if |s| == 0 then []
    else
      assert s == [s[0]] + s[1..];
      Insert(s[0], Sort(s[1..], lt), lt)
  }

  lemma {:induction false} InsertSorted<T(!new)>(x: T, s: seq<T>, lt: (T, T) -> bool)
    requires StrictTotalOrder(lt)
    requires StrictlySorted(s, lt) && x !in s
    ensures StrictlySorted(Insert(x, s, lt), lt)
  {
    if |s| > 0 && !lt(x, s[0]) {
      assert x != s[0];
      assert lt(s[0], x);
      var rest := Insert(x, s[1..], lt);
      InsertSorted(x, s[1..], lt);
      assert forall i :: 0 <= i < |s[1..]| ==> s[1..][i] == s[i + 1];
      InsertBounded(x, s[1..], lt, s[0]);
      var r := [s[0]] + rest;
      assert Insert(x, s, lt) == r;
      forall i, j | 0 <= i < j < |r|
        ensures lt(r[i], r[j])
      {
        assert r[j] == rest[j - 1];
        if i > 0 {
          assert r[i] == rest[i - 1];
        } else {
          assert rest[j - 1] in rest;
        }
      }
    }
  }

  /** Inserting above a lower bound of `s` keeps every element above it. */
  lemma InsertBounded<T(!new)>(x: T, s: seq<T>, lt: (T, T) -> bool, lo: T)
    requires StrictTotalOrder(lt)
    requires forall i :: 0 <= i < |s| ==> lt(lo, s[i])
    requires lt(lo, x)
    ensures forall e :: e in Insert(x, s, lt) ==> lt(lo, e)
  {
    forall e | e in Insert(x, s, lt)
      ensures lt(lo, e)
    {
      assert e in multiset(Insert(x, s, lt));
      if e != x {
        assert e in multiset(s);
        var k :| 0 <= k < |s| && s[k] == e;
      }
    }
  }

  /** Sorting distinct values yields them in strictly ascending order. */
  lemma {:induction false} SortSorted<T(!new)>(s: seq<T>, lt: (T, T) -> bool)
    requires StrictTotalOrder(lt)
    requires Distinct(s)
    ensures StrictlySorted(Sort(s, lt), lt)
  {
    if |s| > 0 {
      var tail := s[1..];
      SortSorted(tail, lt);
      assert s[0] !in tail;
      assert s[0] !in multiset(Sort(tail, lt));
      InsertSorted(s[0], Sort(tail, lt), lt);
    }
  }

  /** Python's ordering of strings: lexicographic by code point, a proper prefix first. */
  predicate StringLt(a: string, b: string) {
    if |a| == 0 then |b| > 0
    else if |b| == 0 then false
    else if a[0] != b[0] then a[0] < b[0]
    else StringLt(a[1..], b[1..])
  }

  lemma {:induction false} StringLtIrreflexive(a: string)
    ensures !StringLt(a, a)
  {
    if |a| > 0 {
      StringLtIrreflexive(a[1..]);
    }
  }

  lemma {:induction false} StringLtTransitive(a: string, b: string, c: string)
    requires StringLt(a, b) && StringLt(b, c)
    ensures StringLt(a, c)
  {
    if |a| > 0 && a[0] == b[0] && b[0] == c[0] {
      StringLtTransitive(a[1..], b[1..], c[1..]);
    }
  }

  lemma {:induction false} StringLtConnected(a: string, b: string)
    requires a != b
    ensures StringLt(a, b) || StringLt(b, a)
  {
    if |a| > 0 && |b| > 0 && a[0] == b[0] {
      assert a == [a[0]] + a[1..] && b == [b[0]] + b[1..];
      StringLtConnected(a[1..], b[1..]);
    }
  }

  lemma StringLtIsStrictTotal()
    ensures StrictTotalOrder(StringLt)
  {
    forall a | true
      ensures !StringLt(a, a)
    {
      StringLtIrreflexive(a);
    }
    forall a, b, c | StringLt(a, b) && StringLt(b, c)
      ensures StringLt(a, c)
    {
      StringLtTransitive(a, b, c);
    }
    forall a, b | a != b
      ensures StringLt(a, b) || StringLt(b, a)
    {
      StringLtConnected(a, b);
    }
  }

  predicate IntLt(a: int, b: int) {
    a < b
  }

  lemma IntLtIsStrictTotal()
    ensures StrictTotalOrder(IntLt)
  {
  }

  /** Python's `min` over a non-empty sequence. */
  function Min(s: seq<int>): (m: int)
    requires |s| > 0
    ensures m in s
    ensures forall x :: x in s ==> m <= x
  {
    if |s| == 1 then s[0]
    else
      var m := Min(s[1..]);
      assert s == [s[0]] + s[1..];
      if s[0] <= m then s[0] else m
  }

  /** Python's `max` over a non-empty sequence. */
  function Max(s: seq<int>): (m: int)
    requires |s| > 0
    ensures m in s
    ensures forall x :: x in s ==> x <= m
  {
    if |s| == 1 then s[0]
    else
      var m := Max(s[1..]);
      assert s == [s[0]] + s[1..];
      if s[0] >= m then s[0] else m
  }
}
