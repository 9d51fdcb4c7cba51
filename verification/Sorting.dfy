/** Go's `sort.Slice` and `sort.Strings`: a sorted permutation, and nothing about the order of
    elements the comparison does not separate. */
module Sorting {
  import opened Prelude
  import opened Text

  predicate SortedBy<T>(s: seq<T>, le: (T, T) -> bool) {
    forall i, j | 0 <= i < j < |s| :: le(s[i], s[j])
  }

  ghost predicate TotalPreorder<T(!new)>(le: (T, T) -> bool) {
    && (forall x, y :: le(x, y) || le(y, x))
    && (forall x, y, z :: le(x, y) && le(y, z) ==> le(x, z))
  }

  lemma InsertKeepsOrder<T>(a: seq<T>, x: T, b: seq<T>, le: (T, T) -> bool)
    requires SortedBy(a + b, le)
    requires forall y | y in a :: le(y, x)
    requires forall y | y in b :: le(x, y)
    ensures SortedBy(a + [x] + b, le)
  {
    var r := a + [x] + b;
    forall i, j | 0 <= i < j < |r| ensures le(r[i], r[j]) {
      if j == |a| {
        assert r[i] == a[i] && a[i] in a;
      } else if i == |a| {
        assert r[j] == b[j - 1 - |a|] && b[j - 1 - |a|] in b;
      } else {
        var i', j' := if i < |a| then i else i - 1, if j < |a| then j else j - 1;
        assert r[i] == (a + b)[i'] && r[j] == (a + b)[j'];
      }
    }
  }

  method Insert<T(!new)>(s: seq<T>, x: T, le: (T, T) -> bool) returns (r: seq<T>)
    requires TotalPreorder(le) && SortedBy(s, le)
    ensures SortedBy(r, le) && multiset(r) == multiset(s) + multiset{x}
  {
    var k := |s|;
    while k > 0 && !le(s[k - 1], x)
      invariant 0 <= k <= |s|
      invariant forall j | k <= j < |s| :: le(x, s[j])
    {
      k := k - 1;
    }
    assert s == s[..k] + s[k..];
    forall y | y in s[..k] ensures le(y, x) {
      var i :| 0 <= i < k && s[i] == y;
      if i < k - 1 { assert le(s[i], s[k - 1]); }
    }
    InsertKeepsOrder(s[..k], x, s[k..], le);
    r := s[..k] + [x] + s[k..];
    assert multiset(r) == multiset(s[..k]) + multiset{x} + multiset(s[k..]);
    assert multiset(s) == multiset(s[..k] + s[k..]);
  }

  method Sort<T(!new)>(s: seq<T>, le: (T, T) -> bool) returns (r: seq<T>)
    requires TotalPreorder(le)
    ensures SortedBy(r, le) && multiset(r) == multiset(s)
  {
    r := [];
    for i := 0 to |s|
      invariant SortedBy(r, le) && multiset(r) == multiset(s[..i])
    {
      assert s[..i + 1] == s[..i] + [s[i]];
      r := Insert(r, s[i], le);
    }
    assert s[..|s|] == s;
  }

  lemma StrLePreorder()
    ensures TotalPreorder(StrLe)
  {
    forall x: string, y: string ensures StrLe(x, y) || StrLe(y, x) {
      if StrLess(x, y) { StrLessAsymmetric(x, y); }
    }
    forall x: string, y: string, z: string | StrLe(x, y) && StrLe(y, z) ensures StrLe(x, z) {
      StrLeTransitive(x, y, z);
    }
  }

  lemma StrLeTransitive(x: string, y: string, z: string)
    requires StrLe(x, y) && StrLe(y, z)
    ensures StrLe(x, z)
  {
    if StrLess(z, x) {
      StrLessTotal(x, y);
      if x != y { StrLessTransitive(z, x, y); }
    }
  }

  /** No two different elements that the comparison cannot tell apart. */
  ghost predicate Separates<T>(a: seq<T>, le: (T, T) -> bool) {
    forall x, y | x in a && y in a && le(x, y) && le(y, x) :: x == y
  }

  lemma SortedHead<T>(a: seq<T>, b: seq<T>, le: (T, T) -> bool)
    requires SortedBy(a, le) && SortedBy(b, le) && a != [] && b != []
    requires a[0] in b && b[0] in a && Separates(a, le)
    ensures a[0] == b[0]
  {
    var i :| 0 <= i < |b| && b[i] == a[0];
    var j :| 0 <= j < |a| && a[j] == b[0];
    if i > 0 && j > 0 { assert le(a[0], a[j]) && le(b[0], b[i]); }
  }

  lemma SortedTail<T>(a: seq<T>, le: (T, T) -> bool)
    requires a != [] && SortedBy(a, le) && Separates(a, le)
    ensures SortedBy(a[1..], le) && Separates(a[1..], le)
  {
    forall i, j | 0 <= i < j < |a| - 1 ensures le(a[1..][i], a[1..][j]) {
      assert le(a[i + 1], a[j + 1]);
    }
  }

  lemma MultisetTail<T>(a: seq<T>)
    requires a != []
    ensures multiset(a[1..]) == multiset(a) - multiset{a[0]}
  {
    assert a == [a[0]] + a[1..];
  }

  /** When the comparison separates the elements, the sorted permutation is the only one. */
  lemma {:induction false} SortedUnique<T>(a: seq<T>, b: seq<T>, le: (T, T) -> bool)
    requires SortedBy(a, le) && Separates(a, le)
    requires SortedBy(b, le) && Separates(b, le)
    requires multiset(a) == multiset(b)
    ensures a == b
    decreases |a|
  {
    assert |a| == |multiset(a)| == |multiset(b)| == |b|;
    if a != [] {
      assert a[0] in multiset(b) && b[0] in multiset(a);
      SortedHead(a, b, le);
      SortedTail(a, le);
      SortedTail(b, le);
      MultisetTail(a);
      MultisetTail(b);
      SortedUnique(a[1..], b[1..], le);
      assert a == [a[0]] + a[1..] && b == [b[0]] + b[1..];
    }
  }

  lemma {:induction false} DistinctCounts<T>(s: seq<T>)
    requires NoDuplicates(s)
    ensures forall x | x in s :: multiset(s)[x] == 1
  {
    if s != [] {
      var t := s[1..];
      assert forall j | 0 <= j < |t| :: t[j] == s[j + 1];
      DistinctCounts(t);
      assert s == [s[0]] + t;
      assert multiset(s) == multiset{s[0]} + multiset(t);
      assert s[0] !in t;
    }
  }

  lemma {:induction false} CountsDistinct<T>(s: seq<T>)
    requires forall x | x in s :: multiset(s)[x] == 1
    ensures NoDuplicates(s)
  {
    if s != [] {
      var t := s[1..];
      assert s == [s[0]] + t;
      assert multiset(s) == multiset{s[0]} + multiset(t);
      assert forall x :: x in t <==> x in multiset(t);
      assert forall x | x in t :: x in s;
      CountsDistinct(t);
      assert s[0] !in multiset(t);
      forall i, j | 0 <= i < j < |s| ensures s[i] != s[j] {
        assert s[j] == t[j - 1] && t[j - 1] in t;
        if i > 0 { assert s[i] == t[i - 1]; }
      }
    }
  }

  /** A sorted permutation of elements with distinct keys is strictly sorted by key. */
  lemma StrictlySorted<T>(unsorted: seq<T>, s: seq<T>, key: T -> string)
    requires multiset(s) == multiset(unsorted)
    requires forall i, j | 0 <= i < j < |s| :: StrLe(key(s[i]), key(s[j]))
    requires forall i, j | 0 <= i < j < |unsorted| :: key(unsorted[i]) != key(unsorted[j])
    ensures forall i, j | 0 <= i < j < |s| :: StrLess(key(s[i]), key(s[j]))
    ensures forall x :: x in s <==> x in unsorted
  {
    assert NoDuplicates(unsorted);
    DistinctCounts(unsorted);
    assert forall x :: x in s <==> x in multiset(s);
    assert forall x :: x in unsorted <==> x in multiset(unsorted);
    CountsDistinct(s);
    forall i, j | 0 <= i < j < |s| ensures StrLess(key(s[i]), key(s[j])) {
      StrLessTotal(key(s[i]), key(s[j]));
      assert s[i] in unsorted && s[j] in unsorted;
      var a :| 0 <= a < |unsorted| && unsorted[a] == s[i];
      var b :| 0 <= b < |unsorted| && unsorted[b] == s[j];
      assert a != b;
    }
  }

  method SortByKey<T(!new)>(s: seq<T>, key: T -> string) returns (r: seq<T>)
    requires forall i, j | 0 <= i < j < |s| :: key(s[i]) != key(s[j])
    ensures forall i, j | 0 <= i < j < |r| :: StrLess(key(r[i]), key(r[j]))
    ensures forall x :: x in r <==> x in s
  {
    StrLePreorder();
    var le := (x: T, y: T) => StrLe(key(x), key(y));
    assert TotalPreorder(le) by {
      forall x: T, y: T ensures le(x, y) || le(y, x) { assert StrLe(key(x), key(y)) || StrLe(key(y), key(x)); }
      forall x: T, y: T, z: T | le(x, y) && le(y, z) ensures le(x, z) { StrLeTransitive(key(x), key(y), key(z)); }
    }
    r := Sort(s, le);
    assert forall i, j | 0 <= i < j < |r| :: le(r[i], r[j]);
    StrictlySorted(s, r, key);
  }
}
