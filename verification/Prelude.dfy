/** Definitions every other module shares: optional values and Go's 64-bit signed integers. */
module Prelude {

  datatype Option<+T> = None | Some(value: T)

  const TWO_63: int := 0x8000_0000_0000_0000
  const TWO_64: int := 0x1_0000_0000_0000_0000

  predicate InInt64(n: int) {
    -TWO_63 <= n < TWO_63
  }

  /** The value Go's `int64` arithmetic keeps of an exact integer result. */
  function Wrap64(n: int): (r: int)
    ensures InInt64(r) && (r - n) % TWO_64 == 0
    ensures InInt64(n) ==> r == n
  {
    (n + TWO_63) % TWO_64 - TWO_63
  }

  predicate NoDuplicates<T(==)>(s: seq<T>) {
    forall i, j | 0 <= i < j < |s| :: s[i] != s[j]
  }

  lemma SubsetSize<T>(a: set<T>, b: set<T>)
    requires a <= b
    ensures |a| <= |b|
  {
    assert b == a + (b - a);
  }

  lemma UnionSize<T>(a: set<T>, b: set<T>)
    ensures |a + b| <= |a| + |b|
    ensures a !! b ==> |a + b| == |a| + |b|
  {
    assert a + b == a + (b - a);
    SubsetSize(b - a, b);
    if a !! b { assert b - a == b; }
  }
}
