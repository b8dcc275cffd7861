/**
 * Python's ordering of strings (code point by code point) and the stable
 * sort that `list.sort(key=...)` and `sorted(..., key=...)` perform.  The sort
 * is an insertion sort: the result is sorted, a permutation of the input, and
 * stable (elements with equal keys keep their input order).
 */
module Order {

  /** `a < b` on Python strings. */
  predicate StrLt(a: string, b: string) {
    if a == [] then b != []
    else if b == [] then false
    else if a[0] != b[0] then a[0] < b[0]
    else StrLt(a[1..], b[1..])
  }

  /** `a <= b` on Python strings. */
  predicate StrLe(a: string, b: string) {
    a == b || StrLt(a, b)
  }

  lemma StrLtIrreflexive(a: string)
    ensures !StrLt(a, a)
  {
  }

  lemma StrLtTransitive(a: string, b: string, c: string)
    requires StrLt(a, b) && StrLt(b, c)
    ensures StrLt(a, c)
  {
    if a != [] && b != [] && c != [] && a[0] == b[0] == c[0] {
      StrLtTransitive(a[1..], b[1..], c[1..]);
    }
  }

  lemma StrLtTotal(a: string, b: string)
    ensures a == b || StrLt(a, b) || StrLt(b, a)
  {
    if a != [] && b != [] && a[0] == b[0] {
      StrLtTotal(a[1..], b[1..]);
      if a[1..] == b[1..] {
        assert a == [a[0]] + a[1..] && b == [b[0]] + b[1..];
      }
    }
  }

  lemma StrLtAsymmetric(a: string, b: string)
    requires StrLt(a, b)
    ensures !StrLt(b, a)
  {
    if a != [] && b != [] && a[0] == b[0] {
      StrLtAsymmetric(a[1..], b[1..]);
    }
  }

  /** A prefix never sorts after the strings it is a prefix of. */
  lemma StrLePrefix(a: string, b: string)
    ensures StrLe(a, a + b)
  {
    if a != [] {
      assert (a + b)[1..] == a[1..] + b;
      StrLePrefix(a[1..], b);
    } else {
      assert a + b == b;
    }
  }

  // ---------------------------------------------------------------------------
  // Total orders on keys
  // ---------------------------------------------------------------------------

  ghost predicate IsTotalOrder<K(!new)>(leq: (K, K) -> bool) {
    && (forall a, b :: leq(a, b) || leq(b, a))
    && (forall a, b :: leq(a, b) && leq(b, a) ==> a == b)
    && (forall a, b, c :: leq(a, b) && leq(b, c) ==> leq(a, c))
  }

  /** `<=` on Python strings, as a key order. */
  function StrOrder(): (string, string) -> bool {
    (a: string, b: string) => StrLe(a, b)
  }

  /** `<=` on Python integers, as a key order. */
  function IntOrder(): (int, int) -> bool {
    (a: int, b: int) => a <= b
  }

  /** `<=` on Python tuples `(int, str)`. */
  function IntStrOrder(): ((int, string), (int, string)) -> bool {
    (a: (int, string), b: (int, string)) => a.0 < b.0 || (a.0 == b.0 && StrLe(a.1, b.1))
  }

  /** `<=` on Python tuples `(str, str)`. */
  function StrStrOrder(): ((string, string), (string, string)) -> bool {
    (a: (string, string), b: (string, string)) => StrLt(a.0, b.0) || (a.0 == b.0 && StrLe(a.1, b.1))
  }

  lemma StrLeTotal(a: string, b: string)
    ensures StrLe(a, b) || StrLe(b, a)
  {
    StrLtTotal(a, b);
  }

  lemma StrLeAntisymmetric(a: string, b: string)
    requires StrLe(a, b) && StrLe(b, a)
    ensures a == b
  {
    if a != b { StrLtAsymmetric(a, b); }
  }

  lemma StrLeTransitive(a: string, b: string, c: string)
    requires StrLe(a, b) && StrLe(b, c)
    ensures StrLe(a, c)
  {
    if a != b && b != c { StrLtTransitive(a, b, c); }
  }

  lemma StrOrderTotal()
    ensures IsTotalOrder(StrOrder())
  {
    forall a, b ensures StrLe(a, b) || StrLe(b, a) { StrLeTotal(a, b); }
    forall a, b | StrLe(a, b) && StrLe(b, a) ensures a == b { StrLeAntisymmetric(a, b); }
    forall a, b, c | StrLe(a, b) && StrLe(b, c) ensures StrLe(a, c) { StrLeTransitive(a, b, c); }
  }

  lemma IntOrderTotal()
    ensures IsTotalOrder(IntOrder())
  {
  }

  lemma IntStrOrderTotal()
    ensures IsTotalOrder(IntStrOrder())
  {
    var leq := IntStrOrder();
    forall a: (int, string), b: (int, string) ensures leq(a, b) || leq(b, a) {
      StrLeTotal(a.1, b.1);
    }
    forall a: (int, string), b: (int, string) | leq(a, b) && leq(b, a) ensures a == b {
      StrLeAntisymmetric(a.1, b.1);
    }
    forall a: (int, string), b: (int, string), c: (int, string) | leq(a, b) && leq(b, c)
      ensures leq(a, c)
    {
      if a.0 == b.0 == c.0 { StrLeTransitive(a.1, b.1, c.1); }
    }
  }

  lemma StrStrOrderTotal()
    ensures IsTotalOrder(StrStrOrder())
  {
    var leq := StrStrOrder();
    forall a: (string, string), b: (string, string) ensures leq(a, b) || leq(b, a) {
      StrLtTotal(a.0, b.0);
      StrLeTotal(a.1, b.1);
    }
    forall a: (string, string), b: (string, string) | leq(a, b) && leq(b, a) ensures a == b {
      if a.0 != b.0 { StrLtAsymmetric(a.0, b.0); } else {
        StrLtIrreflexive(a.0);
        StrLeAntisymmetric(a.1, b.1);
      }
    }
    forall a: (string, string), b: (string, string), c: (string, string) | leq(a, b) && leq(b, c)
      ensures leq(a, c)
    {
      if StrLt(a.0, b.0) && StrLt(b.0, c.0) { StrLtTransitive(a.0, b.0, c.0); }
      if a.0 == b.0 == c.0 { StrLeTransitive(a.1, b.1, c.1); }
    }
  }

  // ---------------------------------------------------------------------------
  // Stable insertion sort by key
  // ---------------------------------------------------------------------------

  ghost predicate SortedBy<T, K>(s: seq<T>, key: T -> K, leq: (K, K) -> bool) {
    forall i, j :: 0 <= i < j < |s| ==> leq(key(s[i]), key(s[j]))
  }

  /** `x` goes in front of the first element whose key is not below its own. */
  function InsertBy<T, K>(x: T, s: seq<T>, key: T -> K, leq: (K, K) -> bool): (r: seq<T>)
    ensures multiset(r) == multiset(s) + multiset{x}
    ensures |r| == |s| + 1
  {
    if s == [] then [x]
    else if leq(key(x), key(s[0])) then [x] + s
    else
      assert s == [s[0]] + s[1..];
      [s[0]] + InsertBy(x, s[1..], key, leq)
  }

  /** `sorted(s, key=key)` */
  function SortBy<T, K>(s: seq<T>, key: T -> K, leq: (K, K) -> bool): (r: seq<T>)
    ensures multiset(r) == multiset(s)
    ensures |r| == |s|
  {
    if s == [] then []
    else
      assert s == [s[0]] + s[1..];
      InsertBy(s[0], SortBy(s[1..], key, leq), key, leq)
  }

  lemma {:induction false} InsertBySorted<T, K(!new)>(x: T, s: seq<T>, key: T -> K, leq: (K, K) -> bool)
    requires IsTotalOrder(leq)
    requires SortedBy(s, key, leq)
    ensures SortedBy(InsertBy(x, s, key, leq), key, leq)
  {
    if s != [] && !leq(key(x), key(s[0])) {
      var t := InsertBy(x, s[1..], key, leq);
      InsertBySorted(x, s[1..], key, leq);
      var r := [s[0]] + t;
      forall i, j | 0 <= i < j < |r| ensures leq(key(r[i]), key(r[j])) {
        if i == 0 {
          assert r[j] in multiset(t);
          assert r[j] in multiset(s[1..]) + multiset{x};
          if r[j] == x {
          } else {
            assert r[j] in s[1..];
            var k :| 0 <= k < |s[1..]| && s[1..][k] == r[j];
            assert s[k + 1] == r[j];
          }
        }
      }
    }
  }

  /** The sort's result is ordered by key. */
  lemma {:induction false} SortBySorted<T, K(!new)>(s: seq<T>, key: T -> K, leq: (K, K) -> bool)
    requires IsTotalOrder(leq)
    ensures SortedBy(SortBy(s, key, leq), key, leq)
  {
    if s != [] {
      SortBySorted(s[1..], key, leq);
      InsertBySorted(s[0], SortBy(s[1..], key, leq), key, leq);
    }
  }

  /** The elements of `s` whose key is `k`, in order. */
  function WithKey<T, K(==)>(s: seq<T>, key: T -> K, k: K): (r: seq<T>)
    ensures |r| <= |s|
  {
    if s == [] then []
    else (if key(s[0]) == k then [s[0]] else []) + WithKey(s[1..], key, k)
  }

  lemma {:induction false} InsertByWithKey<T, K(!new)>(x: T, s: seq<T>, key: T -> K, leq: (K, K) -> bool, k: K)
    requires IsTotalOrder(leq)
    ensures WithKey(InsertBy(x, s, key, leq), key, k)
         == (if key(x) == k then [x] else []) + WithKey(s, key, k)
  {
    if s == [] {
      assert WithKey([x], key, k) == (if key(x) == k then [x] else []) + WithKey([], key, k);
    } else if leq(key(x), key(s[0])) {
      assert ([x] + s)[1..] == s;
    } else {
      var r := [s[0]] + InsertBy(x, s[1..], key, leq);
      assert r[1..] == InsertBy(x, s[1..], key, leq);
      InsertByWithKey(x, s[1..], key, leq, k);
      assert key(s[0]) != key(x);
    }
  }

  /** Stability: for every key, the elements carrying it keep their input order. */
  lemma {:induction false} SortByStable<T, K(!new)>(s: seq<T>, key: T -> K, leq: (K, K) -> bool, k: K)
    requires IsTotalOrder(leq)
    ensures WithKey(SortBy(s, key, leq), key, k) == WithKey(s, key, k)
  {
    if s != [] {
      SortByStable(s[1..], key, leq, k);
      InsertByWithKey(s[0], SortBy(s[1..], key, leq), key, leq, k);
    }
  }

  /** Keys of distinct positions differ. */
  ghost predicate DistinctKeys<T, K>(s: seq<T>, key: T -> K) {
    forall i, j :: 0 <= i < j < |s| ==> key(s[i]) != key(s[j])
  }

  /**
   * Two key-sorted sequences with the same elements and distinct keys are
   * equal: a sort by a key that separates all elements has one answer,
   * whatever order its input came in.
   */
  lemma {:induction false} SortedUnique<T, K(!new)>(a: seq<T>, b: seq<T>, key: T -> K, leq: (K, K) -> bool)
    requires IsTotalOrder(leq)
    requires SortedBy(a, key, leq) && SortedBy(b, key, leq)
    requires multiset(a) == multiset(b)
    requires DistinctKeys(a, key)
    ensures a == b
  {
    assert |a| == |multiset(a)| == |multiset(b)| == |b|;
    if a != [] {
      SortedHeads(a, b, key, leq);
      SameTails(a, b);
      assert SortedBy(a[1..], key, leq) && SortedBy(b[1..], key, leq);
      assert DistinctKeys(a[1..], key);
      SortedUnique(a[1..], b[1..], key, leq);
    }
  }

  /** Such sequences start with the same element: the one of least key. */
  lemma SortedHeads<T, K(!new)>(a: seq<T>, b: seq<T>, key: T -> K, leq: (K, K) -> bool)
    requires IsTotalOrder(leq)
    requires SortedBy(a, key, leq) && SortedBy(b, key, leq)
    requires multiset(a) == multiset(b)
    requires DistinctKeys(a, key)
    requires a != []
    ensures b != [] && a[0] == b[0]
  {
    assert b[0] in multiset(a) by {
      assert |b| == |multiset(b)| == |multiset(a)| == |a|;
    }
    var i :| 0 <= i < |a| && a[i] == b[0];
    assert a[0] in multiset(b);
    var j :| 0 <= j < |b| && b[j] == a[0];
    assert leq(key(a[0]), key(a[i]));
    assert leq(key(b[0]), key(b[j]));
    assert key(a[0]) == key(b[0]);
  }

  lemma SameTails<T>(a: seq<T>, b: seq<T>)
    requires a != [] && b != [] && a[0] == b[0] && multiset(a) == multiset(b)
    ensures multiset(a[1..]) == multiset(b[1..])
  {
    assert a == [a[0]] + a[1..] && b == [b[0]] + b[1..];
    assert multiset(a[1..]) == multiset(a) - multiset{a[0]};
    assert multiset(b[1..]) == multiset(b) - multiset{b[0]};
  }
}
