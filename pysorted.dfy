/**
 * Python's `sorted(xs, key=...)` on string keys: a stable sort under the
 * code-point order of `str`. Stated by the three properties Python promises:
 * the result is ordered by key, is a permutation of the input, and keeps
 * elements with equal keys in their input order.
 */
module PySorted {
  import opened PyStr

  /** Every element's key is at most the next one's. */
  predicate SortedBy<T>(s: seq<T>, key: T -> string)
  {
    forall i :: 0 < i < |s| ==> Le(key(s[i - 1]), key(s[i]))
  }

  /** The elements of `s` whose key is `k`, in order. */
  function WithKey<T>(s: seq<T>, key: T -> string, k: string): seq<T>
  {
    if s == [] then [] else (if key(s[0]) == k then [s[0]] else []) + WithKey(s[1..], key, k)
  }

  /** Inserts `x` before the first element whose key is not below `x`'s. */
  function Insert<T>(x: T, s: seq<T>, key: T -> string): (r: seq<T>)
    ensures |r| == |s| + 1
  {
    if s == [] then [x]
    else if Le(key(s[0]), key(x)) && key(s[0]) != key(x) then [s[0]] + Insert(x, s[1..], key)
    else [x] + s
  }

  /** `sorted(s, key=key)` */
  function SortBy<T>(s: seq<T>, key: T -> string): (r: seq<T>)
    ensures |r| == |s|
  {
    if s == [] then [] else Insert(s[0], SortBy(s[1..], key), key)
  }

  /** `sorted(s)` for strings. */
  function SortStrings(s: seq<string>): (r: seq<string>)
    ensures SortedBy(r, k => k)
    ensures multiset(r) == multiset(s)
    ensures forall k :: k in r <==> k in s
  {
    SortByProperties(s, k => k);
    var r := SortBy(s, k => k);
    assert forall k :: k in r <==> k in multiset(r);
    r
  }

  lemma {:induction false} InsertHead<T>(x: T, s: seq<T>, key: T -> string)
    ensures Insert(x, s, key)[0] == x || (s != [] && Insert(x, s, key)[0] == s[0])
  {
  }

  lemma {:induction false} InsertSorted<T>(x: T, s: seq<T>, key: T -> string)
    requires SortedBy(s, key)
    ensures SortedBy(Insert(x, s, key), key)
  {
    if s != [] && Le(key(s[0]), key(x)) && key(s[0]) != key(x) {
      var t := s[1..];
      assert SortedBy(t, key);
      InsertSorted(x, t, key);
      InsertHead(x, t, key);
      var r := [s[0]] + Insert(x, t, key);
      assert Le(key(r[0]), key(r[1])) by {
        if r[1] != x {
          assert r[1] == t[0] == s[1];
        }
      }
      assert r[1..] == Insert(x, t, key);
    } else if s != [] {
      LeTotal(key(s[0]), key(x));
      var r := [x] + s;
      assert Le(key(r[0]), key(r[1]));
      assert r[1..] == s;
    }
  }

  lemma {:induction false} InsertPermutes<T>(x: T, s: seq<T>, key: T -> string)
    ensures multiset(Insert(x, s, key)) == multiset(s) + multiset{x}
  {
    if s != [] && Le(key(s[0]), key(x)) && key(s[0]) != key(x) {
      InsertPermutes(x, s[1..], key);
      assert s == [s[0]] + s[1..];
    }
  }

  /** Insertion moves `x` only past elements of other keys, so each key's elements keep their order. */
  lemma {:induction false} InsertWithKey<T>(x: T, s: seq<T>, key: T -> string, k: string)
    ensures WithKey(Insert(x, s, key), key, k) == (if key(x) == k then [x] else []) + WithKey(s, key, k)
  {
    if s == [] {
      assert WithKey([x], key, k) == (if key(x) == k then [x] else []) + WithKey([], key, k);
    } else if Le(key(s[0]), key(x)) && key(s[0]) != key(x) {
      var t := s[1..];
      InsertWithKey(x, t, key, k);
      var r := [s[0]] + Insert(x, t, key);
      assert r[0] == s[0];
      assert r[1..] == Insert(x, t, key);
      assert WithKey(r, key, k) == (if key(s[0]) == k then [s[0]] else []) + WithKey(Insert(x, t, key), key, k);
    } else {
      assert ([x] + s)[0] == x;
      assert ([x] + s)[1..] == s;
    }
  }

  /** `sorted` orders by key, permutes its input, and is stable. */
  lemma {:induction false} SortByProperties<T>(s: seq<T>, key: T -> string)
    ensures SortedBy(SortBy(s, key), key)
    ensures multiset(SortBy(s, key)) == multiset(s)
    ensures forall k :: WithKey(SortBy(s, key), key, k) == WithKey(s, key, k)
  {
    if s != [] {
      SortByProperties(s[1..], key);
      InsertSorted(s[0], SortBy(s[1..], key), key);
      InsertPermutes(s[0], SortBy(s[1..], key), key);
      assert s == [s[0]] + s[1..];
      forall k ensures WithKey(SortBy(s, key), key, k) == WithKey(s, key, k) {
        InsertWithKey(s[0], SortBy(s[1..], key), key, k);
        assert WithKey(s, key, k) == (if key(s[0]) == k then [s[0]] else []) + WithKey(s[1..], key, k);
      }
    }
  }

  /** Sorting an ordered sequence leaves it as it is. */
  lemma {:induction false} SortBySorted<T>(s: seq<T>, key: T -> string)
    requires SortedBy(s, key)
    ensures SortBy(s, key) == s
  {
    if s != [] {
      assert SortedBy(s[1..], key);
      SortBySorted(s[1..], key);
      if |s| > 1 && Le(key(s[1]), key(s[0])) {
        LeAntisymmetric(key(s[0]), key(s[1]));
      }
    }
  }
}
