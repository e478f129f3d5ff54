/**
  Kotlin's `sortedByDescending { key }` (a stable sort) and SQL's
  `ORDER BY key DESC`, as one insertion sort by a descending integer key.
*/
module Sorting {

  predicate SortedDesc<T>(s: seq<T>, key: T -> int) {
    forall i, j :: 0 <= i < j < |s| ==> key(s[i]) >= key(s[j])
  }

  /** No two elements share the same `f`-value (an address, an id). */
  predicate DistinctBy<T, K(==)>(s: seq<T>, f: T -> K) {
    forall i, j :: 0 <= i < j < |s| ==> f(s[i]) != f(s[j])
  }

  function KeysOf<T, K>(s: seq<T>, f: T -> K): set<K> {
    set i | 0 <= i < |s| :: f(s[i])
  }

  /** A head no smaller than the first element keeps a sorted sequence sorted. */
  lemma ConsSorted<T>(h: T, t: seq<T>, key: T -> int)
    requires SortedDesc(t, key) && (|t| == 0 || key(h) >= key(t[0]))
    ensures SortedDesc([h] + t, key)
  {
    var r := [h] + t;
    forall i, j | 0 <= i < j < |r| ensures key(r[i]) >= key(r[j]) {
      assert r[j] == t[j - 1];
      if i > 0 { assert r[i] == t[i - 1]; }
    }
  }

  /** Puts `x` in front of the first element whose key is not larger, so that
      elements with equal keys keep their order. */
  function Insert<T>(x: T, s: seq<T>, key: T -> int): (r: seq<T>)
    requires SortedDesc(s, key)
    ensures |r| == |s| + 1
    ensures SortedDesc(r, key)
    ensures multiset(r) == multiset(s) + multiset{x}
    ensures r[0] == x || (|s| > 0 && r[0] == s[0])
  {
    if |s| == 0 || key(x) >= key(s[0]) then
      ConsSorted(x, s, key);
      [x] + s
    else
      var rest := Insert(x, s[1..], key);
      assert s == [s[0]] + s[1..];
      ConsSorted(s[0], rest, key);
      [s[0]] + rest
  }

  /** `s.sortedByDescending(key)`: ordered by non-increasing key, and a permutation of `s`. */
  function SortDesc<T>(s: seq<T>, key: T -> int): (r: seq<T>)
    ensures |r| == |s|
    ensures SortedDesc(r, key)
    ensures multiset(r) == multiset(s)
  {
    if |s| == 0 then []
    else
      assert s == [s[0]] + s[1..];
      Insert(s[0], SortDesc(s[1..], key), key)
  }

  lemma InsertKeys<T, K>(x: T, s: seq<T>, key: T -> int, f: T -> K)
    requires SortedDesc(s, key)
    ensures KeysOf(Insert(x, s, key), f) == KeysOf(s, f) + {f(x)}
  {
    var r := Insert(x, s, key);
    forall k | k in KeysOf(r, f) ensures k in KeysOf(s, f) + {f(x)} {
      var i :| 0 <= i < |r| && f(r[i]) == k;
      assert r[i] in multiset(r);
      if r[i] != x {
        assert r[i] in multiset(s);
        var j :| 0 <= j < |s| && s[j] == r[i];
        assert f(s[j]) == k;
      }
    }
    forall k | k in KeysOf(s, f) + {f(x)} ensures k in KeysOf(r, f) {
      var y := if k == f(x) then x else var j :| 0 <= j < |s| && f(s[j]) == k; s[j];
      assert f(y) == k;
      assert y in multiset(r);
      var i :| 0 <= i < |r| && r[i] == y;
    }
  }

  lemma {:induction false} InsertDistinct<T, K>(x: T, s: seq<T>, key: T -> int, f: T -> K)
    requires SortedDesc(s, key) && DistinctBy(s, f) && f(x) !in KeysOf(s, f)
    decreases |s|
    ensures DistinctBy(Insert(x, s, key), f)
  {
    if |s| == 0 || key(x) >= key(s[0]) {
      var r := [x] + s;
      forall i, j | 0 <= i < j < |r| ensures f(r[i]) != f(r[j]) {
        if i == 0 {
          assert r[j] == s[j - 1];
        } else {
          assert r[i] == s[i - 1] && r[j] == s[j - 1];
        }
      }
    } else {
      var t := s[1..];
      assert KeysOf(t, f) <= KeysOf(s, f) by {
        forall k | k in KeysOf(t, f) ensures k in KeysOf(s, f) {
          var i :| 0 <= i < |t| && f(t[i]) == k;
          assert s[i + 1] == t[i];
        }
      }
      assert DistinctBy(t, f) by {
        forall i, j | 0 <= i < j < |t| ensures f(t[i]) != f(t[j]) {
          assert t[i] == s[i + 1] && t[j] == s[j + 1];
        }
      }
      InsertDistinct(x, t, key, f);
      InsertKeys(x, t, key, f);
      var rest := Insert(x, t, key);
      var r := [s[0]] + rest;
      assert f(s[0]) !in KeysOf(t, f) by {
        forall i | 0 <= i < |t| ensures f(t[i]) != f(s[0]) {
          assert s[i + 1] == t[i];
        }
      }
      assert f(s[0]) != f(x) by {
        assert f(s[0]) in KeysOf(s, f) by { assert s[0] == s[0]; }
      }
      forall i, j | 0 <= i < j < |r| ensures f(r[i]) != f(r[j]) {
        if i == 0 {
          assert r[j] == rest[j - 1];
          assert f(rest[j - 1]) in KeysOf(rest, f);
        } else {
          assert r[i] == rest[i - 1] && r[j] == rest[j - 1];
        }
      }
    }
  }

  /** Sorting keeps distinct keys distinct and the set of keys unchanged. */
  lemma {:induction false} SortDistinct<T, K>(s: seq<T>, key: T -> int, f: T -> K)
    requires DistinctBy(s, f)
    decreases |s|
    ensures DistinctBy(SortDesc(s, key), f)
    ensures KeysOf(SortDesc(s, key), f) == KeysOf(s, f)
  {
    if |s| > 0 {
      var t := s[1..];
      assert DistinctBy(t, f) by {
        forall i, j | 0 <= i < j < |t| ensures f(t[i]) != f(t[j]) {
          assert t[i] == s[i + 1] && t[j] == s[j + 1];
        }
      }
      SortDistinct(t, key, f);
      assert f(s[0]) !in KeysOf(t, f) by {
        forall i | 0 <= i < |t| ensures f(t[i]) != f(s[0]) {
          assert s[i + 1] == t[i];
        }
      }
      InsertDistinct(s[0], SortDesc(t, key), key, f);
      InsertKeys(s[0], SortDesc(t, key), key, f);
      assert KeysOf(s, f) == KeysOf(t, f) + {f(s[0])} by {
        forall k | k in KeysOf(s, f) ensures k in KeysOf(t, f) + {f(s[0])} {
          var i :| 0 <= i < |s| && f(s[i]) == k;
          if i > 0 { assert t[i - 1] == s[i]; }
        }
        forall k | k in KeysOf(t, f) ensures k in KeysOf(s, f) {
          var i :| 0 <= i < |t| && f(t[i]) == k;
          assert s[i + 1] == t[i];
        }
      }
    }
  }
}
