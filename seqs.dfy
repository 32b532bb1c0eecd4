/**
 * Array combinators the source uses: `filter`, a stable `sort` driven by a
 * numeric comparator `key(a) - key(b)`, and `indexOf`.
 */
module Seqs {

  /** `s.filter(p)`. */
  function Filter<T(==)>(s: seq<T>, p: T -> bool): (r: seq<T>)
    ensures |r| <= |s|
    ensures forall i :: 0 <= i < |r| ==> r[i] in s && p(r[i])
    ensures forall i :: 0 <= i < |s| && p(s[i]) ==> s[i] in r
    decreases |s|
  {
    if s == [] then [] else (if p(s[0]) then [s[0]] else []) + Filter(s[1..], p)
  }

  /** Filtering keeps relative order: it distributes over concatenation. */
  lemma {:induction false} FilterConcat<T>(a: seq<T>, b: seq<T>, p: T -> bool)
    ensures Filter(a + b, p) == Filter(a, p) + Filter(b, p)
    decreases |a|
  {
    if a == [] {
      assert a + b == b;
    } else {
      assert (a + b)[0] == a[0];
      assert (a + b)[1..] == a[1..] + b;
      FilterConcat(a[1..], b, p);
    }
  }

  /** Filtering never makes two elements collide under `f`. */
  lemma {:induction false} FilterDistinctBy<T, X>(s: seq<T>, p: T -> bool, f: T -> X)
    requires DistinctBy(s, f)
    ensures DistinctBy(Filter(s, p), f)
    decreases |s|
  {
    if s != [] {
      DistinctTail(s, f);
      FilterDistinctBy(s[1..], p, f);
      var rest := Filter(s[1..], p);
      forall k | 0 <= k < |rest| ensures f(rest[k]) != f(s[0]) {
        var m :| 0 <= m < |s[1..]| && s[1..][m] == rest[k];
      }
      if p(s[0]) {
        DistinctCons(s[0], rest, f);
      }
    }
  }

  /** A filter that every element passes is the identity. */
  lemma {:induction false} FilterAll<T>(s: seq<T>, p: T -> bool)
    requires forall i :: 0 <= i < |s| ==> p(s[i])
    ensures Filter(s, p) == s
    decreases |s|
  {
    if s != [] {
      FilterAll(s[1..], p);
    }
  }

  ghost predicate SortedBy<T>(s: seq<T>, key: T -> int) {
    forall i, j :: 0 <= i < j < |s| ==> key(s[i]) <= key(s[j])
  }

  /** Elements are pairwise distinct under `f`. */
  ghost predicate DistinctBy<T, X>(s: seq<T>, f: T -> X) {
    forall i, j :: 0 <= i < j < |s| ==> f(s[i]) != f(s[j])
  }

  lemma SortedCons<T>(y: T, t: seq<T>, key: T -> int)
    requires SortedBy(t, key)
    requires forall i :: 0 <= i < |t| ==> key(y) <= key(t[i])
    ensures SortedBy([y] + t, key)
  {
    var r := [y] + t;
    forall i, j | 0 <= i < j < |r| ensures key(r[i]) <= key(r[j]) {
      assert r[j] == t[j - 1];
      if i > 0 {
        assert r[i] == t[i - 1];
      }
    }
  }

  lemma SortedTail<T>(s: seq<T>, key: T -> int)
    requires SortedBy(s, key) && |s| > 0
    ensures SortedBy(s[1..], key)
    ensures forall j :: 0 <= j < |s| ==> key(s[0]) <= key(s[j])
  {
    forall i, j | 0 <= i < j < |s[1..]| ensures key(s[1..][i]) <= key(s[1..][j]) {
      assert s[1..][i] == s[i + 1] && s[1..][j] == s[j + 1];
    }
  }

  lemma HeadBelowInsertion<T>(s: seq<T>, x: T, tail: seq<T>, key: T -> int)
    requires SortedBy(s, key) && |s| > 0 && key(s[0]) < key(x)
    requires multiset(tail) == multiset(s[1..]) + multiset{x}
    ensures forall i :: 0 <= i < |tail| ==> key(s[0]) <= key(tail[i])
  {
    SortedTail(s, key);
    forall i | 0 <= i < |tail| ensures key(s[0]) <= key(tail[i]) {
      assert tail[i] in multiset(tail);
      if tail[i] != x {
        assert tail[i] in multiset(s[1..]);
        var k :| 0 <= k < |s[1..]| && s[1..][k] == tail[i];
        assert s[k + 1] == tail[i];
      }
    }
  }

  /** Inserts `x` before the first element whose key is larger: equal keys keep arrival order. */
  function InsertBy<T(==)>(x: T, s: seq<T>, key: T -> int): (r: seq<T>)
    requires SortedBy(s, key)
    ensures SortedBy(r, key)
    ensures multiset(r) == multiset(s) + multiset{x}
    decreases |s|
  {
    if s == [] || key(x) <= key(s[0]) then
      assert forall j :: 0 <= j < |s| ==> key(x) <= key(s[j]) by {
        if s != [] {
          SortedTail(s, key);
        }
      }
      SortedCons(x, s, key);
      [x] + s
    else
      SortedTail(s, key);
      var tail := InsertBy(x, s[1..], key);
      HeadBelowInsertion(s, x, tail, key);
      SortedCons(s[0], tail, key);
      assert s == [s[0]] + s[1..];
      [s[0]] + tail
  }

  /** `Array.prototype.sort` with comparator `(a, b) => key(a) - key(b)`: a stable insertion sort. */
  function SortBy<T(==)>(s: seq<T>, key: T -> int): (r: seq<T>)
    ensures SortedBy(r, key)
    ensures multiset(r) == multiset(s)
    decreases |s|
  {
    if s == [] then []
    else
      assert s == [s[0]] + s[1..];
      InsertBy(s[0], SortBy(s[1..], key), key)
  }

  lemma SameMultisetSameMembers<T>(a: seq<T>, b: seq<T>)
    requires multiset(a) == multiset(b)
    ensures |a| == |b|
    ensures forall i :: 0 <= i < |a| ==> a[i] in b
  {
    assert |a| == |multiset(a)|;
    assert |b| == |multiset(b)|;
    forall i | 0 <= i < |a| ensures a[i] in b {
      assert a[i] in multiset(a);
    }
  }

  /** The sort leaves an already sorted list as it is (equal keys keep their order). */
  lemma {:induction false} SortBySorted<T>(s: seq<T>, key: T -> int)
    requires SortedBy(s, key)
    ensures SortBy(s, key) == s
    decreases |s|
  {
    if s != [] {
      SortedTail(s, key);
      SortBySorted(s[1..], key);
      assert s == [s[0]] + s[1..];
    }
  }

  lemma SortByMembership<T>(s: seq<T>, key: T -> int)
    ensures |SortBy(s, key)| == |s|
    ensures forall i :: 0 <= i < |s| ==> s[i] in SortBy(s, key)
    ensures forall i :: 0 <= i < |s| ==> SortBy(s, key)[i] in s
  {
    var r := SortBy(s, key);
    SameMultisetSameMembers(s, r);
    SameMultisetSameMembers(r, s);
  }

  lemma DistinctCons<T, X>(y: T, t: seq<T>, f: T -> X)
    requires DistinctBy(t, f)
    requires forall i :: 0 <= i < |t| ==> f(t[i]) != f(y)
    ensures DistinctBy([y] + t, f)
  {
    var r := [y] + t;
    forall i, j | 0 <= i < j < |r| ensures f(r[i]) != f(r[j]) {
      assert r[j] == t[j - 1];
      if i > 0 {
        assert r[i] == t[i - 1];
      }
    }
  }

  lemma DistinctTail<T, X>(s: seq<T>, f: T -> X)
    requires DistinctBy(s, f) && |s| > 0
    ensures DistinctBy(s[1..], f)
    ensures forall i :: 0 <= i < |s[1..]| ==> f(s[1..][i]) != f(s[0])
  {
    forall i, j | 0 <= i < j < |s[1..]| ensures f(s[1..][i]) != f(s[1..][j]) {
      assert s[1..][i] == s[i + 1] && s[1..][j] == s[j + 1];
    }
    forall i | 0 <= i < |s[1..]| ensures f(s[1..][i]) != f(s[0]) {
      assert s[1..][i] == s[i + 1];
    }
  }

  lemma InsertedMembers<T>(x: T, s: seq<T>, key: T -> int)
    requires SortedBy(s, key)
    ensures forall i :: 0 <= i < |InsertBy(x, s, key)| ==> InsertBy(x, s, key)[i] == x || InsertBy(x, s, key)[i] in s
  {
    var r := InsertBy(x, s, key);
    forall i | 0 <= i < |r| ensures r[i] == x || r[i] in s {
      assert r[i] in multiset(r);
      if r[i] != x {
        assert r[i] in multiset(s);
      }
    }
  }

  lemma {:induction false} InsertByDistinct<T, X>(x: T, s: seq<T>, key: T -> int, f: T -> X)
    requires SortedBy(s, key) && DistinctBy(s, f)
    requires forall i :: 0 <= i < |s| ==> f(s[i]) != f(x)
    ensures DistinctBy(InsertBy(x, s, key), f)
    decreases |s|
  {
    if s == [] || key(x) <= key(s[0]) {
      DistinctCons(x, s, f);
    } else {
      SortedTail(s, key);
      DistinctTail(s, f);
      var tail := InsertBy(x, s[1..], key);
      InsertByDistinct(x, s[1..], key, f);
      InsertedMembers(x, s[1..], key);
      forall m | 0 <= m < |tail| ensures f(tail[m]) != f(s[0]) {
        if tail[m] != x {
          var k :| 0 <= k < |s[1..]| && s[1..][k] == tail[m];
        }
      }
      DistinctCons(s[0], tail, f);
    }
  }

  /** Sorting keeps any distinctness of the elements. */
  lemma {:induction false} SortByDistinct<T, X>(s: seq<T>, key: T -> int, f: T -> X)
    requires DistinctBy(s, f)
    ensures DistinctBy(SortBy(s, key), f)
    decreases |s|
  {
    if s != [] {
      var rest := SortBy(s[1..], key);
      DistinctTail(s, f);
      SortByDistinct(s[1..], key, f);
      SortByMembership(s[1..], key);
      forall m | 0 <= m < |rest| ensures f(rest[m]) != f(s[0]) {
        var k :| 0 <= k < |s[1..]| && s[1..][k] == rest[m];
      }
      InsertByDistinct(s[0], rest, key, f);
    }
  }

  /** `s.indexOf(x)`: the first position of `x`, or -1. */
  function IndexOf<T(==)>(s: seq<T>, x: T): (r: int)
    ensures -1 <= r < |s|
    ensures r == -1 <==> x !in s
    ensures r >= 0 ==> s[r] == x && forall j :: 0 <= j < r ==> s[j] != x
    decreases |s|
  {
    if s == [] then -1
    else if s[0] == x then 0
    else
      var k := IndexOf(s[1..], x);
      assert x in s[1..] ==> x in s;
      assert x in s ==> x in s[1..] by {
        if x in s {
          var i :| 0 <= i < |s| && s[i] == x;
          assert i > 0 && s[1..][i - 1] == x;
        }
      }
      if k == -1 then -1 else k + 1
  }
}
