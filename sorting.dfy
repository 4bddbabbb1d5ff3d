/**
 * `[...xs].sort((a, b) => key(b) - key(a))`: JavaScript's `Array.prototype.sort`
 * is stable, so with this comparator it orders by non-increasing key and keeps
 * elements with equal keys in their original order. SortDesc is that sort,
 * written as an insertion sort.
 */
module Sorting {

  /** Puts x in front of the first element whose key does not exceed x's. */
  function InsertDesc<T>(x: T, s: seq<T>, key: T -> int): (r: seq<T>)
    ensures |r| == |s| + 1
  {
    if s == [] || key(x) >= key(s[0]) then [x] + s else [s[0]] + InsertDesc(x, s[1..], key)
  }

  function SortDesc<T>(s: seq<T>, key: T -> int): (r: seq<T>)
    ensures |r| == |s|
  {
    if s == [] then [] else InsertDesc(s[0], SortDesc(s[1..], key), key)
  }

  ghost predicate NonIncreasing<T>(s: seq<T>, key: T -> int) {
    forall i, j :: 0 <= i < j < |s| ==> key(s[i]) >= key(s[j])
  }

  /** The elements of s whose key is v, in the order s lists them. */
  function WithKey<T>(s: seq<T>, key: T -> int, v: int): seq<T> {
    if s == [] then [] else (if key(s[0]) == v then [s[0]] else []) + WithKey(s[1..], key, v)
  }

  function SumOf<T>(s: seq<T>, f: T -> int): int {
    if s == [] then 0 else f(s[0]) + SumOf(s[1..], f)
  }

  lemma {:induction false} SumOfAppend<T>(a: seq<T>, b: seq<T>, f: T -> int)
    ensures SumOf(a + b, f) == SumOf(a, f) + SumOf(b, f)
  {
    if a == [] {
      assert a + b == b;
    } else {
      assert (a + b)[1..] == a[1..] + b;
      SumOfAppend(a[1..], b, f);
    }
  }

  lemma {:induction false} WithKeyAppend<T>(a: seq<T>, b: seq<T>, key: T -> int, v: int)
    ensures WithKey(a + b, key, v) == WithKey(a, key, v) + WithKey(b, key, v)
  {
    if a == [] {
      assert a + b == b;
    } else {
      assert (a + b)[1..] == a[1..] + b;
      WithKeyAppend(a[1..], b, key, v);
    }
  }

  lemma {:induction false} InsertDescPermutes<T>(x: T, s: seq<T>, key: T -> int)
    ensures multiset(InsertDesc(x, s, key)) == multiset(s) + multiset{x}
  {
    if !(s == [] || key(x) >= key(s[0])) {
      InsertDescPermutes(x, s[1..], key);
      assert s == [s[0]] + s[1..];
    }
  }

  lemma {:induction false} InsertDescOrders<T>(x: T, s: seq<T>, key: T -> int)
    requires NonIncreasing(s, key)
    ensures NonIncreasing(InsertDesc(x, s, key), key)
  {
    if !(s == [] || key(x) >= key(s[0])) {
      InsertDescOrders(x, s[1..], key);
      InsertDescPermutes(x, s[1..], key);
      var t := InsertDesc(x, s[1..], key);
      forall j | 0 <= j < |t| ensures key(s[0]) >= key(t[j]) {
        assert t[j] in multiset(t);
        if t[j] != x {
          assert t[j] in multiset(s[1..]);
          var k :| 0 <= k < |s[1..]| && s[1..][k] == t[j];
          assert s[k + 1] == t[j];
        }
      }
    }
  }

  lemma {:induction false} InsertDescWithKey<T>(x: T, s: seq<T>, key: T -> int, v: int)
    ensures WithKey(InsertDesc(x, s, key), key, v) == (if key(x) == v then [x] else []) + WithKey(s, key, v)
  {
    if s == [] || key(x) >= key(s[0]) {
      assert ([x] + s)[1..] == s;
    } else {
      var t := InsertDesc(x, s[1..], key);
      var kept := if key(x) == v then [x] else [];
      var first := if key(s[0]) == v then [s[0]] else [];
      calc {
        WithKey(InsertDesc(x, s, key), key, v);
      ==  { assert ([s[0]] + t)[1..] == t; }
        first + WithKey(t, key, v);
      ==  { InsertDescWithKey(x, s[1..], key, v); }
        first + (kept + WithKey(s[1..], key, v));
      ==  { assert first == [] || kept == []; } // x's key is below s[0]'s
        kept + (first + WithKey(s[1..], key, v));
      }
    }
  }

  lemma {:induction false} InsertDescSum<T>(x: T, s: seq<T>, key: T -> int, f: T -> int)
    ensures SumOf(InsertDesc(x, s, key), f) == f(x) + SumOf(s, f)
  {
    if s == [] || key(x) >= key(s[0]) {
      assert ([x] + s)[1..] == s;
    } else {
      InsertDescSum(x, s[1..], key, f);
      assert ([s[0]] + InsertDesc(x, s[1..], key))[1..] == InsertDesc(x, s[1..], key);
    }
  }

  /** The sort returns a permutation of its input. */
  lemma {:induction false} SortDescPermutes<T>(s: seq<T>, key: T -> int)
    ensures multiset(SortDesc(s, key)) == multiset(s)
  {
    if s != [] {
      SortDescPermutes(s[1..], key);
      InsertDescPermutes(s[0], SortDesc(s[1..], key), key);
      assert s == [s[0]] + s[1..];
    }
  }

  /** The sort orders by non-increasing key. */
  lemma {:induction false} SortDescOrders<T>(s: seq<T>, key: T -> int)
    ensures NonIncreasing(SortDesc(s, key), key)
  {
    if s != [] {
      SortDescOrders(s[1..], key);
      InsertDescOrders(s[0], SortDesc(s[1..], key), key);
    }
  }

  /** The sort is stable: the elements sharing any one key keep their relative order. */
  lemma {:induction false} SortDescStable<T>(s: seq<T>, key: T -> int, v: int)
    ensures WithKey(SortDesc(s, key), key, v) == WithKey(s, key, v)
  {
    if s != [] {
      SortDescStable(s[1..], key, v);
      InsertDescWithKey(s[0], SortDesc(s[1..], key), key, v);
    }
  }

  /** Stability for every key value at once. */
  lemma SortDescStableAll<T>(s: seq<T>, key: T -> int)
    ensures forall v :: WithKey(SortDesc(s, key), key, v) == WithKey(s, key, v)
  {
    forall v ensures WithKey(SortDesc(s, key), key, v) == WithKey(s, key, v) {
      SortDescStable(s, key, v);
    }
  }

  /** Sorting does not change a sum over the elements. */
  lemma {:induction false} SortDescSum<T>(s: seq<T>, key: T -> int, f: T -> int)
    ensures SumOf(SortDesc(s, key), f) == SumOf(s, f)
  {
    if s != [] {
      SortDescSum(s[1..], key, f);
      InsertDescSum(s[0], SortDesc(s[1..], key), key, f);
    }
  }

  /** An element whose key exceeds every other element's comes out first. */
  lemma StrictMaximumFirst<T>(s: seq<T>, x: T, key: T -> int)
    requires forall y :: y in s ==> key(y) < key(x)
    ensures SortDesc(s + [x], key)[0] == x
  {
    var r := SortDesc(s + [x], key);
    SortDescPermutes(s + [x], key);
    SortDescOrders(s + [x], key);
    assert x in multiset(r);
    var j :| 0 <= j < |r| && r[j] == x;
    assert r[0] in multiset(s + [x]);
  }

  /** In a list ordered by non-increasing key, a prefix holds the elements of largest key. */
  lemma PrefixDominates<T>(s: seq<T>, key: T -> int, n: nat)
    requires n <= |s| && NonIncreasing(s, key)
    ensures forall a, b :: a in s[..n] && b in s && b !in s[..n] ==> key(a) >= key(b)
  {
    forall a, b | a in s[..n] && b in s && b !in s[..n] ensures key(a) >= key(b) {
      var i :| 0 <= i < n && s[..n][i] == a;
      var j :| 0 <= j < |s| && s[j] == b;
    }
  }

  /** A prefix of an ordered permutation of s: part of s, ordered, and dominating the rest of s. */
  lemma PrefixOfOrderedPermutation<T>(r: seq<T>, s: seq<T>, key: T -> int, n: nat)
    requires n <= |r| && multiset(r) == multiset(s) && NonIncreasing(r, key)
    ensures multiset(r[..n]) <= multiset(s)
    ensures NonIncreasing(r[..n], key)
    ensures forall a, b :: a in r[..n] && b in s && b !in r[..n] ==> key(a) >= key(b)
  {
    assert multiset(r[..n]) <= multiset(s) by {
      assert r == r[..n] + r[n..];
    }
    assert NonIncreasing(r[..n], key) by {
      forall i, j | 0 <= i < j < n ensures key(r[..n][i]) >= key(r[..n][j]) {
        assert r[..n][i] == r[i] && r[..n][j] == r[j];
      }
    }
    PrefixDominates(r, key, n);
    forall a, b | a in r[..n] && b in s && b !in r[..n] ensures key(a) >= key(b) {
      assert b in multiset(s);
    }
  }

  /** Cutting the sorted sequence after n keeps, for every key, a prefix of that key's elements in input order. */
  lemma SortDescPrefixStable<T>(s: seq<T>, key: T -> int, n: nat)
    requires n <= |s|
    ensures forall v :: WithKey(SortDesc(s, key)[..n], key, v) <= WithKey(s, key, v)
  {
    var r := SortDesc(s, key);
    assert r == r[..n] + r[n..];
    forall v ensures WithKey(r[..n], key, v) <= WithKey(s, key, v) {
      WithKeyAppend(r[..n], r[n..], key, v);
      SortDescStable(s, key, v);
    }
  }

  /**
   * The first n elements of the sorted list: some of the input's elements,
   * ordered, and none of the input's other elements has a larger key.
   */
  lemma SortDescPrefix<T>(s: seq<T>, key: T -> int, n: nat)
    requires n <= |s|
    ensures multiset(SortDesc(s, key)[..n]) <= multiset(s)
    ensures NonIncreasing(SortDesc(s, key)[..n], key)
    ensures forall a, b :: a in SortDesc(s, key)[..n] && b in s && b !in SortDesc(s, key)[..n] ==> key(a) >= key(b)
  {
    SortDescPermutes(s, key);
    SortDescOrders(s, key);
    PrefixOfOrderedPermutation(SortDesc(s, key), s, key, n);
  }
}
