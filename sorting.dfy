/**
 * Rust's `sort_by_key`: a stable sort in ascending order of an integer key,
 * written as insertion sort. Stable means elements with equal keys keep the
 * order they had before the sort.
 */
module Sorting {

  predicate SortedBy<T>(s: seq<T>, key: T -> int) {
    forall i, j :: 0 <= i < j < |s| ==> key(s[i]) <= key(s[j])
  }

  /** Puts `x` before the first element whose key is not smaller than its own. */
  function InsertBy<T>(x: T, s: seq<T>, key: T -> int): (r: seq<T>)
    ensures |r| == |s| + 1
  {
    if s == [] || key(x) <= key(s[0]) then [x] + s else [s[0]] + InsertBy(x, s[1..], key)
  }

  function SortBy<T>(s: seq<T>, key: T -> int): (r: seq<T>)
    ensures |r| == |s|
  {
    if s == [] then [] else InsertBy(s[0], SortBy(s[1..], key), key)
  }

  /** The elements of `s` whose key is `k`, in their order in `s`. */
  function SameKey<T>(s: seq<T>, key: T -> int, k: int): seq<T> {
    if s == [] then []
    else (if key(s[0]) == k then [s[0]] else []) + SameKey(s[1..], key, k)
  }

  lemma {:induction false} InsertPermutes<T>(x: T, s: seq<T>, key: T -> int)
    ensures multiset(InsertBy(x, s, key)) == multiset(s) + multiset{x}
  {
    if s != [] && key(x) > key(s[0]) {
      InsertPermutes(x, s[1..], key);
      assert s == [s[0]] + s[1..];
    }
  }

  /** Every element of `s` (and `x`) has a key of at least `lo`, so does every element of the insertion. */
  lemma {:induction false} InsertLowerBound<T>(x: T, s: seq<T>, key: T -> int, lo: int)
    requires lo <= key(x)
    requires forall i :: 0 <= i < |s| ==> lo <= key(s[i])
    ensures forall i :: 0 <= i < |InsertBy(x, s, key)| ==> lo <= key(InsertBy(x, s, key)[i])
  {
    if s != [] && key(x) > key(s[0]) {
      InsertLowerBound(x, s[1..], key, lo);
      var r := InsertBy(x, s[1..], key);
      assert InsertBy(x, s, key) == [s[0]] + r;
    }
  }

  lemma {:induction false} InsertSorted<T>(x: T, s: seq<T>, key: T -> int)
    requires SortedBy(s, key)
    ensures SortedBy(InsertBy(x, s, key), key)
    ensures multiset(InsertBy(x, s, key)) == multiset(s) + multiset{x}
  {
    InsertPermutes(x, s, key);
    if s != [] && key(x) > key(s[0]) {
      InsertSorted(x, s[1..], key);
      var r := InsertBy(x, s[1..], key);
      InsertLowerBound(x, s[1..], key, key(s[0]));
      var all := [s[0]] + r;
      assert InsertBy(x, s, key) == all;
      forall i, j | 0 <= i < j < |all| ensures key(all[i]) <= key(all[j]) {
        assert all[j] == r[j - 1];
        if i > 0 {
          assert all[i] == r[i - 1];
        }
      }
    } else if s != [] {
      var all := [x] + s;
      forall i, j | 0 <= i < j < |all| ensures key(all[i]) <= key(all[j]) {
        assert all[j] == s[j - 1];
        if i > 0 {
          assert all[i] == s[i - 1];
        }
      }
    }
  }

  /** The result of the sort is in ascending key order and a permutation of the input. */
  lemma {:induction false} SortBySortsAndPermutes<T>(s: seq<T>, key: T -> int)
    ensures SortedBy(SortBy(s, key), key)
    ensures multiset(SortBy(s, key)) == multiset(s)
  {
    if s != [] {
      var t := SortBy(s[1..], key);
      SortBySortsAndPermutes(s[1..], key);
      InsertSorted(s[0], t, key);
      assert SortBy(s, key) == InsertBy(s[0], t, key);
      HeadTail(s);
    }
  }

  lemma HeadTail<T>(s: seq<T>)
    requires s != []
    ensures multiset(s) == multiset(s[1..]) + multiset{s[0]}
  {
    assert s == [s[0]] + s[1..];
  }

  lemma {:induction false} SameKeyConcat<T>(a: seq<T>, b: seq<T>, key: T -> int, k: int)
    ensures SameKey(a + b, key, k) == SameKey(a, key, k) + SameKey(b, key, k)
  {
    if a != [] {
      assert (a + b)[1..] == a[1..] + b;
      SameKeyConcat(a[1..], b, key, k);
    } else {
      assert a + b == b;
    }
  }

  lemma {:induction false} InsertStable<T>(x: T, s: seq<T>, key: T -> int, k: int)
    ensures SameKey(InsertBy(x, s, key), key, k) == SameKey([x], key, k) + SameKey(s, key, k)
  {
    if s == [] || key(x) <= key(s[0]) {
      SameKeyConcat([x], s, key, k);
    } else {
      InsertStable(x, s[1..], key, k);
      SameKeyConcat([s[0]], InsertBy(x, s[1..], key), key, k);
      SameKeyConcat([s[0]], s[1..], key, k);
      assert s == [s[0]] + s[1..];
      // key(s[0]) < key(x): s[0] and x are never both of key k
    }
  }

  /** Stability: for every key value, the elements carrying it keep their relative order. */
  lemma {:induction false} SortByStable<T>(s: seq<T>, key: T -> int, k: int)
    ensures SameKey(SortBy(s, key), key, k) == SameKey(s, key, k)
  {
    if s != [] {
      SortByStable(s[1..], key, k);
      InsertStable(s[0], SortBy(s[1..], key), key, k);
      SameKeyConcat([s[0]], s[1..], key, k);
      assert s == [s[0]] + s[1..];
    }
  }

  /** Sorting what is already sorted changes nothing. */
  lemma {:induction false} SortBySorted<T>(s: seq<T>, key: T -> int)
    requires SortedBy(s, key)
    ensures SortBy(s, key) == s
  {
    if s != [] {
      SortBySorted(s[1..], key);
    }
  }

  /** No two elements of `s` share an identity under `id`. */
  predicate DistinctBy<T, K(==)>(s: seq<T>, id: T -> K) {
    forall i, j :: 0 <= i < j < |s| ==> id(s[i]) != id(s[j])
  }

  lemma {:induction false} InsertDistinct<T, K>(x: T, s: seq<T>, key: T -> int, id: T -> K)
    requires DistinctBy(s, id)
    requires forall i :: 0 <= i < |s| ==> id(s[i]) != id(x)
    ensures DistinctBy(InsertBy(x, s, key), id)
  {
    if s == [] || key(x) <= key(s[0]) {
      var all := [x] + s;
      forall i, j | 0 <= i < j < |all| ensures id(all[i]) != id(all[j]) {
        assert all[j] == s[j - 1];
        if i > 0 {
          assert all[i] == s[i - 1];
        }
      }
    } else {
      var r := InsertBy(x, s[1..], key);
      InsertDistinct(x, s[1..], key, id);
      InsertPermutes(x, s[1..], key);
      var all := [s[0]] + r;
      assert InsertBy(x, s, key) == all;
      forall i, j | 0 <= i < j < |all| ensures id(all[i]) != id(all[j]) {
        assert all[j] == r[j - 1];
        if i > 0 {
          assert all[i] == r[i - 1];
        } else {
          assert r[j - 1] in multiset(s[1..]) + multiset{x};
          if r[j - 1] != x {
            var k :| 0 <= k < |s[1..]| && s[1..][k] == r[j - 1];
            assert s[k + 1] == r[j - 1];
          }
        }
      }
    }
  }

  /** Sorting keeps distinct identities distinct. */
  lemma {:induction false} SortByDistinct<T, K>(s: seq<T>, key: T -> int, id: T -> K)
    requires DistinctBy(s, id)
    ensures DistinctBy(SortBy(s, key), id)
  {
    if s != [] {
      var tail := SortBy(s[1..], key);
      SortByDistinct(s[1..], key, id);
      SortBySortsAndPermutes(s[1..], key);
      forall i | 0 <= i < |tail| ensures id(tail[i]) != id(s[0]) {
        assert tail[i] in multiset(s[1..]);
        var k :| 0 <= k < |s[1..]| && s[1..][k] == tail[i];
        assert s[k + 1] == tail[i];
      }
      InsertDistinct(s[0], tail, key, id);
    }
  }
}
