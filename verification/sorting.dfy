/**
 * Python's stable `list.sort(key=...)` on integer keys, as used to order section headers
 * by their top edge and image rows by `idx`.
 */
module Sorting {

  /** Keys never decrease along `s`. */
  predicate Ascending<T>(s: seq<T>, key: T -> int) {
    forall k, l :: 0 <= k < l < |s| ==> key(s[k]) <= key(s[l])
  }

  /** Inserts `x` after every element whose key is not greater, which keeps the sort stable. */
  function InsertByKey<T>(x: T, sorted: seq<T>, key: T -> int): (r: seq<T>)
    ensures multiset(r) == multiset(sorted) + multiset{x}
  {
    if sorted == [] then [x]
    else if key(x) < key(sorted[0]) then [x] + sorted
    else
      assert sorted == [sorted[0]] + sorted[1..];
      [sorted[0]] + InsertByKey(x, sorted[1..], key)
  }

  lemma {:induction false} InsertByKeyAscending<T>(x: T, sorted: seq<T>, key: T -> int)
    requires Ascending(sorted, key)
    ensures Ascending(InsertByKey(x, sorted, key), key)
  {
    if sorted != [] && key(x) >= key(sorted[0]) {
      var first := sorted[0];
      var tail := sorted[1..];
      InsertByKeyAscending(x, tail, key);
      var rest := InsertByKey(x, tail, key);
      forall k | 0 <= k < |rest| ensures key(first) <= key(rest[k]) {
        assert rest[k] in multiset(rest);
        if rest[k] != x {
          assert rest[k] in multiset(tail);
          var j :| 0 <= j < |tail| && tail[j] == rest[k];
          assert sorted[j + 1] == rest[k];
        }
      }
    }
  }

  /** `sorted(s, key=key)`: ascending keys, same elements. */
  function SortByKey<T>(s: seq<T>, key: T -> int): (r: seq<T>)
    ensures Ascending(r, key)
    ensures multiset(r) == multiset(s)
  {
    if s == [] then []
    else
      var init := s[..|s| - 1];
      assert s == init + [s[|s| - 1]];
      InsertByKeyAscending(s[|s| - 1], SortByKey(init, key), key);
      InsertByKey(s[|s| - 1], SortByKey(init, key), key)
  }

  /** The elements of `s` whose key is `k`, in the order they appear. */
  function WithKey<T>(s: seq<T>, key: T -> int, k: int): (r: seq<T>)
    ensures |r| <= |s|
    ensures forall y :: y in r ==> y in s && key(y) == k
  {
    if s == [] then []
    else (if key(s[0]) == k then [s[0]] else []) + WithKey(s[1..], key, k)
  }

  lemma {:induction false} NoneWithKey<T>(s: seq<T>, key: T -> int, k: int)
    requires forall i :: 0 <= i < |s| ==> key(s[i]) != k
    ensures WithKey(s, key, k) == []
  {
    if s != [] {
      assert forall i :: 0 <= i < |s[1..]| ==> s[1..][i] == s[i + 1];
      NoneWithKey(s[1..], key, k);
    }
  }

  lemma {:induction false} WithKeyAppend<T>(a: seq<T>, b: seq<T>, key: T -> int, k: int)
    ensures WithKey(a + b, key, k) == WithKey(a, key, k) + WithKey(b, key, k)
  {
    if a == [] {
      assert a + b == b;
    } else {
      assert (a + b)[1..] == a[1..] + b;
      WithKeyAppend(a[1..], b, key, k);
    }
  }

  /**
   * Inserting into a sorted list puts `x` after every element with the same key, so among
   * the elements sharing a key, `x` comes last and the others keep their order.
   */
  lemma {:induction false} InsertByKeyStable<T>(x: T, sorted: seq<T>, key: T -> int, k: int)
    requires Ascending(sorted, key)
    ensures WithKey(InsertByKey(x, sorted, key), key, k) == WithKey(sorted, key, k) + (if key(x) == k then [x] else [])
  {
    if sorted == [] {
    } else if key(x) < key(sorted[0]) {
      assert ([x] + sorted)[1..] == sorted;
      if key(x) == k {
        forall i | 0 <= i < |sorted| ensures key(sorted[i]) != k {
          assert key(sorted[0]) <= key(sorted[i]);
        }
        NoneWithKey(sorted, key, k);
      }
    } else {
      var tail := sorted[1..];
      assert Ascending(tail, key) by {
        forall a, b | 0 <= a < b < |tail| ensures key(tail[a]) <= key(tail[b]) {
          assert tail[a] == sorted[a + 1] && tail[b] == sorted[b + 1];
        }
      }
      InsertByKeyStable(x, tail, key, k);
      assert ([sorted[0]] + InsertByKey(x, tail, key))[1..] == InsertByKey(x, tail, key);
    }
  }

  /** The sort is stable: the elements with any one key keep their input order. */
  lemma {:induction false} SortByKeyStable<T>(s: seq<T>, key: T -> int, k: int)
    ensures WithKey(SortByKey(s, key), key, k) == WithKey(s, key, k)
  {
    if s != [] {
      var init := s[..|s| - 1];
      var last := s[|s| - 1];
      var sortedInit := SortByKey(init, key);
      var tail := if key(last) == k then [last] else [];
      calc {
        WithKey(SortByKey(s, key), key, k);
        WithKey(InsertByKey(last, sortedInit, key), key, k);
        { InsertByKeyStable(last, sortedInit, key, k); }
        WithKey(sortedInit, key, k) + tail;
        { SortByKeyStable(init, key, k); }
        WithKey(init, key, k) + tail;
        { assert [last][1..] == []; }
        WithKey(init, key, k) + WithKey([last], key, k);
        { WithKeyAppend(init, [last], key, k); }
        WithKey(init + [last], key, k);
        { assert s == init + [last]; }
        WithKey(s, key, k);
      }
    }
  }
}
