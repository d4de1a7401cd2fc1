/**
 Python's `list.sort(key=key, reverse=True)` and the slice `[:n]`, as the
 recommender uses them: a stable sort into descending key order, written as
 an insertion sort on sequences.
 */
module StableSort {

  /** Inserts `x` in front of the first element whose key is not greater than its own. */
  function Insert<T(==)>(x: T, t: seq<T>, key: T -> real): (r: seq<T>)
    ensures |r| == |t| + 1
    ensures multiset(r) == multiset(t) + multiset{x}
    decreases |t|
  {
    if t == [] || key(t[0]) <= key(x) then [x] + t
    else
      assert t == [t[0]] + t[1..];
      [t[0]] + Insert(x, t[1..], key)
  }

  /** `list.sort(key=key, reverse=True)`: the result is a permutation of the input. */
  function SortDescending<T(==)>(s: seq<T>, key: T -> real): (r: seq<T>)
    ensures multiset(r) == multiset(s)
    decreases |s|
  {
    if s == [] then [] else
      assert s == [s[0]] + s[1..];
      Insert(s[0], SortDescending(s[1..], key), key)
  }

  /** `s[:n]`: at most the first `n` elements. */
  function Take<T>(s: seq<T>, n: nat): (r: seq<T>)
    ensures |r| == if |s| <= n then |s| else n
    ensures r <= s
  {
    if |s| <= n then s else s[..n]
  }

  ghost predicate Descending<T>(s: seq<T>, key: T -> real) {
    forall i, j :: 0 <= i < j < |s| ==> key(s[i]) >= key(s[j])
  }

  /** Inserting below a bound keeps every key below it. */
  lemma {:induction false} InsertBounded<T>(x: T, t: seq<T>, key: T -> real, b: real)
    requires key(x) <= b
    requires forall k :: 0 <= k < |t| ==> key(t[k]) <= b
    ensures forall k :: 0 <= k < |Insert(x, t, key)| ==> key(Insert(x, t, key)[k]) <= b
    decreases |t|
  {
    var r := Insert(x, t, key);
    if t == [] || key(t[0]) <= key(x) {
      assert forall k :: 0 < k < |r| ==> r[k] == t[k - 1];
    } else {
      var rest := Insert(x, t[1..], key);
      InsertBounded(x, t[1..], key, b);
      assert forall k :: 0 < k < |r| ==> r[k] == rest[k - 1];
    }
  }

  lemma {:induction false} InsertKeepsDescending<T>(x: T, t: seq<T>, key: T -> real)
    requires Descending(t, key)
    ensures Descending(Insert(x, t, key), key)
    decreases |t|
  {
    var r := Insert(x, t, key);
    if t == [] || key(t[0]) <= key(x) {
      assert forall k :: 0 < k < |r| ==> r[k] == t[k - 1];
    } else {
      var rest := Insert(x, t[1..], key);
      InsertKeepsDescending(x, t[1..], key);
      InsertBounded(x, t[1..], key, key(t[0]));
      assert forall k :: 0 < k < |r| ==> r[k] == rest[k - 1];
    }
  }

  /** The sort puts the keys in descending order. */
  lemma {:induction false} SortIsDescending<T>(s: seq<T>, key: T -> real)
    ensures Descending(SortDescending(s, key), key)
    decreases |s|
  {
    if s != [] {
      SortIsDescending(s[1..], key);
      InsertKeepsDescending(s[0], SortDescending(s[1..], key), key);
    }
  }

  /** The elements of `s` whose key is `v`, in their order in `s`. */
  function WithKey<T>(s: seq<T>, key: T -> real, v: real): seq<T>
    decreases |s|
  {
    if s == [] then []
    else (if key(s[0]) == v then [s[0]] else []) + WithKey(s[1..], key, v)
  }

  lemma WithKeyCons<T>(x: T, t: seq<T>, key: T -> real, v: real)
    ensures WithKey([x] + t, key, v) == (if key(x) == v then [x] else []) + WithKey(t, key, v)
  {
    assert ([x] + t)[0] == x && ([x] + t)[1..] == t;
  }

  lemma {:induction false} InsertIsStable<T>(x: T, t: seq<T>, key: T -> real, v: real)
    ensures WithKey(Insert(x, t, key), key, v) == (if key(x) == v then [x] else []) + WithKey(t, key, v)
    decreases |t|
  {
    if t == [] || key(t[0]) <= key(x) {
      WithKeyCons(x, t, key, v);
    } else {
      var rest := Insert(x, t[1..], key);
      assert Insert(x, t, key) == [t[0]] + rest;
      assert t == [t[0]] + t[1..];
      WithKeyCons(t[0], rest, key, v);
      WithKeyCons(t[0], t[1..], key, v);
      InsertIsStable(x, t[1..], key, v);
      if key(x) == v {
        // x passes t[0] only when t[0]'s key is greater, so t[0] is not kept.
        assert WithKey(Insert(x, t, key), key, v) == WithKey(rest, key, v);
        assert WithKey(t, key, v) == WithKey(t[1..], key, v);
      } else if key(t[0]) == v {
        assert WithKey(rest, key, v) == WithKey(t[1..], key, v);
      } else {
        assert WithKey(Insert(x, t, key), key, v) == WithKey(rest, key, v);
      }
    }
  }

  /** Stability: among elements with equal keys the sort keeps the input order. */
  lemma {:induction false} SortIsStable<T>(s: seq<T>, key: T -> real, v: real)
    ensures WithKey(SortDescending(s, key), key, v) == WithKey(s, key, v)
    decreases |s|
  {
    if s != [] {
      SortIsStable(s[1..], key, v);
      InsertIsStable(s[0], SortDescending(s[1..], key), key, v);
    }
  }

  // ---------------------------------------------------------------------------
  // The head of the sorted list: the earliest element of greatest key

  /** `s[k]` has the greatest key, and every element before it has a strictly smaller key. */
  ghost predicate IsFirstBest<T>(s: seq<T>, key: T -> real, k: int) {
    && 0 <= k < |s|
    && (forall j :: 0 <= j < |s| ==> key(s[j]) <= key(s[k]))
    && (forall j :: 0 <= j < k ==> key(s[j]) < key(s[k]))
  }

  /** The index of the earliest element of greatest key. */
  function FirstBest<T>(s: seq<T>, key: T -> real): (k: nat)
    requires s != []
    ensures IsFirstBest(s, key, k)
    decreases |s|
  {
    if |s| == 1 then 0
    else
      var k := FirstBest(s[1..], key) + 1;
      assert forall j :: 1 <= j < |s| ==> s[j] == s[1..][j - 1];
      if key(s[0]) >= key(s[k]) then 0 else k
  }

  /** Taking the head after the stable descending sort picks the earliest element of greatest key. */
  lemma {:induction false} SortHeadIsFirstBest<T>(s: seq<T>, key: T -> real)
    requires s != []
    ensures SortDescending(s, key)[0] == s[FirstBest(s, key)]
    decreases |s|
  {
    if |s| > 1 {
      var t := SortDescending(s[1..], key);
      SortHeadIsFirstBest(s[1..], key);
      assert |t| == |s[1..]| by { assert |multiset(t)| == |multiset(s[1..])|; }
      assert t[0] == s[FirstBest(s[1..], key) + 1];
    } else {
      assert s[1..] == [];
    }
  }
}
