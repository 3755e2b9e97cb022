/** Stable sorting by an integer key, the shape of JavaScript's
    `array.sort((a, b) => key(a) - key(b))` (stable since ES2019). */
module Sorting {

  /** `s` is in non-decreasing order of `key`. */
  ghost predicate SortedBy<T>(s: seq<T>, key: T -> int) {
    forall i, j :: 0 <= i < j < |s| ==> key(s[i]) <= key(s[j])
  }

  /** Inserts `x` into the sorted `s` after every element whose key is
      smaller and before the first whose key is not. */
  function Insert<T>(x: T, s: seq<T>, key: T -> int): (r: seq<T>)
    requires SortedBy(s, key)
    ensures SortedBy(r, key)
    ensures multiset(r) == multiset(s) + multiset{x}
    ensures |r| == |s| + 1
  {
    if |s| == 0 then [x]
    else if key(x) <= key(s[0]) then [x] + s
    else
      var rest := Insert(x, s[1..], key);
      assert s == [s[0]] + s[1..];
      BoundKept(rest, s[1..], x, key, key(s[0]));
      [s[0]] + rest
  }

  /** A lower bound on the keys of `s` and on `key(x)` bounds every key of a
      permutation of `s` plus `x`. */
  lemma BoundKept<T>(r: seq<T>, s: seq<T>, x: T, key: T -> int, b: int)
    requires multiset(r) == multiset(s) + multiset{x}
    requires forall k :: 0 <= k < |s| ==> b <= key(s[k])
    requires b <= key(x)
    ensures forall k :: 0 <= k < |r| ==> b <= key(r[k])
  {
    forall k | 0 <= k < |r|
      ensures b <= key(r[k])
    {
      assert r[k] in multiset(r);
      if r[k] != x {
        assert r[k] in multiset(s);
        var j :| 0 <= j < |s| && s[j] == r[k];
      }
    }
  }

  /** Insertion sort by key: the result is sorted and a permutation of the
      input, and `SortStable` shows that equal keys keep their order. */
  function SortBy<T>(s: seq<T>, key: T -> int): (r: seq<T>)
    ensures SortedBy(r, key)
    ensures multiset(r) == multiset(s)
    ensures |r| == |s|
  {
    if |s| == 0 then []
    else
      assert s == [s[0]] + s[1..];
      Insert(s[0], SortBy(s[1..], key), key)
  }

  /** The elements of `s` whose key is `k`, in their order in `s`. */
  function WithKey<T>(s: seq<T>, key: T -> int, k: int): (r: seq<T>)
    ensures |r| <= |s|
    ensures forall i :: 0 <= i < |r| ==> key(r[i]) == k
  {
    if |s| == 0 then []
    else (if key(s[0]) == k then [s[0]] else []) + WithKey(s[1..], key, k)
  }

  lemma WithKeyCons<T>(x: T, s: seq<T>, key: T -> int, k: int)
    ensures WithKey([x] + s, key, k) == (if key(x) == k then [x] else []) + WithKey(s, key, k)
  {
    assert ([x] + s)[1..] == s;
  }

  /** Inserting `x` puts it behind nothing of its own key. */
  lemma {:induction false} InsertStable<T>(x: T, s: seq<T>, key: T -> int, k: int)
    requires SortedBy(s, key)
    ensures WithKey(Insert(x, s, key), key, k) == (if key(x) == k then [x] else []) + WithKey(s, key, k)
  {
    if |s| == 0 {
      WithKeyCons(x, s, key, k);
    } else if key(x) <= key(s[0]) {
      WithKeyCons(x, s, key, k);
    } else {
      var y, rest := s[0], s[1..];
      InsertStep(x, s, key);
      var tail := Insert(x, rest, key);
      InsertStable(x, rest, key, k);
      WithKeyCons(y, tail, key, k);
      WithKeyCons(y, rest, key, k);
      SwapDistinctKeys(x, y, key, k, WithKey(rest, key, k));
    }
  }

  /** One step of `Insert` past an element of smaller key. */
  lemma InsertStep<T>(x: T, s: seq<T>, key: T -> int)
    requires SortedBy(s, key) && |s| > 0 && key(s[0]) < key(x)
    ensures SortedBy(s[1..], key)
    ensures s == [s[0]] + s[1..]
    ensures Insert(x, s, key) == [s[0]] + Insert(x, s[1..], key)
  {
  }

  /** Two elements of which at most one has key `k` can be listed in either
      order in front of `w`. */
  lemma SwapDistinctKeys<T>(x: T, y: T, key: T -> int, k: int, w: seq<T>)
    requires key(y) < key(x)
    ensures (if key(y) == k then [y] else []) + ((if key(x) == k then [x] else []) + w)
         == (if key(x) == k then [x] else []) + ((if key(y) == k then [y] else []) + w)
  {
  }

  /** Stability: for every key, the sorted sequence lists the elements with
      that key in the order the input lists them, as a stable
      `Array.prototype.sort` does. */
  lemma {:induction false} SortStable<T>(s: seq<T>, key: T -> int, k: int)
    ensures WithKey(SortBy(s, key), key, k) == WithKey(s, key, k)
  {
    if |s| > 0 {
      var rest := SortBy(s[1..], key);
      assert SortBy(s, key) == Insert(s[0], rest, key);
      SortStable(s[1..], key, k);
      InsertStable(s[0], rest, key, k);
      assert s == [s[0]] + s[1..];
      WithKeyCons(s[0], s[1..], key, k);
    }
  }
}
