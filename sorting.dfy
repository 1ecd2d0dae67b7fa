/**
 * Python's `list.sort(key=...)` and `sorted(..., key=...)`: a stable sort
 * by an integer key.  The library's algorithm is not part of the daemon, so
 * it is given here by its documented result, as an insertion sort.
 */
module Sorting {

  /** `s` is in ascending order of `key`. */
  predicate SortedBy<T>(s: seq<T>, key: T -> int) {
    forall i, j :: 0 <= i < j < |s| ==> key(s[i]) <= key(s[j])
  }

  /** Every element of `s` has a key of at least `b`. */
  predicate KeysAtLeast<T>(s: seq<T>, key: T -> int, b: int) {
    forall i :: 0 <= i < |s| ==> b <= key(s[i])
  }

  /**
   * The elements of `s` whose key is `k`, in their order in `s`: the filter
   * that stability is stated with.
   */
  function WithKey<T>(s: seq<T>, key: T -> int, k: int): (r: seq<T>)
    ensures |r| <= |s|
  {
    if s == [] then []
    else (if key(s[0]) == k then [s[0]] else []) + WithKey(s[1..], key, k)
  }

  /** `WithKey` keeps exactly the elements of key `k`, each no more often than `s` holds it. */
  lemma {:induction false} WithKeyExact<T>(s: seq<T>, key: T -> int, k: int)
    ensures var r := WithKey(s, key, k);
      && (forall i :: 0 <= i < |r| ==> key(r[i]) == k)
      && multiset(r) <= multiset(s)
      && (forall x :: x in s && key(x) == k ==> x in r)
  {
    if s != [] {
      WithKeyExact(s[1..], key, k);
      assert s == [s[0]] + s[1..];
      var h: seq<T> := if key(s[0]) == k then [s[0]] else [];
      var t := WithKey(s[1..], key, k);
      assert WithKey(s, key, k) == h + t;
      assert multiset(h) <= multiset([s[0]]);
      forall i | 0 <= i < |h + t| ensures key((h + t)[i]) == k {
        if i >= |h| { assert (h + t)[i] == t[i - |h|]; }
      }
    }
  }

  /** Puts `x` in front of the first element whose key is not below `x`'s. */
  function InsertBy<T>(x: T, s: seq<T>, key: T -> int): (r: seq<T>)
    ensures |r| == |s| + 1
    ensures multiset(r) == multiset(s) + multiset{x}
  {
    if s == [] || key(x) <= key(s[0]) then
      [x] + s
    else
      assert s == [s[0]] + s[1..];
      [s[0]] + InsertBy(x, s[1..], key)
  }

  /** The stable sort of `s` by `key`. */
  function SortBy<T>(s: seq<T>, key: T -> int): (r: seq<T>)
    ensures |r| == |s|
    ensures multiset(r) == multiset(s)
    ensures SortedBy(r, key)
  {
    if s == [] then []
    else
      assert s == [s[0]] + s[1..];
      InsertBySorted(s[0], SortBy(s[1..], key), key);
      InsertBy(s[0], SortBy(s[1..], key), key)
  }

  /** A lower bound on the keys of `x` and of `s` bounds the keys after insertion. */
  lemma {:induction false} InsertByBound<T>(x: T, s: seq<T>, key: T -> int, b: int)
    requires b <= key(x) && KeysAtLeast(s, key, b)
    ensures KeysAtLeast(InsertBy(x, s, key), key, b)
  {
    if s != [] && key(s[0]) < key(x) {
      InsertByBound(x, s[1..], key, b);
    }
  }

  /** Insertion keeps a sorted sequence sorted. */
  lemma {:induction false} InsertBySorted<T>(x: T, s: seq<T>, key: T -> int)
    requires SortedBy(s, key)
    ensures SortedBy(InsertBy(x, s, key), key)
  {
    if s != [] && key(s[0]) < key(x) {
      var rest := InsertBy(x, s[1..], key);
      InsertBySorted(x, s[1..], key);
      InsertByBound(x, s[1..], key, key(s[0]));
      assert InsertBy(x, s, key) == [s[0]] + rest;
    }
  }

  /** Inserting `x` puts it in front of every element with the same key. */
  lemma {:induction false} InsertByWithKey<T>(x: T, s: seq<T>, key: T -> int, k: int)
    ensures WithKey(InsertBy(x, s, key), key, k) == (if key(x) == k then [x] else []) + WithKey(s, key, k)
  {
    var r := InsertBy(x, s, key);
    var hx: seq<T> := if key(x) == k then [x] else [];
    if s == [] || key(x) <= key(s[0]) {
      assert r[1..] == s;
      assert WithKey(r, key, k) == hx + WithKey(s, key, k);
    } else {
      var h0: seq<T> := if key(s[0]) == k then [s[0]] else [];
      var rest := InsertBy(x, s[1..], key);
      InsertByWithKey(x, s[1..], key, k);
      assert r[1..] == rest;
      assert WithKey(r, key, k) == h0 + WithKey(rest, key, k);
      assert WithKey(s, key, k) == h0 + WithKey(s[1..], key, k);
      assert h0 == [] || hx == [];
    }
  }

  /** Stability: elements with equal keys keep their relative order. */
  lemma {:induction false} SortByStable<T>(s: seq<T>, key: T -> int, k: int)
    ensures WithKey(SortBy(s, key), key, k) == WithKey(s, key, k)
  {
    if s != [] {
      SortByStable(s[1..], key, k);
      InsertByWithKey(s[0], SortBy(s[1..], key), key, k);
    }
  }
}
