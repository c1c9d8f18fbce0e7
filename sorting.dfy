/** The two sorts of the scheduler (by finish before the dynamic programme, by
    start before the block split) are the host language's stable sort by one
    key. They are specified here by a stable insertion sort: its result is
    sorted by the key, a permutation of its input, and keeps the input order of
    regions whose keys are equal, which is all the scheduler depends on. */
module Sorting {
  import opened Regions

  datatype SortKey = ByStart | ByFinish

  function KeyOf(r: Region, key: SortKey): int {
    match key
    case ByStart => r.start
    case ByFinish => r.finish
  }

  predicate SortedBy(s: seq<Region>, key: SortKey) {
    forall j, k :: 0 <= j < k < |s| ==> KeyOf(s[j], key) <= KeyOf(s[k], key)
  }

  /** The regions of `s` whose key is `v`, in their order in `s`. */
  function WithKey(s: seq<Region>, key: SortKey, v: int): seq<Region> {
    if s == [] then []
    else (if KeyOf(s[0], key) == v then [s[0]] else []) + WithKey(s[1..], key, v)
  }

  /** Puts `x` in front of the first region whose key is not smaller, so that
      `x` precedes the regions of equal key that followed it in the input. */
  function Insert(x: Region, s: seq<Region>, key: SortKey): (r: seq<Region>)
    ensures |r| == |s| + 1
    ensures multiset(r) == multiset(s) + multiset{x}
  {
    if s == [] || KeyOf(x, key) <= KeyOf(s[0], key) then
      [x] + s
    else
      assert s == [s[0]] + s[1..];
      [s[0]] + Insert(x, s[1..], key)
  }

  /** A lower bound on the keys of `x` and of `s` bounds the keys after the
      insertion. */
  lemma {:induction false} InsertLowerBound(x: Region, s: seq<Region>, key: SortKey, lo: int)
    requires lo <= KeyOf(x, key)
    requires forall k :: 0 <= k < |s| ==> lo <= KeyOf(s[k], key)
    ensures forall k :: 0 <= k < |s| + 1 ==> lo <= KeyOf(Insert(x, s, key)[k], key)
  {
    if s != [] && KeyOf(s[0], key) < KeyOf(x, key) {
      InsertLowerBound(x, s[1..], key, lo);
    }
  }

  /** Inserting into a sorted sequence keeps it sorted. */
  lemma {:induction false} InsertSorted(x: Region, s: seq<Region>, key: SortKey)
    requires SortedBy(s, key)
    ensures SortedBy(Insert(x, s, key), key)
  {
    if s != [] && KeyOf(s[0], key) < KeyOf(x, key) {
      var t := Insert(x, s[1..], key);
      InsertSorted(x, s[1..], key);
      InsertLowerBound(x, s[1..], key, KeyOf(s[0], key));
      assert Insert(x, s, key) == [s[0]] + t;
    }
  }

  /** Inserting `x` puts it first among the regions that share its key. */
  lemma {:induction false} InsertWithKey(x: Region, s: seq<Region>, key: SortKey, v: int)
    ensures WithKey(Insert(x, s, key), key, v) == (if KeyOf(x, key) == v then [x] else []) + WithKey(s, key, v)
  {
    if s == [] || KeyOf(x, key) <= KeyOf(s[0], key) {
      assert Insert(x, s, key) == [x] + s;
      assert ([x] + s)[1..] == s;
    } else {
      var t := Insert(x, s[1..], key);
      InsertWithKey(x, s[1..], key, v);
      assert Insert(x, s, key) == [s[0]] + t;
      assert ([s[0]] + t)[1..] == t;
      var head := if KeyOf(s[0], key) == v then [s[0]] else [];
      assert WithKey([s[0]] + t, key, v) == head + WithKey(t, key, v);
      assert WithKey(s, key, v) == head + WithKey(s[1..], key, v);
    }
  }

  /** The stable sort of `s` by `key`. */
  function SortBy(s: seq<Region>, key: SortKey): (r: seq<Region>)
    ensures |r| == |s|
    ensures SortedBy(r, key)
    ensures multiset(r) == multiset(s)
  {
    if s == [] then []
    else
      assert s == [s[0]] + s[1..];
      InsertSorted(s[0], SortBy(s[1..], key), key);
      Insert(s[0], SortBy(s[1..], key), key)
  }

  /** Stability: for every key value, the regions carrying it appear in the
      sorted result in the order they had in the input. */
  lemma {:induction false} SortByIsStable(s: seq<Region>, key: SortKey, v: int)
    ensures WithKey(SortBy(s, key), key, v) == WithKey(s, key, v)
  {
    if s != [] {
      SortByIsStable(s[1..], key, v);
      InsertWithKey(s[0], SortBy(s[1..], key), key, v);
    }
  }

  /** Sorting an already sorted sequence leaves it unchanged (the `-s` flag
      only skips work). */
  lemma {:induction false} SortBySorted(s: seq<Region>, key: SortKey)
    requires SortedBy(s, key)
    ensures SortBy(s, key) == s
  {
    if s != [] {
      SortBySorted(s[1..], key);
      assert s == [s[0]] + s[1..];
    }
  }
}
