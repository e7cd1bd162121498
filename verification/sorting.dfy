/**
  A stable sort by an integer key, standing for Python's `sorted(xs, key=f)`
  (which is stable) and for an `ORDER BY` over a table scan.
*/
module Sorting {

  /** Keys never decrease along `xs`. */
  predicate SortedBy<T>(xs: seq<T>, key: T -> int) {
    forall a, b | 0 <= a < b < |xs| :: key(xs[a]) <= key(xs[b])
  }

  /** The elements of `xs` whose key is `k`, in their order in `xs`. */
  function WithKey<T>(xs: seq<T>, key: T -> int, k: int): (r: seq<T>)
    ensures |r| <= |xs|
  {
    if |xs| == 0 then []
    else (if key(xs[0]) == k then [xs[0]] else []) + WithKey(xs[1..], key, k)
  }

  /** Puts `x` in front of the first element whose key is not smaller. */
  function Insert<T>(x: T, ys: seq<T>, key: T -> int): (r: seq<T>)
    requires SortedBy(ys, key)
    ensures |r| == |ys| + 1
    ensures r[0] == x || (|ys| > 0 && r[0] == ys[0])
    ensures SortedBy(r, key)
    ensures multiset(r) == multiset(ys) + multiset{x}
  {
    if |ys| == 0 || key(x) <= key(ys[0]) then [x] + ys
    else
      var rest := Insert(x, ys[1..], key);
      assert ys == [ys[0]] + ys[1..];
      SortedCons(ys[0], rest, key);
      [ys[0]] + rest
  }

  /** A sorted sequence stays sorted under a head no larger than its first element. */
  lemma SortedCons<T>(x: T, ys: seq<T>, key: T -> int)
    requires SortedBy(ys, key)
    requires |ys| > 0 ==> key(x) <= key(ys[0])
    ensures SortedBy([x] + ys, key)
  {
    var r := [x] + ys;
    forall a, b | 0 <= a < b < |r| ensures key(r[a]) <= key(r[b]) {
      if a == 0 && b > 1 {
        assert key(ys[0]) <= key(ys[b - 1]);
      }
    }
  }

  lemma WithKeyCons<T>(x: T, ys: seq<T>, key: T -> int, k: int)
    ensures WithKey([x] + ys, key, k) == (if key(x) == k then [x] else []) + WithKey(ys, key, k)
  {
    assert ([x] + ys)[1..] == ys;
  }

  /** Inserting `x` puts it before every element of the same key. */
  lemma {:induction false} InsertWithKey<T>(x: T, ys: seq<T>, key: T -> int, k: int)
    requires SortedBy(ys, key)
    ensures WithKey(Insert(x, ys, key), key, k) == (if key(x) == k then [x] else []) + WithKey(ys, key, k)
    decreases |ys|
  {
    if |ys| == 0 || key(x) <= key(ys[0]) {
      WithKeyCons(x, ys, key, k);
    } else {
      var rest := Insert(x, ys[1..], key);
      InsertWithKey(x, ys[1..], key, k);
      WithKeyCons(ys[0], rest, key, k);
      assert ys == [ys[0]] + ys[1..];
      WithKeyCons(ys[0], ys[1..], key, k);
    }
  }

  /**
    Sorts ascending by `key`. The result is a permutation of `xs` and the
    sort is stable: the elements of any one key keep their order in `xs`.
  */
  function SortBy<T>(xs: seq<T>, key: T -> int): (r: seq<T>)
    ensures SortedBy(r, key)
    ensures multiset(r) == multiset(xs)
    ensures forall k :: WithKey(r, key, k) == WithKey(xs, key, k)
    decreases |xs|
  {
    if |xs| == 0 then []
    else
      var sorted := SortBy(xs[1..], key);
      assert xs == [xs[0]] + xs[1..];
      assert forall k :: WithKey(Insert(xs[0], sorted, key), key, k) == WithKey(xs, key, k) by {
        forall k ensures WithKey(Insert(xs[0], sorted, key), key, k) == WithKey(xs, key, k) {
          InsertWithKey(xs[0], sorted, key, k);
          WithKeyCons(xs[0], xs[1..], key, k);
        }
      }
      Insert(xs[0], sorted, key)
  }

  /** Splitting a sequence splits its multiset. */
  lemma MultisetSplit<T>(xs: seq<T>, m: nat)
    requires m <= |xs|
    ensures multiset(xs) == multiset(xs[..m]) + multiset(xs[m..])
  {
    assert xs == xs[..m] + xs[m..];
  }
}
