/**
 * `list.sort(key=..., reverse=True)`: a stable sort into non-increasing key
 * order, written as insertion sort on sequences.
 */
module Sorting {

  /** Keys never increase along `xs`. */
  predicate NonIncreasing<T>(xs: seq<T>, key: T -> int) {
    forall i, j :: 0 <= i < j < |xs| ==> key(xs[i]) >= key(xs[j])
  }

  /**
   * Puts `x` in front of the first element whose key is not greater than its
   * own, so that an element inserted earlier stays ahead of later ones with
   * the same key.
   */
  function Insert<T>(x: T, sorted: seq<T>, key: T -> int): (r: seq<T>)
    requires NonIncreasing(sorted, key)
    ensures multiset(r) == multiset(sorted) + multiset{x}
    ensures NonIncreasing(r, key)
    decreases |sorted|
  {
    if sorted == [] || key(x) >= key(sorted[0]) then
      [x] + sorted
    else
      var rest := Insert(x, sorted[1..], key);
      assert sorted == [sorted[0]] + sorted[1..];
      TailBelowHead(sorted, key);
      BoundedByHead(sorted[0], sorted[1..], x, rest, key);
      ConsSorted(sorted[0], rest, key);
      [sorted[0]] + rest
  }

  /** In a sorted sequence no later key exceeds the first. */
  lemma TailBelowHead<T>(sorted: seq<T>, key: T -> int)
    requires sorted != [] && NonIncreasing(sorted, key)
    ensures forall k :: 0 <= k < |sorted[1..]| ==> key(sorted[0]) >= key(sorted[1..][k])
  {
    forall k | 0 <= k < |sorted[1..]| ensures key(sorted[0]) >= key(sorted[1..][k]) {
      assert sorted[1..][k] == sorted[k + 1];
    }
  }

  /** A bound on every element carries over to a rearrangement with one more bounded element. */
  lemma BoundedByHead<T>(h: T, tail: seq<T>, x: T, rest: seq<T>, key: T -> int)
    requires forall k :: 0 <= k < |tail| ==> key(h) >= key(tail[k])
    requires key(h) >= key(x)
    requires multiset(rest) == multiset(tail) + multiset{x}
    ensures forall k :: 0 <= k < |rest| ==> key(h) >= key(rest[k])
  {
    forall k | 0 <= k < |rest| ensures key(h) >= key(rest[k]) {
      assert rest[k] in multiset(rest);
      if rest[k] != x {
        assert rest[k] in multiset(tail);
        var m :| 0 <= m < |tail| && tail[m] == rest[k];
      }
    }
  }

  lemma ConsSorted<T>(h: T, rest: seq<T>, key: T -> int)
    requires NonIncreasing(rest, key)
    requires forall k :: 0 <= k < |rest| ==> key(h) >= key(rest[k])
    ensures NonIncreasing([h] + rest, key)
  {
    var r := [h] + rest;
    forall i, j | 0 <= i < j < |r| ensures key(r[i]) >= key(r[j]) {
      assert r[j] == rest[j - 1];
      if i > 0 {
        assert r[i] == rest[i - 1];
      }
    }
  }

  /** The result holds exactly the elements of `xs` and is in non-increasing key order. */
  function SortDesc<T>(xs: seq<T>, key: T -> int): (r: seq<T>)
    ensures multiset(r) == multiset(xs)
    ensures NonIncreasing(r, key)
    ensures |r| == |xs|
    decreases |xs|
  {
    if xs == [] then []
    else
      assert xs == [xs[0]] + xs[1..];
      var r := Insert(xs[0], SortDesc(xs[1..], key), key);
      assert |r| == |multiset(r)|;
      r
  }
}
