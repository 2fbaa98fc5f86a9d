/** `Array.prototype.sort` with a comparator, modelled as an insertion sort
    by a key under a caller-given "at most" relation on keys. */
module Sorting {

  /** The comparator says `a` may come before `b`: `compare(a, b) <= 0`. */
  type Le = (string, string) -> bool

  /** Every two keys are comparable one way or the other. */
  ghost predicate Total(le: Le)
  {
    forall a, b :: le(a, b) || le(b, a)
  }

  ghost predicate Transitive(le: Le)
  {
    forall a, b, c :: le(a, b) && le(b, c) ==> le(a, c)
  }

  /** Neighbours are in order. */
  predicate SortedBy<T>(xs: seq<T>, key: T -> string, le: Le)
  {
    forall i :: 0 <= i < |xs| - 1 ==> le(key(xs[i]), key(xs[i + 1]))
  }

  /** Puts `x` before the first element it may precede. */
  function InsertBy<T>(x: T, xs: seq<T>, key: T -> string, le: Le): (r: seq<T>)
    ensures multiset(r) == multiset(xs) + multiset{x}
    ensures |r| == |xs| + 1
    ensures r != [] && (r[0] == x || (xs != [] && r[0] == xs[0]))
  {
    if xs == [] || le(key(x), key(xs[0])) then [x] + xs
    else
      var rest := InsertBy(x, xs[1..], key, le);
      assert xs == [xs[0]] + xs[1..];
      [xs[0]] + rest
  }

  /** The sort: the same elements, rearranged. */
  function SortBy<T>(xs: seq<T>, key: T -> string, le: Le): (r: seq<T>)
    ensures multiset(r) == multiset(xs)
    ensures |r| == |xs|
  {
    if xs == [] then []
    else
      assert xs == [xs[0]] + xs[1..];
      InsertBy(xs[0], SortBy(xs[1..], key, le), key, le)
  }

  lemma {:induction false} InsertBySorted<T>(x: T, xs: seq<T>, key: T -> string, le: Le)
    requires Total(le)
    requires SortedBy(xs, key, le)
    ensures SortedBy(InsertBy(x, xs, key, le), key, le)
  {
    if xs == [] || le(key(x), key(xs[0])) {
    } else {
      var rest := InsertBy(x, xs[1..], key, le);
      InsertBySorted(x, xs[1..], key, le);
      assert le(key(xs[0]), key(x));
      var r := [xs[0]] + rest;
      forall i | 0 <= i < |r| - 1
        ensures le(key(r[i]), key(r[i + 1]))
      {
        if i > 0 {
          assert r[i] == rest[i - 1] && r[i + 1] == rest[i];
        }
      }
    }
  }

  /** For a total comparator the result is in order. */
  lemma {:induction false} SortBySorted<T>(xs: seq<T>, key: T -> string, le: Le)
    requires Total(le)
    ensures SortedBy(SortBy(xs, key, le), key, le)
  {
    if xs != [] {
      SortBySorted(xs[1..], key, le);
      InsertBySorted(xs[0], SortBy(xs[1..], key, le), key, le);
    }
  }

  /** For a transitive comparator, neighbours in order puts every pair in
      order. */
  lemma {:induction false} SortedAllPairs<T>(xs: seq<T>, key: T -> string, le: Le, i: nat, j: nat)
    requires Transitive(le) && SortedBy(xs, key, le)
    requires i < j < |xs|
    ensures le(key(xs[i]), key(xs[j]))
    decreases j - i
  {
    if i + 1 < j {
      SortedAllPairs(xs, key, le, i + 1, j);
    }
  }
}
