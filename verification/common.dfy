/** Small shared vocabulary: an optional value, an order-preserving filter
    (JavaScript's `Array.prototype.filter`) and `String.prototype.split` on a
    single character together with its inverse. */
module Common {

  /** A value that may be absent (`undefined` in the extension). */
  datatype Option<+T> = None | Some(value: T)

  /** Keeps, in their original order, the elements of `xs` that satisfy `p`. */
  function Filter<T(!new)>(xs: seq<T>, p: T -> bool): (r: seq<T>)
    ensures |r| <= |xs|
    ensures forall i :: 0 <= i < |r| ==> p(r[i])
    ensures forall x :: x in r <==> x in xs && p(x)
  {
    if xs == [] then []
    else (if p(xs[0]) then [xs[0]] else []) + Filter(xs[1..], p)
  }

  /** Filtering distributes over concatenation, so the filter never reorders:
      what survives from a prefix comes before what survives from the rest. */
  lemma {:induction false} FilterAppend<T(!new)>(a: seq<T>, b: seq<T>, p: T -> bool)
    ensures Filter(a + b, p) == Filter(a, p) + Filter(b, p)
  {
    if a == [] {
      assert a + b == b;
    } else {
      assert (a + b)[1..] == a[1..] + b;
      FilterAppend(a[1..], b, p);
    }
  }

  /** A non-empty sequence is its head followed by its tail, also when
      something is appended. */
  lemma SplitHead<T>(a: seq<T>, b: seq<T>)
    requires a != []
    ensures a == [a[0]] + a[1..] && a + b == [a[0]] + (a[1..] + b)
  {
  }

  /** Concatenation is associative. Stated once here so that proofs about
      recursive string functions can regroup a concatenation without
      the solver searching for it among their definitions. */
  lemma AppendAssoc<T>(x: seq<T>, y: seq<T>, z: seq<T>)
    ensures x + (y + z) == (x + y) + z
  {
  }

  /** A prefix of a suffix is a slice, and the suffix is read at an offset. */
  lemma SliceOfSuffix<T>(s: seq<T>, i: nat, m: nat)
    requires i + m <= |s|
    ensures s[i..][..m] == s[i..i + m]
    ensures forall k :: i <= k < |s| ==> s[i..][k - i] == s[k]
  {
  }

  /** A single element is kept exactly when it passes. */
  lemma FilterSingle<T(!new)>(x: T, p: T -> bool)
    ensures Filter([x], p) == if p(x) then [x] else []
  {
    assert [x][1..] == [];
  }

  /** A filter that rejects every element of `xs` keeps nothing. */
  lemma {:induction false} FilterNone<T(!new)>(xs: seq<T>, p: T -> bool)
    requires forall i :: 0 <= i < |xs| ==> !p(xs[i])
    ensures Filter(xs, p) == []
  {
    if xs != [] {
      FilterNone(xs[1..], p);
    }
  }

  /** A filter that accepts every element of `xs` keeps all of it. */
  /** One rejected element between two runs of kept ones is all that goes. */
  lemma FilterDropsOne<T(!new)>(x: seq<T>, c: T, y: seq<T>, p: T -> bool)
    requires forall i :: 0 <= i < |x| ==> p(x[i])
    requires forall i :: 0 <= i < |y| ==> p(y[i])
    requires !p(c)
    ensures Filter(x + ([c] + y), p) == x + y
  {
    var cy := [c] + y;
    assert Filter(cy, p) == y by {
      FilterAppend([c], y, p);
      FilterSingle(c, p);
      FilterAll(y, p);
      assert [] + y == y;
    }
    FilterAppend(x, cy, p);
    FilterAll(x, p);
  }

  lemma {:induction false} FilterAll<T(!new)>(xs: seq<T>, p: T -> bool)
    requires forall i :: 0 <= i < |xs| ==> p(xs[i])
    ensures Filter(xs, p) == xs
  {
    if xs != [] {
      FilterAll(xs[1..], p);
    }
  }

  /** A weaker predicate keeps at least as much, and strictly more when it
      accepts some element the stronger one rejects. */
  lemma {:induction false} FilterWeaker<T(!new)>(xs: seq<T>, p: T -> bool, q: T -> bool)
    requires forall i :: 0 <= i < |xs| ==> p(xs[i]) ==> q(xs[i])
    ensures |Filter(xs, p)| <= |Filter(xs, q)|
    ensures (exists i :: 0 <= i < |xs| && q(xs[i]) && !p(xs[i])) ==> |Filter(xs, p)| < |Filter(xs, q)|
  {
    if xs != [] {
      FilterWeaker(xs[1..], p, q);
      if exists i :: 0 <= i < |xs| && q(xs[i]) && !p(xs[i]) {
        var i :| 0 <= i < |xs| && q(xs[i]) && !p(xs[i]);
        if i > 0 {
          assert xs[1..][i - 1] == xs[i];
        }
      }
    }
  }

  /** Two predicates that agree on every element of `xs` filter it alike. */
  lemma {:induction false} FilterCongruent<T(!new)>(xs: seq<T>, p: T -> bool, q: T -> bool)
    requires forall i :: 0 <= i < |xs| ==> (p(xs[i]) <==> q(xs[i]))
    ensures Filter(xs, p) == Filter(xs, q)
  {
    if xs != [] {
      FilterCongruent(xs[1..], p, q);
    }
  }

  /** `f` applied to each element of `xs`, the results concatenated in
      order. */
  function FlatMap<A, B>(xs: seq<A>, f: A -> seq<B>): (r: seq<B>)
  {
    if xs == [] then [] else f(xs[0]) + FlatMap(xs[1..], f)
  }

  lemma {:induction false} FlatMapAppend<A, B>(a: seq<A>, b: seq<A>, f: A -> seq<B>)
    ensures FlatMap(a + b, f) == FlatMap(a, f) + FlatMap(b, f)
  {
    if a == [] {
      assert a + b == b;
    } else {
      assert (a + b)[0] == a[0] && (a + b)[1..] == a[1..] + b;
      FlatMapAppend(a[1..], b, f);
    }
  }

  /** An element of the result comes from the image of some element. */
  lemma {:induction false} FlatMapMembers<A, B>(xs: seq<A>, f: A -> seq<B>)
    ensures forall y :: y in FlatMap(xs, f) <==> exists i :: 0 <= i < |xs| && y in f(xs[i])
  {
    if xs != [] {
      FlatMapMembers(xs[1..], f);
      assert forall i :: 1 <= i < |xs| ==> xs[i] == xs[1..][i - 1];
      forall y | exists i :: 0 <= i < |xs| && y in f(xs[i])
        ensures y in FlatMap(xs, f)
      {
        var i :| 0 <= i < |xs| && y in f(xs[i]);
        if i > 0 {
          assert y in f(xs[1..][i - 1]);
        }
      }
    }
  }

  /** Index of the first `d` in `s`, or `|s|` when there is none. */
  function IndexOf(s: string, d: char): (k: nat)
    ensures k <= |s|
    ensures k < |s| ==> s[k] == d
    ensures forall j :: 0 <= j < k ==> s[j] != d
  {
    if s == [] then 0
    else if s[0] == d then 0
    else 1 + IndexOf(s[1..], d)
  }

  /** `parts.join(d)`. */
  function Join(parts: seq<string>, d: char): (s: string)
  {
    if |parts| == 0 then ""
    else if |parts| == 1 then parts[0]
    else parts[0] + [d] + Join(parts[1..], d)
  }

  /** `s.split(d)` for a one-character separator: always at least one piece
      (the empty string splits into `[""]`), no piece contains `d`, and joining
      the pieces back with `d` gives `s`. */
  function Split(s: string, d: char): (parts: seq<string>)
    ensures |parts| >= 1
    ensures forall i :: 0 <= i < |parts| ==> d !in parts[i]
    ensures Join(parts, d) == s
    decreases |s|
  {
    var k := IndexOf(s, d);
    if k == |s| then [s]
    else
      var rest := Split(s[k + 1..], d);
      assert s == s[..k] + [d] + s[k + 1..];
      [s[..k]] + rest
  }

  /** The other half of the round trip: splitting a join of separator-free
      pieces gives the pieces back. */
  lemma {:induction false} SplitJoin(parts: seq<string>, d: char)
    requires |parts| >= 1
    requires forall i :: 0 <= i < |parts| ==> d !in parts[i]
    ensures Split(Join(parts, d), d) == parts
    decreases |parts|
  {
    if |parts| == 1 {
      IndexOfAbsent(parts[0], d);
    } else {
      SplitAt(parts[0], Join(parts[1..], d), d);
      SplitJoin(parts[1..], d);
      assert parts == [parts[0]] + parts[1..];
    }
  }

  /** Splitting at the first separator: the piece before it, then the
      pieces of the rest. */
  lemma SplitAt(a: string, tail: string, d: char)
    requires d !in a
    ensures Split(a + [d] + tail, d) == [a] + Split(tail, d)
  {
    var s := a + [d] + tail;
    IndexOfAt(a, [d] + tail, d);
    assert s == a + ([d] + tail);
    assert s[|a| + 1..] == tail;
    assert s[..|a|] == a;
  }

  lemma IndexOfAbsent(s: string, d: char)
    requires d !in s
    ensures IndexOf(s, d) == |s|
  {
    if s != [] {
      assert s[0] != d;
      assert d !in s[1..];
      IndexOfAbsent(s[1..], d);
    }
  }

  lemma IndexOfAt(a: string, b: string, d: char)
    requires d !in a
    requires b != [] && b[0] == d
    ensures IndexOf(a + b, d) == |a|
  {
    var k := IndexOf(a + b, d);
    assert (a + b)[|a|] == d;
    assert forall j :: 0 <= j < |a| ==> (a + b)[j] == a[j];
  }

  /** `s.startsWith(prefix)`. */
  predicate StartsWith(s: string, prefix: string)
  {
    |prefix| <= |s| && s[..|prefix|] == prefix
  }
}
