/** Sequence operations shared by the nearby-suburb modules (Ramda's `reject`/`equals`
    and `take`). */
module Seqs {

  /** `R.reject(R.equals(item), s)`: every element structurally equal to `item` is dropped,
      the others are kept in their original order. */
  function Without<T(==,!new)>(item: T, s: seq<T>): (r: seq<T>)
    ensures item !in r
    ensures forall x {:trigger multiset(r)[x]} :: x != item ==> multiset(r)[x] == multiset(s)[x]
    ensures |r| == |s| - multiset(s)[item]
    ensures forall x {:trigger x in r} :: x in r <==> x in s && x != item
  {
    if s == [] then []
    else
      assert s == [s[0]] + s[1..];
      if s[0] == item then Without(item, s[1..]) else [s[0]] + Without(item, s[1..])
  }

  /** Filtering distributes over concatenation: the relative order of the kept elements
      is that of the input. */
  lemma {:induction false} WithoutConcat<T(!new)>(item: T, a: seq<T>, b: seq<T>)
    ensures Without(item, a + b) == Without(item, a) + Without(item, b)
  {
    if a == [] {
      assert a + b == b;
    } else {
      assert (a + b)[1..] == a[1..] + b;
      WithoutConcat(item, a[1..], b);
    }
  }

  /** Nothing is removed from a sequence that does not hold `item`. */
  lemma {:induction false} WithoutAbsent<T(!new)>(item: T, s: seq<T>)
    requires item !in s
    ensures Without(item, s) == s
  {
    if s != [] {
      WithoutAbsent(item, s[1..]);
    }
  }

  /** Every element that belongs to `vals` is dropped, the others are kept in order. */
  function WithoutAll<T(==,!new)>(vals: set<T>, s: seq<T>): (r: seq<T>)
    ensures forall x {:trigger x in r} :: x in r <==> x in s && x !in vals
  {
    if s == [] then []
    else if s[0] in vals then WithoutAll(vals, s[1..])
    else [s[0]] + WithoutAll(vals, s[1..])
  }

  /** Nothing is removed when no element belongs to `vals`. */
  lemma {:induction false} WithoutAllNone<T(!new)>(vals: set<T>, s: seq<T>)
    requires forall x :: x in s ==> x !in vals
    ensures WithoutAll(vals, s) == s
  {
    if s != [] {
      WithoutAllNone(vals, s[1..]);
    }
  }

  /** Removing one more value from a filtered sequence filters by the larger set. */
  lemma {:induction false} WithoutOfWithoutAll<T(!new)>(v: T, vals: set<T>, s: seq<T>)
    ensures Without(v, WithoutAll(vals, s)) == WithoutAll(vals + {v}, s)
  {
    if s != [] {
      WithoutOfWithoutAll(v, vals, s[1..]);
    }
  }

  /** `R.take(n, s)`: the first `n` elements, or all of them when there are fewer. */
  function Take<T>(s: seq<T>, n: nat): (r: seq<T>)
    ensures |r| == if n <= |s| then n else |s|
    ensures forall i :: 0 <= i < |r| ==> r[i] == s[i]
  {
    if n <= |s| then s[..n] else s
  }
}
