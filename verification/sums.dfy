/**
  Finite sums over sequences, and the fact the reporting code of the search programs
  relies on: reordering the summands (a sort, a different thread split) leaves the total unchanged.
 */
module Sums {

  function Sum(s: seq<int>): int
    decreases |s|
  {
    if s == [] then 0 else s[0] + Sum(s[1..])
  }

  lemma {:induction false} SumAppend(a: seq<int>, b: seq<int>)
    ensures Sum(a + b) == Sum(a) + Sum(b)
    decreases |a|
  {
    if a == [] {
      assert a + b == b;
    } else {
      assert (a + b)[1..] == a[1..] + b;
      SumAppend(a[1..], b);
    }
  }

  /** Taking the element at `i` out of a sequence takes one copy of it out of the multiset. */
  lemma RemoveOne<T>(b: seq<T>, i: nat)
    requires i < |b|
    ensures multiset(b) == multiset(b[..i] + b[i + 1..]) + multiset{b[i]}
  {
    assert b == b[..i] + [b[i]] + b[i + 1..];
  }

  /** Taking the summand at `i` out of a sum. */
  lemma SumRemove(b: seq<int>, i: nat)
    requires i < |b|
    ensures Sum(b) == b[i] + Sum(b[..i] + b[i + 1..])
  {
    var left, right := b[..i], b[i + 1..];
    assert b == left + ([b[i]] + right);
    assert ([b[i]] + right)[1..] == right;
    SumAppend(left, [b[i]] + right);
    SumAppend(left, right);
  }

  /** The first element of a sequence sits somewhere in any rearrangement of it, and the
      rest of the one is a rearrangement of the other without that element. */
  lemma MatchFirst<T>(a: seq<T>, b: seq<T>) returns (i: nat)
    requires a != [] && multiset(a) == multiset(b)
    ensures i < |b| && b[i] == a[0]
    ensures multiset(a[1..]) == multiset(b[..i] + b[i + 1..])
  {
    assert a[0] in multiset(b);
    i :| 0 <= i < |b| && b[i] == a[0];
    var restA, restB := multiset(a[1..]), multiset(b[..i] + b[i + 1..]);
    RemoveOne(a, 0);
    assert a[..0] + a[1..] == a[1..];
    assert multiset(a) == restA + multiset{a[0]};
    RemoveOne(b, i);
    assert multiset(b) == restB + multiset{a[0]};
    CancelOne(restA, restB, a[0]);
  }

  lemma CancelOne<T>(x: multiset<T>, y: multiset<T>, e: T)
    requires x + multiset{e} == y + multiset{e}
    ensures x == y
  {
    assert x == (x + multiset{e}) - multiset{e};
    assert y == (y + multiset{e}) - multiset{e};
  }

  /** A sum is invariant under permutation of its summands. */
  lemma {:induction false} SumPermutation(a: seq<int>, b: seq<int>)
    requires multiset(a) == multiset(b)
    ensures Sum(a) == Sum(b)
    decreases |a|
  {
    if a != [] {
      var i := MatchFirst(a, b);
      SumPermutation(a[1..], b[..i] + b[i + 1..]);
      SumRemove(b, i);
    }
  }

  /** Every summand of a sum of non-negative terms is at most the sum. */
  lemma {:induction false} SumBoundsTerms(s: seq<int>, i: int)
    requires forall j :: 0 <= j < |s| ==> s[j] >= 0
    requires 0 <= i < |s|
    ensures 0 <= s[i] <= Sum(s)
    decreases |s|
  {
    if i > 0 {
      SumBoundsTerms(s[1..], i - 1);
    } else if |s| > 1 {
      SumNonNegative(s[1..]);
    }
  }

  lemma {:induction false} SumNonNegative(s: seq<int>)
    requires forall j :: 0 <= j < |s| ==> s[j] >= 0
    ensures Sum(s) >= 0
    decreases |s|
  {
    if s != [] {
      SumNonNegative(s[1..]);
    }
  }
}
