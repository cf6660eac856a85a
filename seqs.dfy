/**
  Order-preserving filtering of a list, the shape of a `Clear()` followed by a
  `foreach` that calls `Add` on the elements that pass a test. The function
  is defined on the last element so that it follows such a loop exactly.
 */
module Seqs {

  function Filter<T>(s: seq<T>, p: T -> bool): (r: seq<T>)
    ensures |r| <= |s|
    ensures forall x :: x in r ==> x in s && p(x)
    decreases |s|
  {
    if s == [] then []
    else
      var init := Filter(s[..|s| - 1], p);
      if p(s[|s| - 1]) then init + [s[|s| - 1]] else init
  }

  /** One more loop step: the next element is kept exactly when it passes. */
  lemma FilterSnoc<T>(s: seq<T>, x: T, p: T -> bool)
    ensures Filter(s + [x], p) == Filter(s, p) + (if p(x) then [x] else [])
  {
    assert (s + [x])[..|s|] == s;
  }

  /** Filtering distributes over concatenation, so it keeps the input's order. */
  lemma {:induction false} FilterAppend<T>(a: seq<T>, b: seq<T>, p: T -> bool)
    ensures Filter(a + b, p) == Filter(a, p) + Filter(b, p)
    decreases |b|
  {
    if b == [] {
      assert a + b == a;
    } else {
      var b', x := b[..|b| - 1], b[|b| - 1];
      var tail := if p(x) then [x] else [];
      calc {
        Filter(a + b, p);
        { assert a + b == (a + b') + [x]; }
        Filter((a + b') + [x], p);
        { FilterSnoc(a + b', x, p); }
        Filter(a + b', p) + tail;
        { FilterAppend(a, b', p); }
        Filter(a, p) + (Filter(b', p) + tail);
        { FilterSnoc(b', x, p); }
        Filter(a, p) + Filter(b' + [x], p);
        { assert b' + [x] == b; }
        Filter(a, p) + Filter(b, p);
      }
    }
  }

  /** Each value is kept as often as it occurs, when it passes, and never otherwise. */
  lemma {:induction false} FilterMultiplicity<T>(s: seq<T>, p: T -> bool, x: T)
    ensures multiset(Filter(s, p))[x] == if p(x) then multiset(s)[x] else 0
    decreases |s|
  {
    if s != [] {
      var s' := s[..|s| - 1];
      assert s == s' + [s[|s| - 1]];
      FilterMultiplicity(s', p, x);
    }
  }

  /** Membership in the result is exactly membership in the input plus the test. */
  lemma FilterMembership<T>(s: seq<T>, p: T -> bool, x: T)
    ensures x in Filter(s, p) <==> x in s && p(x)
  {
    FilterMultiplicity(s, p, x);
    assert x in Filter(s, p) <==> multiset(Filter(s, p))[x] > 0;
    assert x in s <==> multiset(s)[x] > 0;
  }

  /** Filtering twice by the same test is filtering once. */
  lemma {:induction false} FilterIdempotent<T>(s: seq<T>, p: T -> bool)
    ensures Filter(Filter(s, p), p) == Filter(s, p)
    decreases |s|
  {
    if s != [] {
      var s' := s[..|s| - 1];
      var x := s[|s| - 1];
      FilterIdempotent(s', p);
      if p(x) {
        FilterSnoc(Filter(s', p), x, p);
      }
    }
  }

  /** Filtering a list none of whose elements pass gives the empty list. */
  lemma {:induction false} FilterNonePass<T>(s: seq<T>, p: T -> bool)
    requires forall k :: 0 <= k < |s| ==> !p(s[k])
    ensures Filter(s, p) == []
    decreases |s|
  {
    if s != [] {
      FilterNonePass(s[..|s| - 1], p);
    }
  }
}
