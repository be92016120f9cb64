/** Sequence utilities shared by the product page: the order-preserving
    `filter` of JavaScript arrays and the subsequence relation it produces. */
module Seqs {

  /** `a` can be obtained from `b` by deleting elements, keeping the order. */
  predicate IsSubsequence<T(==,!new)>(a: seq<T>, b: seq<T>)
    decreases |b|
  {
    |a| == 0
    || (|b| > 0 && ((a[0] == b[0] && IsSubsequence(a[1..], b[1..])) || IsSubsequence(a, b[1..])))
  }

  /** `xs.filter(keep)`: the elements of `xs` for which `keep` holds, in their
      original order. */
  function Filter<T(==,!new)>(xs: seq<T>, keep: T -> bool): (r: seq<T>)
    ensures |r| <= |xs|
    ensures forall i :: 0 <= i < |r| ==> keep(r[i])
  {
    if |xs| == 0 then []
    else (if keep(xs[0]) then [xs[0]] else []) + Filter(xs[1..], keep)
  }

  /** Every occurrence of a kept value survives the filter, and nothing else
      does. */
  lemma {:induction false} FilterCounts<T(!new)>(xs: seq<T>, keep: T -> bool)
    ensures forall x :: multiset(Filter(xs, keep))[x] == if keep(x) then multiset(xs)[x] else 0
    decreases |xs|
  {
    if |xs| > 0 {
      assert xs == [xs[0]] + xs[1..];
      FilterCounts(xs[1..], keep);
    }
  }

  /** A value is in the filtered sequence iff it is in the input and passes
      the test. */
  lemma FilterMembers<T(!new)>(xs: seq<T>, keep: T -> bool)
    ensures forall x :: x in Filter(xs, keep) <==> x in xs && keep(x)
  {
    var r := Filter(xs, keep);
    FilterCounts(xs, keep);
    forall x ensures x in r <==> x in xs && keep(x) {
      assert x in r <==> x in multiset(r);
      assert x in xs <==> x in multiset(xs);
    }
  }

  /** Unfolding `Filter` on a sequence written as head and tail. */
  lemma FilterCons<T(!new)>(x: T, xs: seq<T>, keep: T -> bool)
    ensures Filter([x] + xs, keep) == (if keep(x) then [x] else []) + Filter(xs, keep)
  {
    assert ([x] + xs)[1..] == xs;
  }

  /** Filtering distributes over concatenation. */
  lemma {:induction false} FilterConcat<T(!new)>(a: seq<T>, b: seq<T>, keep: T -> bool)
    ensures Filter(a + b, keep) == Filter(a, keep) + Filter(b, keep)
    decreases |a|
  {
    if |a| == 0 {
      assert a + b == b;
    } else {
      var head := if keep(a[0]) then [a[0]] else [];
      calc {
        Filter(a + b, keep);
        { assert (a + b)[0] == a[0] && (a + b)[1..] == a[1..] + b; }
        head + Filter(a[1..] + b, keep);
        { FilterConcat(a[1..], b, keep); }
        head + (Filter(a[1..], keep) + Filter(b, keep));
        (head + Filter(a[1..], keep)) + Filter(b, keep);
        Filter(a, keep) + Filter(b, keep);
      }
    }
  }

  /** The result of a filter keeps the relative order of the input. */
  lemma {:induction false} FilterIsSubsequence<T(!new)>(xs: seq<T>, keep: T -> bool)
    ensures IsSubsequence(Filter(xs, keep), xs)
    decreases |xs|
  {
    if |xs| > 0 {
      FilterIsSubsequence(xs[1..], keep);
      var r := Filter(xs, keep);
      if keep(xs[0]) {
        assert r[0] == xs[0] && r[1..] == Filter(xs[1..], keep);
      } else {
        assert r == Filter(xs[1..], keep);
      }
    }
  }

  /** Filtering with a test every element passes changes nothing. */
  lemma {:induction false} FilterAllKept<T(!new)>(xs: seq<T>, keep: T -> bool)
    requires forall i :: 0 <= i < |xs| ==> keep(xs[i])
    ensures Filter(xs, keep) == xs
    decreases |xs|
  {
    if |xs| > 0 {
      FilterAllKept(xs[1..], keep);
    }
  }

  /** Filters with tests that agree on every element agree. */
  lemma {:induction false} FilterSameTest<T(!new)>(xs: seq<T>, f: T -> bool, g: T -> bool)
    requires forall i :: 0 <= i < |xs| ==> f(xs[i]) == g(xs[i])
    ensures Filter(xs, f) == Filter(xs, g)
    decreases |xs|
  {
    if |xs| > 0 {
      FilterSameTest(xs[1..], f, g);
    }
  }

  /** Filtering twice with the same test is filtering once. */
  lemma FilterIdempotent<T(!new)>(xs: seq<T>, keep: T -> bool)
    ensures Filter(Filter(xs, keep), keep) == Filter(xs, keep)
  {
    FilterAllKept(Filter(xs, keep), keep);
  }

  /** A subsequence has no more occurrences of any value than the sequence. */
  lemma {:induction false} SubsequenceMultiset<T(!new)>(a: seq<T>, b: seq<T>)
    requires IsSubsequence(a, b)
    ensures multiset(a) <= multiset(b)
    decreases |b|
  {
    if |a| > 0 {
      assert b == [b[0]] + b[1..];
      if a[0] == b[0] && IsSubsequence(a[1..], b[1..]) {
        SubsequenceMultiset(a[1..], b[1..]);
        assert a == [a[0]] + a[1..];
      } else {
        SubsequenceMultiset(a, b[1..]);
      }
    }
  }

  /** `Filter` is the only order-preserving selection of exactly the
      occurrences that pass the test: any subsequence of `xs` holding every
      passing occurrence and nothing else is `Filter(xs, keep)`. */
  lemma {:induction false} FilterUnique<T(!new)>(r: seq<T>, xs: seq<T>, keep: T -> bool)
    requires IsSubsequence(r, xs)
    requires forall x :: multiset(r)[x] == if keep(x) then multiset(xs)[x] else 0
    ensures r == Filter(xs, keep)
    decreases |xs|
  {
    FilterCounts(xs, keep);
    if |xs| == 0 {
      assert |multiset(r)| == 0;
    } else {
      var x, t := xs[0], xs[1..];
      assert xs == [x] + t;
      if |r| > 0 && r[0] == x && IsSubsequence(r[1..], t) {
        assert r == [x] + r[1..];
        assert keep(x) by {
          assert multiset(r)[x] > 0;
        }
        forall y
          ensures multiset(r[1..])[y] == if keep(y) then multiset(t)[y] else 0
        {
          assert multiset(r)[y] == multiset(r[1..])[y] + (if y == x then 1 else 0);
          assert multiset(xs)[y] == multiset(t)[y] + (if y == x then 1 else 0);
        }
        FilterUnique(r[1..], t, keep);
        FilterCons(x, t, keep);
      } else {
        assert IsSubsequence(r, t);
        SubsequenceMultiset(r, t);
        assert !keep(x);
        forall y
          ensures multiset(r)[y] == if keep(y) then multiset(t)[y] else 0
        {
          assert multiset(xs)[y] == multiset(t)[y] + (if y == x then 1 else 0);
        }
        FilterUnique(r, t, keep);
        FilterCons(x, t, keep);
      }
    }
  }
}
