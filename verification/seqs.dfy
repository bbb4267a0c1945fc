/** Sequence helpers shared by the model: LINQ's Where, Distinct and SelectMany on sequences. */
module Seqs {

  /** The elements of `xs` satisfying `p`, in their original order (LINQ `Where`). */
  function Filter<T(!new)>(p: T -> bool, xs: seq<T>): (r: seq<T>)
    ensures |r| <= |xs|
    ensures forall x :: x in r <==> x in xs && p(x)
    ensures forall i :: 0 <= i < |r| ==> p(r[i])
    decreases |xs|
  {
    if |xs| == 0 then []
    else (if p(xs[0]) then [xs[0]] else []) + Filter(p, xs[1..])
  }

  /** Filtering distributes over concatenation. */
  lemma {:induction false} FilterAppend<T(!new)>(p: T -> bool, a: seq<T>, b: seq<T>)
    ensures Filter(p, a + b) == Filter(p, a) + Filter(p, b)
    decreases |a|
  {
    if |a| == 0 {
      assert a + b == b;
    } else {
      assert (a + b)[1..] == a[1..] + b;
      FilterAppend(p, a[1..], b);
    }
  }

  /** Filtering with a predicate every element meets keeps the whole sequence. */
  lemma {:induction false} FilterAll<T(!new)>(p: T -> bool, xs: seq<T>)
    requires forall i :: 0 <= i < |xs| ==> p(xs[i])
    ensures Filter(p, xs) == xs
    decreases |xs|
  {
    if |xs| > 0 {
      FilterAll(p, xs[1..]);
      assert [xs[0]] + xs[1..] == xs;
    }
  }

  /** No value occurs twice. */
  predicate NoDuplicates<T(==)>(xs: seq<T>)
  {
    forall i, j :: 0 <= i < j < |xs| ==> xs[i] != xs[j]
  }

  /** Of any two values of `r`, the earlier one occurs in `xs` before every
      occurrence of the later one. */
  predicate InFirstOccurrenceOrder<T(==)>(r: seq<T>, xs: seq<T>)
  {
    forall i, j, q :: 0 <= i < j < |r| && 0 <= q < |xs| && xs[q] == r[j] ==> r[i] in xs[..q]
  }

  /** The distinct values of `xs`, ordered by first occurrence (LINQ `Distinct`,
      and the key order of `GroupBy`). */
  function Distinct<T(==,!new)>(xs: seq<T>): (r: seq<T>)
    ensures NoDuplicates(r)
    ensures forall x :: x in r <==> x in xs
    ensures InFirstOccurrenceOrder(r, xs)
    ensures |r| <= |xs|
    decreases |xs|
  {
    if |xs| == 0 then []
    else
      var init := xs[..|xs| - 1];
      var d := Distinct(init);
      var x := xs[|xs| - 1];
      assert init + [x] == xs;
      if x in d then
        DistinctOrderExtends(d, init, x);
        d
      else
        DistinctOrderAppends(d, init, x);
        d + [x]
  }

  /** Appending to the source keeps an order found in its prefix. */
  lemma DistinctOrderExtends<T>(d: seq<T>, init: seq<T>, x: T)
    requires InFirstOccurrenceOrder(d, init)
    requires forall y :: y in d ==> y in init
    ensures InFirstOccurrenceOrder(d, init + [x])
  {
    var xs := init + [x];
    forall i, j, q | 0 <= i < j < |d| && 0 <= q < |xs| && xs[q] == d[j]
      ensures d[i] in xs[..q]
    {
      if q < |init| {
        assert xs[..q] == init[..q];
        assert init[q] == d[j];
      } else {
        assert xs[..q] == init;
      }
    }
  }

  /** A value new to the source goes after every value already found. */
  lemma DistinctOrderAppends<T>(d: seq<T>, init: seq<T>, x: T)
    requires InFirstOccurrenceOrder(d, init)
    requires forall y :: y in d ==> y in init
    requires x !in init
    ensures InFirstOccurrenceOrder(d + [x], init + [x])
  {
    var xs := init + [x];
    var r := d + [x];
    forall i, j, q | 0 <= i < j < |r| && 0 <= q < |xs| && xs[q] == r[j]
      ensures r[i] in xs[..q]
    {
      assert r[i] == d[i];
      if j < |d| {
        assert r[j] == d[j];
        if q < |init| {
          assert xs[..q] == init[..q];
          assert init[q] == d[j];
        }
      } else {
        assert r[j] == x;
        assert q == |init|;
        assert xs[..q] == init;
      }
    }
  }

  /** A sequence that already has no duplicates is its own `Distinct`. */
  lemma {:induction false} DistinctOfNoDuplicates<T(!new)>(xs: seq<T>)
    requires NoDuplicates(xs)
    ensures Distinct(xs) == xs
    decreases |xs|
  {
    if |xs| > 0 {
      var init := xs[..|xs| - 1];
      assert NoDuplicates(init);
      DistinctOfNoDuplicates(init);
      assert xs[|xs| - 1] !in init;
      assert init + [xs[|xs| - 1]] == xs;
    }
  }

  /** A non-empty sequence of one repeated value has that value as its only distinct value. */
  lemma {:induction false} DistinctOfConstant<T(!new)>(xs: seq<T>, v: T)
    requires |xs| >= 1
    requires forall i :: 0 <= i < |xs| ==> xs[i] == v
    ensures Distinct(xs) == [v]
    decreases |xs|
  {
    if |xs| > 1 {
      DistinctOfConstant(xs[..|xs| - 1], v);
    }
  }

  /** Concatenation of a sequence of sequences (LINQ `SelectMany`). */
  function Flatten<T(!new)>(xss: seq<seq<T>>): (r: seq<T>)
    ensures forall i, x :: 0 <= i < |xss| && x in xss[i] ==> x in r
    ensures forall x :: x in r ==> exists i :: 0 <= i < |xss| && x in xss[i]
    decreases |xss|
  {
    if |xss| == 0 then [] else xss[0] + Flatten(xss[1..])
  }

  /** Flattening distributes over concatenation. */
  lemma {:induction false} FlattenAppend<T(!new)>(a: seq<seq<T>>, b: seq<seq<T>>)
    ensures Flatten(a + b) == Flatten(a) + Flatten(b)
    decreases |a|
  {
    if |a| == 0 {
      assert a + b == b;
    } else {
      assert (a + b)[1..] == a[1..] + b;
      FlattenAppend(a[1..], b);
    }
  }

  /** `ys` is `xs` mapped through `f` (LINQ `Select`). */
  predicate IsMapOf<A, B(==)>(f: A -> B, ys: seq<B>, xs: seq<A>)
  {
    |ys| == |xs| && forall i :: 0 <= i < |ys| ==> ys[i] == f(xs[i])
  }
}
