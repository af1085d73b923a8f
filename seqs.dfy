/** Counting and first-occurrence facts about sequences, shared by the
    per-document accumulation and the aggregation tables. */
module Seqs {

  /** Number of occurrences of x in xs. */
  function Count<T(==)>(xs: seq<T>, x: T): nat
  {
    if xs == [] then 0
    else Count(xs[..|xs| - 1], x) + (if xs[|xs| - 1] == x then 1 else 0)
  }

  predicate Distinct<T(==)>(xs: seq<T>)
  {
    forall i, j :: 0 <= i < j < |xs| ==> xs[i] != xs[j]
  }

  /** Position of the first occurrence of x in xs. */
  function IndexOf<T(==)>(xs: seq<T>, x: T): (i: nat)
    requires x in xs
    ensures i < |xs| && xs[i] == x && x !in xs[..i]
  {
    if xs[0] == x then 0
    else
      assert x in xs[1..] by { var k :| 0 <= k < |xs| && xs[k] == x; assert xs[1..][k - 1] == x; }
      1 + IndexOf(xs[1..], x)
  }

  /** The distinct elements of xs, each placed where it first occurs: the
      order in which a Python dict keeps keys inserted in that sequence. */
  function FirstSeen<T(==,!new)>(xs: seq<T>): (r: seq<T>)
    ensures Distinct(r)
    ensures forall x :: x in r <==> x in xs
  {
    if xs == [] then []
    else
      var init := xs[..|xs| - 1];
      assert xs == init + [xs[|xs| - 1]];
      if xs[|xs| - 1] in init then FirstSeen(init) else FirstSeen(init) + [xs[|xs| - 1]]
  }

  /** f(x) for every x of xs, joined in order. */
  function FlatMap<A, B>(xs: seq<A>, f: A -> seq<B>): (r: seq<B>)
    ensures forall y :: y in r ==> exists x :: x in xs && y in f(x)
  {
    if xs == [] then [] else FlatMap(xs[..|xs| - 1], f) + f(xs[|xs| - 1])
  }

  lemma {:induction false} FlatMapAppend<A, B>(a: seq<A>, b: seq<A>, f: A -> seq<B>)
    ensures FlatMap(a + b, f) == FlatMap(a, f) + FlatMap(b, f)
    decreases |b|
  {
    if b == [] {
      assert a + b == a;
    } else {
      var init := b[..|b| - 1];
      assert (a + b)[..|a + b| - 1] == a + init;
      assert (a + b)[|a + b| - 1] == b[|b| - 1];
      FlatMapAppend(a, init, f);
    }
  }

  /** Sum, over the keys ks, of the occurrences of each key in xs. */
  function SumCounts<T(==)>(xs: seq<T>, ks: seq<T>): nat
  {
    if ks == [] then 0
    else SumCounts(xs, ks[..|ks| - 1]) + Count(xs, ks[|ks| - 1])
  }

  /** x occurs in xs exactly when it is counted there. */
  lemma {:induction false} CountPositive<T>(xs: seq<T>, x: T)
    ensures Count(xs, x) > 0 <==> x in xs
    decreases |xs|
  {
    if xs != [] {
      var init := xs[..|xs| - 1];
      assert xs == init + [xs[|xs| - 1]];
      CountPositive(init, x);
    }
  }

  lemma {:induction false} CountAppend<T>(a: seq<T>, b: seq<T>, x: T)
    ensures Count(a + b, x) == Count(a, x) + Count(b, x)
    decreases |b|
  {
    if b == [] {
      assert a + b == a;
    } else {
      var b' := b[..|b| - 1];
      assert (a + b)[..|a + b| - 1] == a + b';
      CountAppend(a, b', x);
    }
  }

  /** A key that occurs in a sequence of distinct keys occurs there exactly once. */
  lemma {:induction false} CountDistinct<T>(ks: seq<T>, x: T)
    requires Distinct(ks)
    ensures Count(ks, x) == (if x in ks then 1 else 0)
    decreases |ks|
  {
    if ks != [] {
      var init := ks[..|ks| - 1];
      assert ks == init + [ks[|ks| - 1]];
      CountDistinct(init, x);
      assert forall i :: 0 <= i < |init| ==> init[i] != ks[|ks| - 1];
    }
  }

  lemma {:induction false} SumCountsSnoc<T>(xs: seq<T>, x: T, ks: seq<T>)
    ensures SumCounts(xs + [x], ks) == SumCounts(xs, ks) + Count(ks, x)
    decreases |ks|
  {
    if ks != [] {
      SumCountsSnoc(xs, x, ks[..|ks| - 1]);
      assert (xs + [x])[..|xs + [x]| - 1] == xs;
    }
  }

  /** Adding up, over a list of distinct keys that covers every element,
      how often each key occurs, gives the length of the sequence. */
  lemma {:induction false} SumCountsCoverAll<T>(xs: seq<T>, ks: seq<T>)
    requires Distinct(ks)
    requires forall x :: x in xs ==> x in ks
    ensures SumCounts(xs, ks) == |xs|
    decreases |xs|
  {
    if xs == [] {
      SumCountsEmpty(ks);
    } else {
      var init := xs[..|xs| - 1];
      assert xs == init + [xs[|xs| - 1]];
      SumCountsCoverAll(init, ks);
      SumCountsSnoc(init, xs[|xs| - 1], ks);
      CountDistinct(ks, xs[|xs| - 1]);
    }
  }

  lemma {:induction false} SumCountsEmpty<T>(ks: seq<T>)
    ensures SumCounts([], ks) == 0
    decreases |ks|
  {
    if ks != [] {
      SumCountsEmpty(ks[..|ks| - 1]);
    }
  }

  /** A sequence without repetitions has as many elements as the set of its elements. */
  lemma {:induction false} DistinctCardinality<T>(xs: seq<T>)
    requires Distinct(xs)
    ensures |set x | x in xs| == |xs|
    decreases |xs|
  {
    if xs != [] {
      var init := xs[..|xs| - 1];
      var last := xs[|xs| - 1];
      DistinctCardinality(init);
      assert (set x | x in xs) == (set x | x in init) + {last};
      assert forall i :: 0 <= i < |init| ==> init[i] != last;
    }
  }

  /** The first occurrence is the only position holding x with no x before it. */
  lemma {:induction false} IndexOfUnique<T>(xs: seq<T>, x: T, k: nat)
    requires k < |xs| && xs[k] == x && x !in xs[..k]
    ensures IndexOf(xs, x) == k
    decreases k
  {
    if k > 0 {
      assert xs[0] == xs[..k][0];
      assert xs[1..][..k - 1] == xs[..k][1..];
      IndexOfUnique(xs[1..], x, k - 1);
    }
  }

  lemma IndexOfPrefix<T>(a: seq<T>, b: seq<T>, x: T)
    requires x in a
    ensures IndexOf(a + b, x) == IndexOf(a, x)
  {
    var k := IndexOf(a, x);
    assert (a + b)[..k] == a[..k];
    IndexOfUnique(a + b, x, k);
  }

  /** FirstSeen lists keys in the order of their first occurrences. */
  lemma {:induction false} FirstSeenOrder<T(!new)>(xs: seq<T>, i: nat, j: nat)
    requires i < j < |FirstSeen(xs)|
    ensures IndexOf(xs, FirstSeen(xs)[i]) < IndexOf(xs, FirstSeen(xs)[j])
    decreases |xs|
  {
    var init := xs[..|xs| - 1];
    var last := xs[|xs| - 1];
    assert xs == init + [last];
    var fs := FirstSeen(init);
    assert FirstSeen(xs)[i] in fs && FirstSeen(xs)[i] == fs[i];
    IndexOfPrefix(init, [last], fs[i]);
    if j < |fs| {
      assert FirstSeen(xs)[j] == fs[j];
      IndexOfPrefix(init, [last], fs[j]);
      FirstSeenOrder(init, i, j);
    } else {
      assert last !in init && FirstSeen(xs)[j] == last;
      assert xs[|init|] == last;
      assert xs[..|init|] == init;
      IndexOfUnique(xs, last, |init|);
    }
  }
}
