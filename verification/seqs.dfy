/** Sequence operations the application performs through `Array.prototype`
    methods: `filter`, and `sort` with a comparator. */
module Seqs {

  /** `xs.filter(p)`: the elements satisfying `p`, in their original order. */
  function Filter<T(!new)>(xs: seq<T>, p: T -> bool): (r: seq<T>)
    ensures |r| <= |xs|
    ensures forall x :: x in r <==> x in xs && p(x)
    ensures forall k :: 0 <= k < |r| ==> p(r[k])
  {
    if |xs| == 0 then []
    else
      var rest := Filter(xs[1..], p);
      assert xs == [xs[0]] + xs[1..];
      if p(xs[0]) then [xs[0]] + rest else rest
  }

  /** Filtering only drops elements: no element occurs more often after it. */
  lemma {:induction false} FilterSubMultiset<T(!new)>(xs: seq<T>, p: T -> bool)
    ensures multiset(Filter(xs, p)) <= multiset(xs)
  {
    if |xs| > 0 {
      FilterSubMultiset(xs[1..], p);
      assert xs == [xs[0]] + xs[1..];
    }
  }

  lemma {:induction false} FilterConcat<T(!new)>(xs: seq<T>, ys: seq<T>, p: T -> bool)
    ensures Filter(xs + ys, p) == Filter(xs, p) + Filter(ys, p)
  {
    if |xs| == 0 {
      assert xs + ys == ys;
    } else {
      assert (xs + ys)[1..] == xs[1..] + ys;
      FilterConcat(xs[1..], ys, p);
    }
  }

  /** Filtering twice with the same predicate is filtering once. */
  lemma {:induction false} FilterIdempotent<T(!new)>(xs: seq<T>, p: T -> bool)
    ensures Filter(Filter(xs, p), p) == Filter(xs, p)
  {
    if |xs| > 0 {
      FilterIdempotent(xs[1..], p);
    }
  }

  /** Filtering keeps everything when every element qualifies. */
  lemma {:induction false} FilterAll<T(!new)>(xs: seq<T>, p: T -> bool)
    requires forall k :: 0 <= k < |xs| ==> p(xs[k])
    ensures Filter(xs, p) == xs
  {
    if |xs| > 0 {
      FilterAll(xs[1..], p);
      assert [xs[0]] + xs[1..] == xs;
    }
  }

  /** The elements that pass and the elements that fail a test together are
      a rearrangement of the input. */
  lemma {:induction false} FilterPartition<T(!new)>(xs: seq<T>, p: T -> bool, q: T -> bool)
    requires forall k :: 0 <= k < |xs| ==> q(xs[k]) == !p(xs[k])
    ensures multiset(Filter(xs, p)) + multiset(Filter(xs, q)) == multiset(xs)
  {
    if |xs| > 0 {
      var x, rest := xs[0], xs[1..];
      assert q(x) == !p(x);
      assert forall k :: 0 <= k < |rest| ==> rest[k] == xs[k + 1];
      FilterPartition(rest, p, q);
      assert multiset(xs) == multiset{x} + multiset(rest) by {
        assert xs == [x] + rest;
      }
      var a, b := multiset(Filter(rest, p)), multiset(Filter(rest, q));
      if p(x) {
        assert Filter(xs, p) == [x] + Filter(rest, p);
        assert Filter(xs, q) == Filter(rest, q);
        assert multiset(Filter(xs, p)) == multiset{x} + a;
      } else {
        assert Filter(xs, p) == Filter(rest, p);
        assert Filter(xs, q) == [x] + Filter(rest, q);
        assert multiset(Filter(xs, q)) == multiset{x} + b;
      }
      AddOneToEither(multiset{x}, a, b);
    }
  }

  /** Adding `u` to either side of a union adds it to the union. */
  lemma AddOneToEither<T>(u: multiset<T>, a: multiset<T>, b: multiset<T>)
    ensures (u + a) + b == u + (a + b)
    ensures a + (u + b) == u + (a + b)
  {
  }

  /** Filtering keeps nothing when no element qualifies. */
  lemma {:induction false} FilterNone<T(!new)>(xs: seq<T>, p: T -> bool)
    requires forall k :: 0 <= k < |xs| ==> !p(xs[k])
    ensures Filter(xs, p) == []
  {
    if |xs| > 0 {
      FilterNone(xs[1..], p);
    }
  }

  /** Filtering with a predicate that agrees with `p` on `xs` gives the same result. */
  lemma {:induction false} FilterCongruent<T(!new)>(xs: seq<T>, p: T -> bool, q: T -> bool)
    requires forall k :: 0 <= k < |xs| ==> p(xs[k]) == q(xs[k])
    ensures Filter(xs, p) == Filter(xs, q)
  {
    if |xs| > 0 {
      FilterCongruent(xs[1..], p, q);
    }
  }

  /** Filtering by a weaker test first changes nothing. */
  lemma {:induction false} FilterNarrow<T(!new)>(xs: seq<T>, q: T -> bool, p: T -> bool)
    requires forall x :: p(x) ==> q(x)
    ensures Filter(Filter(xs, q), p) == Filter(xs, p)
  {
    if |xs| > 0 {
      var x, rest := xs[0], xs[1..];
      FilterNarrow(rest, q, p);
      if q(x) {
        var fq := [x] + Filter(rest, q);
        assert Filter(xs, q) == fq;
        assert fq[0] == x && fq[1..] == Filter(rest, q);
        assert Filter(fq, p) == if p(x) then [x] + Filter(rest, p) else Filter(rest, p);
      } else {
        assert !p(x);
      }
    }
  }

  /** Every ordered pair of elements related by `rel`. */
  ghost predicate Pairwise<T>(xs: seq<T>, rel: (T, T) -> bool) {
    forall i, j :: 0 <= i < j < |xs| ==> rel(xs[i], xs[j])
  }

  lemma PairwiseCons<T>(x: T, ys: seq<T>, rel: (T, T) -> bool)
    requires Pairwise(ys, rel)
    requires forall y :: y in ys ==> rel(x, y)
    ensures Pairwise([x] + ys, rel)
  {
    var r := [x] + ys;
    forall i, j | 0 <= i < j < |r|
      ensures rel(r[i], r[j])
    {
      assert r[j] == ys[j - 1];
      if i > 0 {
        assert r[i] == ys[i - 1];
      }
    }
  }

  /** When any two elements passing `p` are unrelated by `rel`, a sequence
      whose ordered pairs are all related has at most one element passing. */
  lemma {:induction false} FilterAtMostOne<T(!new)>(xs: seq<T>, p: T -> bool, rel: (T, T) -> bool)
    requires Pairwise(xs, rel)
    requires forall a, b :: p(a) && p(b) ==> !rel(a, b)
    ensures |Filter(xs, p)| <= 1
  {
    if |xs| > 0 {
      var x, rest := xs[0], xs[1..];
      assert Pairwise(rest, rel) by {
        forall i, j | 0 <= i < j < |rest|
          ensures rel(rest[i], rest[j])
        {
          assert rest[i] == xs[i + 1] && rest[j] == xs[j + 1];
        }
      }
      FilterAtMostOne(rest, p, rel);
      if p(x) {
        forall k | 0 <= k < |rest|
          ensures !p(rest[k])
        {
          assert rest[k] == xs[k + 1];
          assert rel(x, rest[k]);
        }
        FilterNone(rest, p);
      }
    }
  }

  /** Filtering keeps a property of every ordered pair. */
  lemma {:induction false} FilterKeepsPairwise<T(!new)>(xs: seq<T>, p: T -> bool, rel: (T, T) -> bool)
    requires Pairwise(xs, rel)
    ensures Pairwise(Filter(xs, p), rel)
  {
    if |xs| > 0 {
      var x, rest := xs[0], xs[1..];
      assert Pairwise(rest, rel) by {
        forall i, j | 0 <= i < j < |rest|
          ensures rel(rest[i], rest[j])
        {
          assert rest[i] == xs[i + 1] && rest[j] == xs[j + 1];
        }
      }
      FilterKeepsPairwise(rest, p, rel);
      if p(x) {
        var fr := Filter(rest, p);
        forall y | y in fr
          ensures rel(x, y)
        {
          var k :| 0 <= k < |rest| && rest[k] == y;
          assert xs[k + 1] == y;
        }
        PairwiseCons(x, fr, rel);
      }
    }
  }

  // ---------------------------------------------------------------------
  // Sorting
  // ---------------------------------------------------------------------

  /** `le(a, b)`: `a` may precede `b`. A comparator sort needs it total. */
  ghost predicate Total<T(!new)>(le: (T, T) -> bool) {
    forall a, b :: le(a, b) || le(b, a)
  }

  ghost predicate Transitive<T(!new)>(le: (T, T) -> bool) {
    forall a, b, c :: le(a, b) && le(b, c) ==> le(a, c)
  }

  /** Each element may precede its successor. */
  predicate Sorted<T>(xs: seq<T>, le: (T, T) -> bool) {
    forall k :: 0 <= k < |xs| - 1 ==> le(xs[k], xs[k + 1])
  }

  /** Under a transitive order, sortedness of neighbours extends to every pair. */
  lemma {:induction false} SortedPairwise<T(!new)>(xs: seq<T>, le: (T, T) -> bool, i: nat, j: nat)
    requires Transitive(le) && Sorted(xs, le)
    requires i < j < |xs|
    ensures le(xs[i], xs[j])
    decreases j - i
  {
    if i + 1 < j {
      SortedPairwise(xs, le, i + 1, j);
    }
  }

  /** Insert `x` before the first element it may precede. */
  function Insert<T(!new)>(x: T, xs: seq<T>, le: (T, T) -> bool): (r: seq<T>)
    requires Total(le)
    ensures multiset(r) == multiset(xs) + multiset{x}
    ensures |r| == |xs| + 1
    ensures r[0] == x || (|xs| > 0 && r[0] == xs[0])
    ensures Sorted(xs, le) ==> Sorted(r, le)
  {
    if |xs| == 0 then [x]
    else if le(x, xs[0]) then [x] + xs
    else
      var rest := Insert(x, xs[1..], le);
      assert xs == [xs[0]] + xs[1..];
      assert le(xs[0], x);
      [xs[0]] + rest
  }

  /** Insertion sort: a sorted rearrangement of `xs`. */
  function SortBy<T(!new)>(xs: seq<T>, le: (T, T) -> bool): (r: seq<T>)
    requires Total(le)
    ensures multiset(r) == multiset(xs)
    ensures |r| == |xs|
    ensures Sorted(r, le)
  {
    if |xs| == 0 then []
    else
      assert xs == [xs[0]] + xs[1..];
      Insert(xs[0], SortBy(xs[1..], le), le)
  }
}
