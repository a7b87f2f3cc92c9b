/** Sequences of distinct integers: how many fit in a range, and what they add up to when they fill it. */
module Permutations {
  import opened Cp
  import opened Sums

  predicate InRange(xs: seq<int>, lo: int, hi: int) {
    forall i :: 0 <= i < |xs| ==> lo <= xs[i] < hi
  }

  function Without(xs: seq<int>, p: nat): (r: seq<int>)
    requires p < |xs|
    ensures |r| == |xs| - 1
  {
    xs[..p] + xs[p + 1..]
  }

  lemma WithoutDistinct(xs: seq<int>, p: nat)
    requires Distinct(xs) && p < |xs|
    ensures Distinct(Without(xs, p)) && xs[p] !in Without(xs, p)
  {}

  lemma FirstInRange(xs: seq<int>, lo: int, hi: int)
    requires InRange(xs, lo, hi)
    ensures xs != [] ==> lo < hi
  {
    assert xs != [] ==> lo <= xs[0] < hi;
  }

  /** At most as many distinct values as the range has, and if as many then all of them. */
  lemma {:induction false} Pigeonhole(xs: seq<int>, lo: int, hi: int)
    requires Distinct(xs) && InRange(xs, lo, hi) && lo <= hi
    ensures |xs| <= hi - lo
    ensures |xs| == hi - lo ==> forall v :: lo <= v < hi ==> v in xs
    decreases hi - lo
  {
    if lo < hi {
      if hi - 1 in xs {
        var p :| 0 <= p < |xs| && xs[p] == hi - 1;
        WithoutDistinct(xs, p);
        Pigeonhole(Without(xs, p), lo, hi - 1);
        forall v | v in Without(xs, p)
          ensures v in xs
        {}
      } else {
        Pigeonhole(xs, lo, hi - 1);
      }
    } else {
      FirstInRange(xs, lo, hi);
    }
  }

  /** A list that contains every value of a range is at least as long as the range. */
  lemma {:induction false} CoverLength(xs: seq<int>, lo: int, hi: int)
    requires lo <= hi && forall v :: lo <= v < hi ==> v in xs
    ensures |xs| >= hi - lo
    decreases hi - lo
  {
    if lo < hi {
      assert hi - 1 in xs;
      var p :| 0 <= p < |xs| && xs[p] == hi - 1;
      forall v | lo <= v < hi - 1
        ensures v in Without(xs, p)
      {
        assert v in xs;
        var q :| 0 <= q < |xs| && xs[q] == v;
        assert Without(xs, p)[if q < p then q else q - 1] == v;
      }
      CoverLength(Without(xs, p), lo, hi - 1);
    }
  }

  function SumOver(f: int -> int, xs: seq<int>): int {
    if xs == [] then 0 else SumOver(f, xs[..|xs| - 1]) + f(xs[|xs| - 1])
  }

  function SumRange(f: int -> int, lo: int, hi: int): int
    requires lo <= hi
    decreases hi - lo
  {
    if lo == hi then 0 else SumRange(f, lo, hi - 1) + f(hi - 1)
  }

  lemma {:induction false} SumOverConcat(f: int -> int, xs: seq<int>, ys: seq<int>)
    ensures SumOver(f, xs + ys) == SumOver(f, xs) + SumOver(f, ys)
  {
    if ys == [] {
      assert xs + ys == xs;
    } else {
      assert (xs + ys)[..|xs + ys| - 1] == xs + ys[..|ys| - 1];
      SumOverConcat(f, xs, ys[..|ys| - 1]);
    }
  }

  lemma SumOverWithout(f: int -> int, xs: seq<int>, p: nat)
    requires p < |xs|
    ensures SumOver(f, xs) == SumOver(f, Without(xs, p)) + f(xs[p])
  {
    SplitAt(xs, p);
    SumOverInsert(f, xs[..p], xs[p], xs[p + 1..]);
  }

  lemma SplitAt(xs: seq<int>, p: nat)
    requires p < |xs|
    ensures xs[..p] + ([xs[p]] + xs[p + 1..]) == xs
  {}

  lemma SumOverInsert(f: int -> int, xs: seq<int>, x: int, ys: seq<int>)
    ensures SumOver(f, xs + ([x] + ys)) == SumOver(f, xs + ys) + f(x)
  {
    hide SumOver;
    SumOverConcat(f, xs, [x] + ys);
    SumOverConcat(f, [x], ys);
    SumOverSingle(f, x);
    SumOverConcat(f, xs, ys);
  }

  lemma SumOverSingle(f: int -> int, x: int)
    ensures SumOver(f, [x]) == f(x)
  {
    assert [x][..0] == [];
  }

  /** Distinct values that fill a range add up, under any weight, to the sum over the range. */
  lemma {:induction false} PermutationSum(f: int -> int, xs: seq<int>, lo: int, hi: int)
    requires lo <= hi && Distinct(xs) && InRange(xs, lo, hi) && |xs| == hi - lo
    ensures SumOver(f, xs) == SumRange(f, lo, hi)
    decreases hi - lo
  {
    if lo < hi {
      Pigeonhole(xs, lo, hi);
      assert hi - 1 in xs;
      var p :| 0 <= p < |xs| && xs[p] == hi - 1;
      WithoutDistinct(xs, p);
      PermutationSum(f, Without(xs, p), lo, hi - 1);
      SumOverWithout(f, xs, p);
    }
  }

  lemma {:induction false} SameSums(f: int -> int, g: int -> int, xs: seq<int>, ys: seq<int>)
    requires |xs| == |ys| && forall i :: 0 <= i < |xs| ==> f(xs[i]) == g(ys[i])
    ensures SumOver(f, xs) == SumOver(g, ys)
  {
    if xs != [] {
      SameSums(f, g, xs[..|xs| - 1], ys[..|ys| - 1]);
    }
  }

  /** ys holds the entries of xs in another order. */
  ghost predicate IsRearranged(xs: seq<int>, order: seq<int>, ys: seq<int>) {
    && |order| == |xs| == |ys| && InRange(order, 0, |xs|) && Distinct(order)
    && forall i :: 0 <= i < |ys| ==> ys[i] == xs[order[i]]
  }

  function AtIndex(f: int -> int, xs: seq<int>): int -> int {
    i => if 0 <= i < |xs| then f(xs[i]) else 0
  }

  lemma {:induction false} SumByIndex(f: int -> int, xs: seq<int>, k: nat)
    requires k <= |xs|
    ensures SumRange(AtIndex(f, xs), 0, k) == SumOver(f, xs[..k])
  {
    if k > 0 {
      SumByIndex(f, xs, k - 1);
      assert xs[..k][..k - 1] == xs[..k - 1];
    }
  }

  lemma RearrangedSum(f: int -> int, xs: seq<int>, order: seq<int>, ys: seq<int>)
    requires IsRearranged(xs, order, ys)
    ensures SumOver(f, ys) == SumOver(f, xs)
  {
    hide SumOver, SumRange;
    SameSums(f, AtIndex(f, xs), ys, order);
    PermutationSum(AtIndex(f, xs), order, 0, |xs|);
    SumByIndex(f, xs, |xs|);
    assert xs[..|xs|] == xs;
  }

  lemma {:induction false} SumIsSumOver(xs: seq<int>)
    ensures Sum(xs) == SumOver(x => x, xs)
  {
    if xs != [] {
      SumIsSumOver(xs[..|xs| - 1]);
    }
  }

  lemma {:induction false} SumToN(n: nat)
    ensures 2 * SumRange(v => v, 1, n + 1) == n * (n + 1)
  {
    if n > 0 {
      SumToN(n - 1);
    }
  }

  function Upto(n: nat): (r: set<int>)
    ensures |r| == n && forall i :: i in r <==> 0 <= i < n
  {
    if n == 0 then {} else Upto(n - 1) + {n - 1}
  }

  lemma SubsetSize(a: set<int>, b: set<int>)
    requires a <= b
    ensures |a| <= |b| && (|a| == |b| ==> a == b)
  {
    assert b == a + (b - a);
  }
}
