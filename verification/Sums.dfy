/** Sums of finite sequences of integers. */
module Sums {
  function Sum(xs: seq<int>): int {
    if xs == [] then 0 else Sum(xs[..|xs| - 1]) + xs[|xs| - 1]
  }

  lemma {:induction false} SumConcat(xs: seq<int>, ys: seq<int>)
    ensures Sum(xs + ys) == Sum(xs) + Sum(ys)
  {
    if ys == [] {
      assert xs + ys == xs;
    } else {
      assert (xs + ys)[..|xs + ys| - 1] == xs + ys[..|ys| - 1];
      SumConcat(xs, ys[..|ys| - 1]);
    }
  }

  lemma SumSingle(x: int)
    ensures Sum([x]) == x
  {
    assert [x][..0] == [];
  }

  lemma SumCons(x: int, xs: seq<int>)
    ensures Sum([x] + xs) == x + Sum(xs)
  {
    SumSingle(x);
    SumConcat([x], xs);
  }

  lemma SumAppend(xs: seq<int>, x: int)
    ensures Sum(xs + [x]) == Sum(xs) + x
  {
    assert (xs + [x])[..|xs|] == xs;
  }

  lemma {:induction false} SumPlus(xs: seq<int>, ys: seq<int>, zs: seq<int>)
    requires |xs| == |ys| == |zs|
    requires forall i :: 0 <= i < |xs| ==> zs[i] == xs[i] + ys[i]
    ensures Sum(zs) == Sum(xs) + Sum(ys)
  {
    if xs != [] {
      SumPlus(xs[..|xs| - 1], ys[..|ys| - 1], zs[..|zs| - 1]);
    }
  }

  predicate IsGrid(m: seq<seq<int>>, c: nat) {
    forall i :: 0 <= i < |m| ==> |m[i]| == c
  }

  function Column(m: seq<seq<int>>, c: nat, j: nat): (r: seq<int>)
    requires IsGrid(m, c) && j < c
    ensures |r| == |m| && forall i :: 0 <= i < |m| ==> r[i] == m[i][j]
  {
    seq(|m|, i requires 0 <= i < |m| => m[i][j])
  }

  function RowSums(m: seq<seq<int>>): (r: seq<int>)
    ensures |r| == |m| && forall i :: 0 <= i < |m| ==> r[i] == Sum(m[i])
  {
    seq(|m|, i requires 0 <= i < |m| => Sum(m[i]))
  }

  function ColumnSums(m: seq<seq<int>>, c: nat): (r: seq<int>)
    requires IsGrid(m, c)
    ensures |r| == c && forall j :: 0 <= j < c ==> r[j] == Sum(Column(m, c, j))
  {
    seq(c, j requires 0 <= j < c => Sum(Column(m, c, j)))
  }

  /** Adding a grid up by rows or by columns gives the same total. */
  lemma {:induction false} RowsEqualColumns(m: seq<seq<int>>, c: nat)
    requires IsGrid(m, c)
    ensures Sum(RowSums(m)) == Sum(ColumnSums(m, c))
  {
    if m == [] {
      SumOfZeros(ColumnSums(m, c));
    } else {
      var k := |m| - 1;
      RowsEqualColumns(m[..k], c);
      assert RowSums(m)[..k] == RowSums(m[..k]);
      forall j | 0 <= j < c
        ensures ColumnSums(m, c)[j] == ColumnSums(m[..k], c)[j] + m[k][j]
      {
        assert Column(m, c, j)[..k] == Column(m[..k], c, j);
      }
      SumPlus(ColumnSums(m[..k], c), m[k], ColumnSums(m, c));
    }
  }

  lemma {:induction false} SumOfZeros(xs: seq<int>)
    requires forall i :: 0 <= i < |xs| ==> xs[i] == 0
    ensures Sum(xs) == 0
  {
    if xs != [] {
      SumOfZeros(xs[..|xs| - 1]);
    }
  }
}
