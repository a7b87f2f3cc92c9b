/** The partition model: 1..2m split into two halves with equal sums and equal sums of squares. */
module Partition {
  import opened Cp
  import opened Permutations
  import opened Sums

  datatype Var = X(i: nat) | Y(i: nat)

  function Xs(m: nat): (vs: seq<Var>)
    ensures |vs| == m && forall i :: 0 <= i < m ==> vs[i] == X(i)
  {
    seq(m, i requires 0 <= i => X(i))
  }

  function Ys(m: nat): (vs: seq<Var>)
    ensures |vs| == m && forall i :: 0 <= i < m ==> vs[i] == Y(i)
  {
    seq(m, i requires 0 <= i => Y(i))
  }

  function SquareOf(v: Var): Expr<Var> {
    Times(Var(v), Var(v))
  }

  function Squares(vs: seq<Var>): (es: seq<Expr<Var>>)
    ensures |es| == |vs| && forall i :: 0 <= i < |vs| ==> es[i] == SquareOf(vs[i])
  {
    seq(|vs|, i requires 0 <= i < |vs| => SquareOf(vs[i]))
  }

  /** Coefficient 1 for the first m terms and -1 for the others. */
  function Signs(m: nat): (r: seq<int>)
    ensures |r| == 2 * m && forall i :: 0 <= i < 2 * m ==> r[i] == if i < m then 1 else -1
  {
    seq(2 * m, i => if i < m then 1 else -1)
  }

  function Scaled(es: seq<Expr<Var>>, coeffs: seq<int>): (r: seq<Expr<Var>>)
    requires |es| == |coeffs|
    ensures |r| == |es| && forall i :: 0 <= i < |es| ==> r[i] == Times(Const(coeffs[i]), es[i])
  {
    seq(|es|, i requires 0 <= i < |es| => Times(Const(coeffs[i]), es[i]))
  }

  /** Both halves increase. */
  function OrderConstraints(k: nat): seq<Constraint<Var>> {
    if k == 0 then []
    else OrderConstraints(k - 1) +
         [Compare(Var(X(k - 1)), Less, Var(X(k))), Compare(Var(Y(k - 1)), Less, Var(Y(k)))]
  }

  function HalfSum(m: nat): nat {
    2 * m * (2 * m + 1) / 4
  }

  function HalfSquareSum(m: nat): nat {
    2 * m * (2 * m + 1) * (4 * m + 1) / 12
  }

  function BalanceConstraints(m: nat): seq<Constraint<Var>> {
    [AllDifferent(Vars(Xs(m) + Ys(m))),
     Compare(SumOf(Scaled(Vars(Xs(m) + Ys(m)), Signs(m))), Eq, Const(0)),
     Compare(SumOf(Scaled(Squares(Xs(m) + Ys(m)), Signs(m))), Eq, Const(0))]
  }

  function ClosedFormConstraints(m: nat): seq<Constraint<Var>> {
    [Compare(SumOf(Vars(Xs(m))), Eq, Const(HalfSum(m))),
     Compare(SumOf(Vars(Ys(m))), Eq, Const(HalfSum(m))),
     Compare(SumOf(Squares(Xs(m))), Eq, Const(HalfSquareSum(m))),
     Compare(SumOf(Squares(Ys(m))), Eq, Const(HalfSquareSum(m)))]
  }

  function PartitionConstraints(m: nat): seq<Constraint<Var>>
    requires m > 0
  {
    Domains(Xs(m), 1, 2 * m) + Domains(Ys(m), 1, 2 * m) + OrderConstraints(m - 1) +
    [Compare(Var(X(0)), Less, Var(Y(0)))] + (BalanceConstraints(m) + ClosedFormConstraints(m))
  }

  method PostPartition(m: nat) returns (cs: seq<Constraint<Var>>)
    requires m > 0
    ensures cs == PartitionConstraints(m)
    ensures forall s: Var -> int :: Satisfies(cs, s) <==>
      IsPartition(m, At(Xs(m), s), At(Ys(m), s)) && HasClosedForms(m, At(Xs(m), s), At(Ys(m), s))
  {
    hide OrderConstraints, BalanceConstraints, ClosedFormConstraints, Domains, Satisfies, IsPartition, HasClosedForms;
    var x, y := Xs(m), Ys(m);
    cs := Domains(x, 1, 2 * m) + Domains(y, 1, 2 * m);
    var order := PostOrder(m, x, y);
    cs := cs + order;
    cs := cs + [Compare(Var(x[0]), Less, Var(y[0]))];
    var sums := PostSums(m, x, y);
    cs := cs + sums;
    assert cs == PartitionConstraints(m);
    forall s: Var -> int
      ensures Satisfies(cs, s) <==>
        IsPartition(m, At(Xs(m), s), At(Ys(m), s)) && HasClosedForms(m, At(Xs(m), s), At(Ys(m), s))
    {
      PartitionMeans(m, s);
    }
  }

  method PostOrder(m: nat, x: seq<Var>, y: seq<Var>) returns (cs: seq<Constraint<Var>>)
    requires m > 0 && x == Xs(m) && y == Ys(m)
    ensures cs == OrderConstraints(m - 1)
  {
    cs := [];
    for i := 0 to m - 1
      invariant cs == OrderConstraints(i)
    {
      cs := cs + [Compare(Var(x[i]), Less, Var(x[i + 1])), Compare(Var(y[i]), Less, Var(y[i + 1]))];
    }
  }

  method PostSums(m: nat, x: seq<Var>, y: seq<Var>) returns (cs: seq<Constraint<Var>>)
    requires m > 0 && x == Xs(m) && y == Ys(m)
    ensures cs == BalanceConstraints(m) + ClosedFormConstraints(m)
  {
    hide HalfSum, HalfSquareSum, SumOf, Signs, Scaled, Squares, Xs, Ys;
    var xy := JoinHalves(x, y);
    var coeffs := FillSigns(m);
    cs := [AllDifferent(Vars(xy)), Compare(SumOf(Scaled(Vars(xy), coeffs)), Eq, Const(0))];
    var sxy, sx, sy := SquareHalves(x, y);
    cs := cs + [Compare(SumOf(Scaled(sxy, coeffs)), Eq, Const(0))];
    assert cs == BalanceConstraints(m);
    cs := cs + [Compare(SumOf(Vars(x)), Eq, Const(HalfSum(m))),
                Compare(SumOf(Vars(y)), Eq, Const(HalfSum(m))),
                Compare(SumOf(sx), Eq, Const(HalfSquareSum(m))),
                Compare(SumOf(sy), Eq, Const(HalfSquareSum(m)))];
  }

  method JoinHalves(x: seq<Var>, y: seq<Var>) returns (r: seq<Var>)
    requires |x| == |y|
    ensures r == x + y
  {
    var m := |x|;
    var xy := new Var[2 * m];
    for i := m downto 0
      invariant forall k :: i <= k < m ==> xy[k] == x[k]
      invariant forall k :: m + i <= k < 2 * m ==> xy[k] == y[k - m]
    {
      xy[i] := x[i];
      xy[m + i] := y[i];
    }
    r := xy[..];
  }

  method FillSigns(m: nat) returns (r: seq<int>)
    ensures r == Signs(m)
  {
    var coeffs := new int[2 * m];
    for i := m downto 0
      invariant forall k :: i <= k < m ==> coeffs[k] == 1
      invariant forall k :: m + i <= k < 2 * m ==> coeffs[k] == -1
    {
      coeffs[i] := 1;
      coeffs[m + i] := -1;
    }
    r := coeffs[..];
  }

  method SquareHalves(x: seq<Var>, y: seq<Var>) returns (rxy: seq<Expr<Var>>, rx: seq<Expr<Var>>, ry: seq<Expr<Var>>)
    requires |x| == |y|
    ensures rxy == Squares(x + y) && rx == Squares(x) && ry == Squares(y)
  {
    hide SquareOf;
    var m := |x|;
    var sxy := new Expr<Var>[2 * m](_ => Const(0));
    var sx := new Expr<Var>[m](_ => Const(0));
    var sy := new Expr<Var>[m](_ => Const(0));
    for i := m downto 0
      invariant forall k :: i <= k < m ==> sx[k] == SquareOf(x[k]) && sxy[k] == SquareOf(x[k])
      invariant forall k :: i <= k < m ==> sy[k] == SquareOf(y[k])
      invariant forall k :: m + i <= k < 2 * m ==> sxy[k] == SquareOf(y[k - m])
    {
      sx[i] := SquareOf(x[i]);
      sxy[i] := sx[i];
      sy[i] := SquareOf(y[i]);
      sxy[m + i] := sy[i];
    }
    rxy, rx, ry := sxy[..], sx[..], sy[..];
  }

  // ---------- What the posted constraints mean ----------

  ghost predicate Increasing(x: seq<int>) {
    forall i :: 0 <= i < |x| - 1 ==> x[i] < x[i + 1]
  }

  function Square(v: int): int {
    v * v
  }

  function SquareSum(x: seq<int>): int {
    SumOver(Square, x)
  }

  /** Everything but the four closed forms. */
  ghost predicate IsPartition(m: nat, x: seq<int>, y: seq<int>) {
    && m > 0 && |x| == |y| == m && InRange(x, 1, 2 * m + 1) && InRange(y, 1, 2 * m + 1)
    && Increasing(x) && Increasing(y) && x[0] < y[0] && Distinct(x + y)
    && Sum(x) == Sum(y) && SquareSum(x) == SquareSum(y)
  }

  ghost predicate HasClosedForms(m: nat, x: seq<int>, y: seq<int>) {
    && Sum(x) == HalfSum(m) && Sum(y) == HalfSum(m)
    && SquareSum(x) == HalfSquareSum(m) && SquareSum(y) == HalfSquareSum(m)
  }

  lemma {:induction false} SquareSumToN(n: nat)
    ensures 6 * SumRange(Square, 1, n + 1) == n * (n + 1) * (2 * n + 1)
  {
    if n > 0 {
      SquareSumToN(n - 1);
      CubicStep(n);
    }
  }

  lemma CubicStep(n: nat)
    requires n > 0
    ensures (n - 1) * n * (2 * (n - 1) + 1) + 6 * (n * n) == n * (n + 1) * (2 * n + 1)
  {
    var a, b, c := (n - 1) * (2 * (n - 1) + 1), 6 * n, (n + 1) * (2 * n + 1);
    assert a + b == c;
    assert (n - 1) * n * (2 * (n - 1) + 1) == n * a && n * (n + 1) * (2 * n + 1) == n * c && 6 * (n * n) == n * b;
    Distribute(n, a, b);
  }

  lemma Distribute(n: int, a: int, b: int)
    ensures n * (a + b) == n * a + n * b
  {}

  /** Both halves together are a permutation of 1..2m, so their totals are known. */
  lemma Totals(m: nat, x: seq<int>, y: seq<int>)
    requires IsPartition(m, x, y)
    ensures 2 * Sum(x) == m * (2 * m + 1)
    ensures 12 * SquareSum(x) == 2 * m * (2 * m + 1) * (4 * m + 1)
  {
    hide Sum, SumOver, SumRange, Square;
    var xy := x + y;
    PermutationSum(v => v, xy, 1, 2 * m + 1);
    PermutationSum(Square, xy, 1, 2 * m + 1);
    SumIsSumOver(xy);
    SumConcat(x, y);
    SumOverConcat(Square, x, y);
    SumToN(2 * m);
    SquareSumToN(2 * m);
    HalveTotals(m, SumRange(v => v, 1, 2 * m + 1), Sum(x), SumRange(Square, 1, 2 * m + 1), SquareSum(x));
  }

  lemma HalveTotals(m: nat, t: int, s: int, u: int, q: int)
    requires t == 2 * s && 2 * t == 2 * m * (2 * m + 1)
    requires u == 2 * q && 6 * u == 2 * m * (2 * m + 1) * (2 * (2 * m) + 1)
    ensures 2 * s == m * (2 * m + 1) && 12 * q == 2 * m * (2 * m + 1) * (4 * m + 1)
  {
    assert 2 * m * (2 * m + 1) == 2 * (m * (2 * m + 1));
  }

  /** The closed forms follow from the other constraints, and m must be even and greater than 2. */
  lemma ClosedFormsAreRedundant(m: nat, x: seq<int>, y: seq<int>)
    requires IsPartition(m, x, y)
    ensures HasClosedForms(m, x, y) && m % 2 == 0 && m >= 4
  {
    Totals(m, x, y);
    Parity(m, Sum(x));
    ExactDivision(m, Sum(x), SquareSum(x));
    if m == 2 {
      PairSums(x);
      NoPair(x[0], x[1]);
    }
  }

  lemma PairSums(x: seq<int>)
    requires |x| == 2
    ensures Sum(x) == x[0] + x[1] && SquareSum(x) == x[0] * x[0] + x[1] * x[1]
  {
    assert x == [x[0]] + [x[1]];
    SumConcat([x[0]], [x[1]]);
    SumSingle(x[0]);
    SumSingle(x[1]);
    SumOverConcat(Square, [x[0]], [x[1]]);
    SumOverSingle(Square, x[0]);
    SumOverSingle(Square, x[1]);
  }

  lemma NoPair(a: int, b: int)
    ensures !(1 <= a <= 4 && a + b == 5 && a * a + b * b == 15)
  {
    if a == 1 || a == 2 || a == 3 || a == 4 {}
  }

  lemma Parity(m: nat, s: int)
    requires 2 * s == m * (2 * m + 1)
    ensures m % 2 == 0
  {
    OddProduct(m / 2);
    assert m == 2 * (m / 2) + m % 2;
  }

  lemma OddProduct(h: nat)
    ensures (2 * h + 1) * (2 * (2 * h + 1) + 1) == 2 * (4 * h * h + 5 * h + 1) + 1
  {}

  lemma ExactDivision(m: nat, s: int, q: int)
    requires 2 * s == m * (2 * m + 1) && 12 * q == 2 * m * (2 * m + 1) * (4 * m + 1)
    ensures s == HalfSum(m) && q == HalfSquareSum(m)
  {
    assert 2 * m * (2 * m + 1) == 2 * (m * (2 * m + 1)) == 4 * s;
  }

  // ---------- Solutions for every even m >= 4 ----------

  lemma QuadSums(a: int, b: int, c: int, d: int)
    ensures Sum([a, b, c, d]) == a + b + c + d
    ensures SquareSum([a, b, c, d]) == a * a + b * b + c * c + d * d
  {
    assert [a, b, c, d] == [a, b] + [c, d];
    SumConcat([a, b], [c, d]);
    SumOverConcat(Square, [a, b], [c, d]);
    PairSums([a, b]);
    PairSums([c, d]);
  }

  /** Eight more numbers, split as 1, 4, 6, 7 and 2, 3, 5, 8, keep both sums balanced. */
  lemma AddBlock(m: nat, x: seq<int>, y: seq<int>)
    requires IsPartition(m, x, y)
    ensures IsPartition(m + 4, x + [2 * m + 1, 2 * m + 4, 2 * m + 6, 2 * m + 7],
      y + [2 * m + 2, 2 * m + 3, 2 * m + 5, 2 * m + 8])
  {
    var o := 2 * m;
    var cx, cy := [o + 1, o + 4, o + 6, o + 7], [o + 2, o + 3, o + 5, o + 8];
    SumConcat(x, cx);
    SumConcat(y, cy);
    SumOverConcat(Square, x, cx);
    SumOverConcat(Square, y, cy);
    QuadSums(o + 1, o + 4, o + 6, o + 7);
    QuadSums(o + 2, o + 3, o + 5, o + 8);
    BlockSquares(o);
    AppendIncreasing(m, x, cx);
    AppendIncreasing(m, y, cy);
    AppendDistinct(m, x, y, cx, cy);
  }

  lemma BlockSquares(o: int)
    ensures (o + 1) * (o + 1) + (o + 4) * (o + 4) + (o + 6) * (o + 6) + (o + 7) * (o + 7)
         == (o + 2) * (o + 2) + (o + 3) * (o + 3) + (o + 5) * (o + 5) + (o + 8) * (o + 8)
  {}

  lemma AppendIncreasing(m: nat, x: seq<int>, b: seq<int>)
    requires Increasing(x) && Increasing(b) && InRange(x, 1, 2 * m + 1) && InRange(b, 2 * m + 1, 2 * m + 9)
    ensures Increasing(x + b) && InRange(x + b, 1, 2 * m + 9)
  {
    var all := x + b;
    forall i | 0 <= i < |all| - 1
      ensures all[i] < all[i + 1]
    {
      if i >= |x| {
        assert b[i - |x|] < b[i - |x| + 1];
      }
    }
  }

  lemma AppendDistinct(m: nat, x: seq<int>, y: seq<int>, cx: seq<int>, cy: seq<int>)
    requires Distinct(x + y) && InRange(x, 1, 2 * m + 1) && InRange(y, 1, 2 * m + 1)
    requires cx == [2 * m + 1, 2 * m + 4, 2 * m + 6, 2 * m + 7] && cy == [2 * m + 2, 2 * m + 3, 2 * m + 5, 2 * m + 8]
    ensures Distinct((x + cx) + (y + cy))
  {
    var xy, all := x + y, (x + cx) + (y + cy);
    forall i, j | 0 <= i < j < |all|
      ensures all[i] != all[j]
    {
      var k, l := |x|, |x| + 4 + |y|;
      if all[i] <= 2 * m && all[j] <= 2 * m {
        var i' := if i < k then i else i - 4;
        var j' := if j < k then j else j - 4;
        assert all[i] == xy[i'] && all[j] == xy[j'];
      }
    }
  }

  lemma FourBlock()
    ensures IsPartition(4, [1, 4, 6, 7], [2, 3, 5, 8])
  {
    hide Sum, SquareSum;
    QuadSums(1, 4, 6, 7);
    QuadSums(2, 3, 5, 8);
  }

  lemma HexSums(a: int, b: int, c: int, d: int, e: int, f: int)
    ensures Sum([a, b, c, d, e, f]) == a + b + c + d + e + f
    ensures SquareSum([a, b, c, d, e, f]) == a * a + b * b + c * c + d * d + e * e + f * f
  {
    hide Sum, SumOver;
    assert [a, b, c, d, e, f] == [a, b, c, d] + [e, f];
    QuadSums(a, b, c, d);
    PairSums([e, f]);
    SumConcat([a, b, c, d], [e, f]);
    SumOverConcat(Square, [a, b, c, d], [e, f]);
  }

  lemma SixBlock()
    ensures IsPartition(6, [1, 3, 7, 8, 9, 11], [2, 4, 5, 6, 10, 12])
  {
    hide Sum, SquareSum;
    HexSums(1, 3, 7, 8, 9, 11);
    HexSums(2, 4, 5, 6, 10, 12);
  }

  lemma {:induction false} PartitionExists(m: nat) returns (x: seq<int>, y: seq<int>)
    requires m % 2 == 0 && m >= 4
    ensures IsPartition(m, x, y)
  {
    hide IsPartition;
    if m == 4 {
      x, y := [1, 4, 6, 7], [2, 3, 5, 8];
      FourBlock();
    } else if m == 6 {
      x, y := [1, 3, 7, 8, 9, 11], [2, 4, 5, 6, 10, 12];
      SixBlock();
    } else {
      var x', y' := PartitionExists(m - 4);
      AddBlock(m - 4, x', y');
      x := x' + [2 * m - 7, 2 * m - 4, 2 * m - 2, 2 * m - 1];
      y := y' + [2 * m - 6, 2 * m - 5, 2 * m - 3, 2 * m];
    }
  }

  // ---------- The posted constraints say exactly that ----------

  lemma {:induction false} OrderMeans(k: nat, s: Var -> int)
    ensures Satisfies(OrderConstraints(k), s) <==>
      forall i :: 0 <= i < k ==> s(X(i)) < s(X(i + 1)) && s(Y(i)) < s(Y(i + 1))
  {
    if k > 0 {
      OrderMeans(k - 1, s);
      var c, d := Compare(Var(X(k - 1)), Less, Var(X(k))), Compare(Var(Y(k - 1)), Less, Var(Y(k)));
      SatisfiesConcat(OrderConstraints(k - 1), [c, d], s);
      assert [c, d] == [c] + [d];
      SatisfiesConcat([c], [d], s);
      SatisfiesOne(c, s);
      SatisfiesOne(d, s);
    }
  }

  lemma {:induction false} SumNegated(xs: seq<int>, ys: seq<int>)
    requires |xs| == |ys| && forall i :: 0 <= i < |xs| ==> ys[i] == -xs[i]
    ensures Sum(ys) == -Sum(xs)
  {
    if xs != [] {
      SumNegated(xs[..|xs| - 1], ys[..|ys| - 1]);
    }
  }

  lemma SignedSum(zs: seq<int>, xs: seq<int>, ys: seq<int>)
    requires |zs| == |xs| + |ys|
    requires forall i :: 0 <= i < |xs| ==> zs[i] == xs[i]
    requires forall i :: 0 <= i < |ys| ==> zs[|xs| + i] == -ys[i]
    ensures Sum(zs) == Sum(xs) - Sum(ys)
  {
    var negated := zs[|xs|..];
    assert zs == xs + negated;
    SumConcat(xs, negated);
    SumNegated(ys, negated);
  }

  lemma ScaledValue(e: Expr<Var>, s: Var -> int)
    ensures Eval(Times(Const(1), e), s) == Eval(e, s) && Eval(Times(Const(-1), e), s) == -Eval(e, s)
  {}

  lemma ScalarProduct(m: nat, es: seq<Expr<Var>>, fs: seq<Expr<Var>>, s: Var -> int)
    requires |es| == |fs| == m
    ensures Eval(SumOf(Scaled(es + fs, Signs(m))), s) == Sum(Values(es, s)) - Sum(Values(fs, s))
  {
    hide Sum, SumOf, Eval;
    var all := Scaled(es + fs, Signs(m));
    SumOfValues(all, s);
    forall i | 0 <= i < m
      ensures Values(all, s)[i] == Values(es, s)[i] && Values(all, s)[m + i] == -Values(fs, s)[i]
    {
      ScaledValue(es[i], s);
      ScaledValue(fs[i], s);
    }
    SignedSum(Values(all, s), Values(es, s), Values(fs, s));
  }

  lemma {:induction false} SumOfMapped(f: int -> int, xs: seq<int>, ys: seq<int>)
    requires |xs| == |ys| && forall i :: 0 <= i < |xs| ==> ys[i] == f(xs[i])
    ensures Sum(ys) == SumOver(f, xs)
  {
    if xs != [] {
      SumOfMapped(f, xs[..|xs| - 1], ys[..|ys| - 1]);
    }
  }

  lemma SquareValue(v: Var, s: Var -> int)
    ensures Eval(SquareOf(v), s) == Square(s(v))
  {}

  lemma SquareValues(vs: seq<Var>, s: Var -> int)
    ensures Sum(Values(Squares(vs), s)) == SquareSum(At(vs, s))
  {
    forall i | 0 <= i < |vs|
      ensures Values(Squares(vs), s)[i] == Square(At(vs, s)[i])
    {
      SquareValue(vs[i], s);
    }
    SumOfMapped(Square, At(vs, s), Values(Squares(vs), s));
  }

  lemma HalvesJoin(vs: seq<Var>, ws: seq<Var>, s: Var -> int)
    ensures Vars(vs + ws) == Vars(vs) + Vars(ws) && Squares(vs + ws) == Squares(vs) + Squares(ws)
    ensures Values(Vars(vs + ws), s) == At(vs, s) + At(ws, s)
  {
    hide Values, SquareOf, Eval;
    ValuesOfVars(vs + ws, s);
    AtJoined(vs, ws, s);
  }

  lemma AtJoined(vs: seq<Var>, ws: seq<Var>, s: Var -> int)
    ensures At(vs + ws, s) == At(vs, s) + At(ws, s)
  {}

  lemma BalanceMeans(m: nat, s: Var -> int)
    ensures Satisfies(BalanceConstraints(m), s) <==>
      (var x, y := At(Xs(m), s), At(Ys(m), s); Distinct(x + y) && Sum(x) == Sum(y) && SquareSum(x) == SquareSum(y))
  {
    hide Sum, SumOf, SquareSum, Eval, Vars, Squares, Values, At, Signs, Scaled, Satisfies;
    var vs, ws := Xs(m), Ys(m);
    HalvesJoin(vs, ws, s);
    ScalarProduct(m, Vars(vs), Vars(ws), s);
    ValuesOfVars(vs, s);
    ValuesOfVars(ws, s);
    ScalarProduct(m, Squares(vs), Squares(ws), s);
    SquareValues(vs, s);
    SquareValues(ws, s);
    SatisfiesThree(BalanceConstraints(m), s);
    EqualsZero(SumOf(Scaled(Vars(vs + ws), Signs(m))), s);
    EqualsZero(SumOf(Scaled(Squares(vs + ws), Signs(m))), s);
  }

  lemma EqualsZero(e: Expr<Var>, s: Var -> int)
    ensures Holds(Compare(e, Eq, Const(0)), s) <==> Eval(e, s) == 0
  {}

  lemma ClosedFormsMean(m: nat, s: Var -> int)
    ensures Satisfies(ClosedFormConstraints(m), s) <==> HasClosedForms(m, At(Xs(m), s), At(Ys(m), s))
  {
    hide Sum, SumOf, SquareSum, Eval, Vars, Squares, Values, At, HalfSum, HalfSquareSum, Satisfies;
    var vs, ws := Xs(m), Ys(m);
    ValuesOfVars(vs, s);
    ValuesOfVars(ws, s);
    SquareValues(vs, s);
    SquareValues(ws, s);
    SumOfValues(Vars(vs), s);
    SumOfValues(Vars(ws), s);
    SumOfValues(Squares(vs), s);
    SumOfValues(Squares(ws), s);
    EvalConst<Var>(HalfSum(m), s);
    EvalConst<Var>(HalfSquareSum(m), s);
    SatisfiesFour(ClosedFormConstraints(m), s);
  }

  lemma SatisfiesFour(cs: seq<Constraint<Var>>, s: Var -> int)
    requires |cs| == 4
    ensures Satisfies(cs, s) <==> Holds(cs[0], s) && Holds(cs[1], s) && Holds(cs[2], s) && Holds(cs[3], s)
  {}

  lemma PartitionMeans(m: nat, s: Var -> int)
    requires m > 0
    ensures Satisfies(PartitionConstraints(m), s) <==>
      (IsPartition(m, At(Xs(m), s), At(Ys(m), s)) && HasClosedForms(m, At(Xs(m), s), At(Ys(m), s)))
  {
    hide OrderConstraints, BalanceConstraints, ClosedFormConstraints, Domains, Satisfies, HasClosedForms, Sum,
        SquareSum;
    var vs, ws := Xs(m), Ys(m);
    DomainsHold(vs, 1, 2 * m, s);
    DomainsHold(ws, 1, 2 * m, s);
    OrderMeans(m - 1, s);
    var first := Compare(Var(X(0)), Less, Var(Y(0)));
    SatisfiesOne(first, s);
    BalanceMeans(m, s);
    ClosedFormsMean(m, s);
    var a, b := Domains(vs, 1, 2 * m), Domains(ws, 1, 2 * m);
    SatisfiesConcat(a, b, s);
    SatisfiesConcat(a + b, OrderConstraints(m - 1), s);
    SatisfiesConcat(a + b + OrderConstraints(m - 1), [first], s);
    SatisfiesConcat(BalanceConstraints(m), ClosedFormConstraints(m), s);
    SatisfiesConcat(a + b + OrderConstraints(m - 1) + [first], BalanceConstraints(m) + ClosedFormConstraints(m), s);
  }

  /** The posted model has a solution exactly when m is even and at least 4. */
  lemma ModelFeasible(m: nat)
    requires m > 0
    ensures (exists s :: Satisfies(PartitionConstraints(m), s)) <==> m % 2 == 0 && m >= 4
  {
    hide IsPartition, HasClosedForms, PartitionConstraints, Satisfies;
    forall s | Satisfies(PartitionConstraints(m), s)
      ensures m % 2 == 0 && m >= 4
    {
      PartitionMeans(m, s);
      ClosedFormsAreRedundant(m, At(Xs(m), s), At(Ys(m), s));
    }
    if m % 2 == 0 && m >= 4 {
      var x, y := PartitionExists(m);
      ClosedFormsAreRedundant(m, x, y);
      PartitionSizes(m, x, y);
      var s := (v: Var) => match v
        case X(i) => if i < m then x[i] else 0
        case Y(i) => if i < m then y[i] else 0;
      assert At(Xs(m), s) == x && At(Ys(m), s) == y;
      PartitionMeans(m, s);
    }
  }

  lemma PartitionSizes(m: nat, x: seq<int>, y: seq<int>)
    requires IsPartition(m, x, y)
    ensures |x| == |y| == m
  {}

  // ---------- The posted model in full ----------

  function Squared(x: seq<int>): (r: seq<int>)
    ensures |r| == |x| && forall i :: 0 <= i < |x| ==> r[i] == x[i] * x[i]
  {
    seq(|x|, i requires 0 <= i < |x| => x[i] * x[i])
  }

  lemma {:induction false} SquareSumIsSum(x: seq<int>)
    ensures SquareSum(x) == Sum(Squared(x))
  {
    if x != [] {
      SquareSumIsSum(x[..|x| - 1]);
      assert Squared(x)[..|x| - 1] == Squared(x[..|x| - 1]);
    }
  }

  /** The posted constraints, spelled out on the two halves. */
  lemma PartitionInFull(m: nat, s: Var -> int)
    requires m > 0
    ensures var x, y := At(Xs(m), s), At(Ys(m), s);
      Satisfies(PartitionConstraints(m), s) <==>
        && (forall i :: 0 <= i < m ==> 1 <= x[i] <= 2 * m && 1 <= y[i] <= 2 * m)
        && (forall i :: 0 <= i < m - 1 ==> x[i] < x[i + 1]) && (forall i :: 0 <= i < m - 1 ==> y[i] < y[i + 1])
        && x[0] < y[0] && (forall i, j :: 0 <= i < m && 0 <= j < m ==> x[i] != y[j])
        && Sum(x) == Sum(y) == 2 * m * (2 * m + 1) / 4
        && Sum(Squared(x)) == Sum(Squared(y)) == 2 * m * (2 * m + 1) * (4 * m + 1) / 12
  {
    hide Satisfies, PartitionConstraints, Sum, SquareSum, HalfSum, HalfSquareSum, Squared;
    PartitionMeans(m, s);
    var x, y := At(Xs(m), s), At(Ys(m), s);
    SquareSumIsSum(x);
    SquareSumIsSum(y);
    ClosedFormsAre(m);
    DistinctHalves(x, y);
  }

  lemma ClosedFormsAre(m: nat)
    ensures HalfSum(m) == 2 * m * (2 * m + 1) / 4 && HalfSquareSum(m) == 2 * m * (2 * m + 1) * (4 * m + 1) / 12
  {}

  lemma DistinctHalves(x: seq<int>, y: seq<int>)
    requires |x| == |y|
    ensures Increasing(x) && Increasing(y) ==>
      (Distinct(x + y) <==> forall i, j :: 0 <= i < |x| && 0 <= j < |x| ==> x[i] != y[j])
  {
    var m, xy := |x|, x + y;
    if Increasing(x) && Increasing(y) {
      if Distinct(xy) {
        forall i, j | 0 <= i < m && 0 <= j < m
          ensures x[i] != y[j]
        {
          assert xy[i] != xy[m + j];
        }
      }
      IncreasingIsDistinct(x);
      IncreasingIsDistinct(y);
    }
  }

  lemma IncreasingIsDistinct(x: seq<int>)
    requires Increasing(x)
    ensures Distinct(x)
  {
    forall i, j | 0 <= i < j < |x|
      ensures x[i] != x[j]
    {
      StrictlyBelow(x, i, j);
    }
  }

  lemma {:induction false} StrictlyBelow(x: seq<int>, i: nat, j: nat)
    requires Increasing(x) && i < j < |x|
    ensures x[i] < x[j]
  {
    if i < j - 1 {
      StrictlyBelow(x, i, j - 1);
    }
  }
}
