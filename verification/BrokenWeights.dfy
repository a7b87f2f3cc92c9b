/** The broken weights model: n pieces of total weight m that weigh every load from 1 to m on a balance. */
module BrokenWeights {
  import opened Cp
  import opened Digits
  import opened Permutations
  import opened Sums

  datatype Var = Weight(j: nat) | Side(i: nat, j: nat)

  function Weights(n: nat): (vs: seq<Var>)
    ensures |vs| == n && forall j :: 0 <= j < n ==> vs[j] == Weight(j)
  {
    seq(n, j requires 0 <= j => Weight(j))
  }

  function Sides(i: nat, n: nat): (vs: seq<Var>)
    ensures |vs| == n && forall j :: 0 <= j < n ==> vs[j] == Side(i, j)
  {
    seq(n, j requires 0 <= j => Side(i, j))
  }

  function Terms(i: nat, n: nat): (es: seq<Expr<Var>>)
    ensures |es| == n && forall j :: 0 <= j < n ==> es[j] == Times(Var(Weight(j)), Var(Side(i, j)))
  {
    seq(n, j requires 0 <= j => Times(Var(Weight(j)), Var(Side(i, j))))
  }

  function SideDomains(k: nat, n: nat): seq<Constraint<Var>> {
    if k == 0 then [] else SideDomains(k - 1, n) + Domains(Sides(k - 1, n), -1, 1)
  }

  /** The first k + 1 weights increase. */
  function OrderConstraints(k: nat): seq<Constraint<Var>> {
    if k == 0 then [] else OrderConstraints(k - 1) + [Compare(Var(Weight(k - 1)), Less, Var(Weight(k)))]
  }

  /** The loads 1..k can be weighed. */
  function LoadConstraints(k: nat, n: nat): seq<Constraint<Var>> {
    if k == 0 then [] else LoadConstraints(k - 1, n) + [Compare(Const(k), Eq, SumOf(Terms(k - 1, n)))]
  }

  function Pred(n: nat): nat {
    if n == 0 then 0 else n - 1
  }

  function WeightConstraints(m: nat, n: nat): seq<Constraint<Var>> {
    Domains(Weights(n), 1, m) + SideDomains(m, n) + OrderConstraints(Pred(n))
    + [Compare(SumOf(Vars(Weights(n))), Eq, Const(m))] + LoadConstraints(m, n)
  }

  method PostWeights(m: nat, n: nat) returns (cs: seq<Constraint<Var>>)
    ensures cs == WeightConstraints(m, n)
    ensures forall s: Var -> int :: Satisfies(cs, s) <==> Weighs(m, At(Weights(n), s), Rows(m, n, s))
  {
    hide Domains, SumOf, Satisfies, Weighs;
    var weights := Weights(n);
    var x, sides := DeclareSides(m, n);
    cs := Domains(weights, 1, m) + sides;
    ghost var before := cs;
    var j := 1;
    while j < n
      invariant 1 <= j && Pred(j) <= Pred(n)
      invariant cs == before + OrderConstraints(j - 1)
    {
      cs := cs + [Compare(Var(weights[j - 1]), Less, Var(weights[j]))];
      j := j + 1;
    }
    cs := cs + [Compare(SumOf(Vars(weights)), Eq, Const(m))];
    var loads := PostLoads(m, n, weights, x);
    cs := cs + loads;
    assert cs == WeightConstraints(m, n);
    forall s: Var -> int
      ensures Satisfies(cs, s) <==> Weighs(m, At(Weights(n), s), Rows(m, n, s))
    {
      WeightsMean(m, n, s);
    }
  }

  method DeclareSides(m: nat, n: nat) returns (x: map<(nat, nat), Var>, cs: seq<Constraint<Var>>)
    ensures forall i: nat, j: nat :: i < m && j < n ==> (i, j) in x && x[(i, j)] == Side(i, j)
    ensures cs == SideDomains(m, n)
  {
    x, cs := map[], [];
    for i := 0 to m
      invariant forall k: nat, j: nat :: k < i && j < n ==> (k, j) in x && x[(k, j)] == Side(k, j)
      invariant cs == SideDomains(i, n)
    {
      ghost var before := cs;
      for j := 0 to n
        invariant forall k: nat, l: nat :: (k < i && l < n) || (k == i && l < j) ==>
          (k, l) in x && x[(k, l)] == Side(k, l)
        invariant cs == before + Domains(Sides(i, j), -1, 1)
      {
        x := x[(i, j) := Side(i, j)];
        cs := cs + [Domain(x[(i, j)], -1, 1)];
        assert Domains(Sides(i, j + 1), -1, 1) == Domains(Sides(i, j), -1, 1) + [Domain(Side(i, j), -1, 1)];
      }
    }
  }

  method PostLoads(m: nat, n: nat, weights: seq<Var>, x: map<(nat, nat), Var>) returns (cs: seq<Constraint<Var>>)
    requires weights == Weights(n)
    requires forall i: nat, j: nat :: i < m && j < n ==> (i, j) in x && x[(i, j)] == Side(i, j)
    ensures cs == LoadConstraints(m, n)
  {
    hide SumOf;
    cs := [];
    for i := 0 to m
      invariant cs == LoadConstraints(i, n)
    {
      var terms := seq(n, j requires 0 <= j < n => Times(Var(weights[j]), Var(x[(i, j)])));
      assert terms == Terms(i, n);
      cs := cs + [Compare(Const(i + 1), Eq, SumOf(terms))];
    }
  }

  // ---------- What the posted constraints mean ----------

  predicate IsSides(v: seq<int>) {
    InRange(v, -1, 2)
  }

  /** What the pieces weigh together, each on its side of the balance. */
  function Dot(w: seq<int>, v: seq<int>): int
    requires |w| == |v|
  {
    if w == [] then 0 else Dot(w[..|w| - 1], v[..|v| - 1]) + w[|w| - 1] * v[|v| - 1]
  }

  ghost predicate CanWeigh(w: seq<int>, load: int) {
    exists v :: |v| == |w| && IsSides(v) && Dot(w, v) == load
  }

  predicate Increasing(w: seq<int>) {
    forall j :: 0 < j < |w| ==> w[j - 1] < w[j]
  }

  /** Pieces that increase, add up to m and can weigh every load up to m. */
  ghost predicate AreWeights(m: nat, w: seq<int>) {
    && (forall j :: 0 <= j < |w| ==> w[j] >= 1) && Increasing(w) && Sum(w) == m
    && forall load :: 0 <= load <= m ==> CanWeigh(w, load)
  }

  function Triangle(n: nat): nat {
    if n == 0 then 0 else Triangle(n - 1) + n
  }

  // ---------- The necessary conditions ----------

  lemma {:induction false} SumIsAtLeastTriangle(w: seq<int>)
    requires (forall j :: 0 <= j < |w| ==> w[j] >= 1) && Increasing(w)
    ensures Sum(w) >= Triangle(|w|) && (w != [] ==> w[|w| - 1] >= |w|)
  {
    if w != [] {
      var v := w[..|w| - 1];
      assert Increasing(v);
      SumIsAtLeastTriangle(v);
    }
  }

  /** A position of the pieces as a number in base 3. */
  function Code(v: seq<int>): (r: int)
    requires IsSides(v)
    ensures 0 <= r < Pow(3, |v|)
  {
    if v == [] then 0 else 3 * Code(v[..|v| - 1]) + v[|v| - 1] + 1
  }

  lemma {:induction false} CodeIsInjective(u: seq<int>, v: seq<int>)
    requires IsSides(u) && IsSides(v) && |u| == |v| && Code(u) == Code(v)
    ensures u == v
  {
    if u != [] {
      CodeIsInjective(u[..|u| - 1], v[..|v| - 1]);
      assert u == u[..|u| - 1] + [u[|u| - 1]];
    }
  }

  /** Swapping the two sides of the balance. */
  lemma {:induction false} Swapped(w: seq<int>, v: seq<int>) returns (u: seq<int>)
    requires |w| == |v| && IsSides(v)
    ensures |u| == |w| && IsSides(u) && Dot(w, u) == -Dot(w, v)
  {
    if w == [] {
      u := [];
    } else {
      var u' := Swapped(w[..|w| - 1], v[..|v| - 1]);
      u := u' + [-v[|v| - 1]];
      assert u[..|u| - 1] == u';
      Negate(w[|w| - 1], v[|v| - 1]);
    }
  }

  lemma Negate(a: int, b: int)
    ensures a * -b == -(a * b)
  {}

  lemma CanWeighNegative(w: seq<int>, load: int)
    requires CanWeigh(w, load)
    ensures CanWeigh(w, -load)
  {
    var v :| |v| == |w| && IsSides(v) && Dot(w, v) == load;
    var u := Swapped(w, v);
  }

  /** One position for each load from -m upwards. */
  lemma {:induction false} Positions(m: nat, w: seq<int>, k: nat) returns (rows: seq<seq<int>>)
    requires AreWeights(m, w) && k <= 2 * m + 1
    ensures |rows| == k
    ensures forall i :: 0 <= i < k ==> |rows[i]| == |w| && IsSides(rows[i]) && Dot(w, rows[i]) == i - m
  {
    if k == 0 {
      rows := [];
    } else {
      rows := Positions(m, w, k - 1);
      var load := k - 1 - m;
      if load < 0 {
        CanWeighNegative(w, -load);
      }
      assert CanWeigh(w, load);
      var v :| |v| == |w| && IsSides(v) && Dot(w, v) == load;
      rows := rows + [v];
    }
  }

  /** Each of the loads -m..m takes a position of its own, and there are 3^n positions. */
  lemma LoadsAreLimited(m: nat, w: seq<int>)
    requires AreWeights(m, w)
    ensures 2 * m + 1 <= Pow(3, |w|)
  {
    hide AreWeights, Pow, Dot, Code, Sum;
    var k := 2 * m + 1;
    var rows := Positions(m, w, k);
    var codes := seq(k, i requires 0 <= i < k => Code(rows[i]));
    forall i, j | 0 <= i < j < k
      ensures codes[i] != codes[j]
    {
      if codes[i] == codes[j] {
        CodeIsInjective(rows[i], rows[j]);
      }
    }
    Pigeonhole(codes, 0, Pow(3, |w|));
  }

  // ---------- The sufficient condition ----------

  /** A piece of at most 2S + 1 doubles down on pieces that weigh everything up to S. */
  lemma AddPiece(s: nat, w: seq<int>, a: nat)
    requires AreWeights(s, w) && 0 < a <= 2 * s + 1 && (w != [] ==> w[|w| - 1] < a)
    ensures AreWeights(s + a, w + [a])
  {
    hide CanWeigh, Sum;
    var all := w + [a];
    SumAppend(w, a);
    forall load | 0 <= load <= s + a
      ensures CanWeigh(all, load)
    {
      if load <= s {
        assert CanWeigh(w, load);
        WeighWith(w, load, a, 0);
      } else {
        if load < a {
          assert CanWeigh(w, a - load);
          CanWeighNegative(w, a - load);
        }
        assert CanWeigh(w, load - a);
        WeighWith(w, load - a, a, 1);
      }
    }
  }

  lemma WeighWith(w: seq<int>, load: int, a: int, last: int)
    requires CanWeigh(w, load) && -1 <= last <= 1
    ensures CanWeigh(w + [a], load + a * last)
  {
    hide Dot;
    var v :| |v| == |w| && IsSides(v) && Dot(w, v) == load;
    DotAppend(w, v, a, last);
    assert IsSides(v + [last]);
  }

  lemma DotAppend(w: seq<int>, v: seq<int>, a: int, x: int)
    requires |w| == |v|
    ensures Dot(w + [a], v + [x]) == Dot(w, v) + a * x
  {
    assert (v + [x])[..|w|] == v && (w + [a])[..|w|] == w;
  }

  lemma {:induction false} TriangleFits(n: nat)
    ensures 2 * Triangle(n) + 1 <= Pow(3, n)
  {
    if n > 1 {
      TriangleFits(n - 1);
      LinearFits(n);
    }
  }

  lemma {:induction false} LinearFits(n: nat)
    ensures n > 0 ==> n <= Pow(3, n - 1)
  {
    if n > 1 {
      LinearFits(n - 1);
    }
  }

  lemma NoPieces()
    ensures AreWeights(0, [])
  {
    assert Dot([], []) == 0;
    assert CanWeigh([], 0);
  }

  lemma {:induction false} Pow3IsOdd(n: nat) returns (half: nat)
    ensures Pow(3, n) == 2 * half + 1
  {
    if n == 0 {
      half := 0;
    } else {
      var h := Pow3IsOdd(n - 1);
      half := 3 * h + 1;
    }
  }

  lemma ThirdFits(m: nat, n: nat)
    requires n > 0 && 2 * m + 1 <= Pow(3, n)
    ensures 2 * ((m + 1) / 3) + 1 <= Pow(3, n - 1)
  {
    var h := Pow3IsOdd(n - 1);
    ThirdBound(m, h);
  }

  lemma ThirdBound(m: nat, h: nat)
    requires 2 * m + 1 <= 3 * (2 * h + 1)
    ensures (m + 1) / 3 <= h
  {}

  lemma OnlyEmptyTotal(m: nat)
    requires 2 * m + 1 <= Pow(3, 0)
    ensures m == 0
  {}

  /** Pieces for every total between 1 + ... + n and (3^n - 1) / 2. */
  lemma {:induction false} WeightsExist(m: nat, n: nat) returns (w: seq<int>)
    requires Triangle(n) <= m && 2 * m + 1 <= Pow(3, n)
    ensures |w| == n && AreWeights(m, w)
  {
    hide AreWeights, Pow;
    if n == 0 {
      w := [];
      OnlyEmptyTotal(m);
      NoPieces();
    } else {
      TriangleFits(n - 1);
      ThirdFits(m, n);
      var third := (m + 1) / 3;
      var s := if third < Triangle(n - 1) then Triangle(n - 1) else third;
      w := WeightsExist(s, n - 1);
      LastIsLighter(m, n, s, w);
      AddPiece(s, w, m - s);
      w := w + [m - s];
    }
  }

  lemma LastIsLighter(m: nat, n: nat, s: nat, w: seq<int>)
    requires n > 0 && |w| == n - 1 && AreWeights(s, w) && Triangle(n) <= m
    requires s == Triangle(n - 1) || s == (m + 1) / 3
    ensures s < m && (w != [] ==> w[|w| - 1] < m - s)
  {
    if w != [] {
      var v := w[..|w| - 1];
      assert Increasing(v);
      SumIsAtLeastTriangle(v);
      assert Triangle(n) >= 3;
    }
  }

  function Powers(n: nat): (w: seq<int>)
    ensures |w| == n && forall j :: 0 <= j < n ==> w[j] == Pow(3, j)
  {
    if n == 0 then [] else Powers(n - 1) + [Pow(3, n - 1)]
  }

  /** The powers of three reach the limit: every load has a balanced ternary representation. */
  lemma {:induction false} PowersOfThree(n: nat)
    ensures AreWeights((Pow(3, n) - 1) / 2, Powers(n))
  {
    hide AreWeights, Triangle;
    if n == 0 {
      NoPieces();
    } else {
      PowersOfThree(n - 1);
      var h := Pow3IsOdd(n - 1);
      AddPiece(h, Powers(n - 1), Pow(3, n - 1));
    }
  }

  // ---------- The posted model ----------

  lemma {:induction false} SideDomainsMean(k: nat, n: nat, s: Var -> int)
    ensures Satisfies(SideDomains(k, n), s) <==> forall i :: 0 <= i < k ==> IsSides(At(Sides(i, n), s))
  {
    if k > 0 {
      SideDomainsMean(k - 1, n, s);
      SatisfiesConcat(SideDomains(k - 1, n), Domains(Sides(k - 1, n), -1, 1), s);
      RowMeans(k - 1, n, s);
    }
  }

  lemma RowMeans(i: nat, n: nat, s: Var -> int)
    ensures Satisfies(Domains(Sides(i, n), -1, 1), s) <==> IsSides(At(Sides(i, n), s))
  {
    hide Domains, Satisfies;
    DomainsHold(Sides(i, n), -1, 1, s);
    var v := At(Sides(i, n), s);
    assert forall j :: 0 <= j < n ==> v[j] == s(Sides(i, n)[j]);
  }

  lemma {:induction false} OrderMeans(k: nat, s: Var -> int)
    ensures Satisfies(OrderConstraints(k), s) <==> forall j :: 0 < j <= k ==> s(Weight(j - 1)) < s(Weight(j))
  {
    if k > 0 {
      OrderMeans(k - 1, s);
      var c := Compare(Var(Weight(k - 1)), Less, Var(Weight(k)));
      SatisfiesConcat(OrderConstraints(k - 1), [c], s);
      SatisfiesOne(c, s);
    }
  }

  lemma {:induction false} DotIsSum(w: seq<int>, v: seq<int>, zs: seq<int>)
    requires |w| == |v| == |zs| && forall j :: 0 <= j < |w| ==> zs[j] == w[j] * v[j]
    ensures Sum(zs) == Dot(w, v)
  {
    if w != [] {
      DotIsSum(w[..|w| - 1], v[..|v| - 1], zs[..|zs| - 1]);
    }
  }

  lemma TermsAddUp(i: nat, n: nat, s: Var -> int)
    ensures Eval(SumOf(Terms(i, n)), s) == Dot(At(Weights(n), s), At(Sides(i, n), s))
  {
    var es, w, v := Terms(i, n), At(Weights(n), s), At(Sides(i, n), s);
    SumOfValues(es, s);
    forall j | 0 <= j < n
      ensures Values(es, s)[j] == w[j] * v[j]
    {
      assert Eval(es[j], s) == s(Weight(j)) * s(Side(i, j));
    }
    DotIsSum(w, v, Values(es, s));
  }

  lemma {:induction false} LoadsMean(k: nat, n: nat, s: Var -> int)
    ensures Satisfies(LoadConstraints(k, n), s) <==>
      forall i :: 0 <= i < k ==> Dot(At(Weights(n), s), At(Sides(i, n), s)) == i + 1
  {
    hide Dot, SumOf, At;
    if k > 0 {
      LoadsMean(k - 1, n, s);
      var c := Compare(Const(k), Eq, SumOf(Terms(k - 1, n)));
      SatisfiesConcat(LoadConstraints(k - 1, n), [c], s);
      SatisfiesOne(c, s);
      TermsAddUp(k - 1, n, s);
    }
  }

  /** The rows of x weigh the loads 1..m with the pieces w. */
  ghost predicate Weighs(m: nat, w: seq<int>, rows: seq<seq<int>>) {
    && |rows| == m && InRange(w, 1, m + 1) && Increasing(w) && Sum(w) == m
    && forall i :: 0 <= i < m ==> |rows[i]| == |w| && IsSides(rows[i]) && Dot(w, rows[i]) == i + 1
  }

  function Rows(m: nat, n: nat, s: Var -> int): (r: seq<seq<int>>)
    ensures |r| == m && forall i :: 0 <= i < m ==> r[i] == At(Sides(i, n), s)
  {
    seq(m, i requires 0 <= i => At(Sides(i, n), s))
  }

  lemma WeightsMean(m: nat, n: nat, s: Var -> int)
    ensures Satisfies(WeightConstraints(m, n), s) <==> Weighs(m, At(Weights(n), s), Rows(m, n, s))
  {
    hide Domains, SideDomains, OrderConstraints, LoadConstraints, Satisfies, Dot, Sum, SumOf, IsSides;
    var ws := Weights(n);
    DomainsHold(ws, 1, m, s);
    SideDomainsMean(m, n, s);
    OrderMeans(Pred(n), s);
    LoadsMean(m, n, s);
    var total := Compare(SumOf(Vars(ws)), Eq, Const(m));
    SatisfiesOne(total, s);
    SumOfValues(Vars(ws), s);
    ValuesOfVars(ws, s);
    var a, b, c, d := Domains(ws, 1, m), SideDomains(m, n), OrderConstraints(Pred(n)), LoadConstraints(m, n);
    SatisfiesConcat(a, b, s);
    SatisfiesConcat(a + b, c, s);
    SatisfiesConcat(a + b + c, [total], s);
    SatisfiesConcat(a + b + c + [total], d, s);
  }

  lemma {:induction false} SumIsAtLeastEach(w: seq<int>, j: nat)
    requires j < |w| && forall k :: 0 <= k < |w| ==> w[k] >= 1
    ensures w[j] <= Sum(w)
  {
    if j < |w| - 1 {
      SumIsAtLeastEach(w[..|w| - 1], j);
    } else if j > 0 {
      SumIsAtLeastEach(w[..|w| - 1], 0);
    }
  }

  lemma {:induction false} DotZero(w: seq<int>) returns (v: seq<int>)
    ensures |v| == |w| && IsSides(v) && Dot(w, v) == 0
  {
    if w == [] {
      v := [];
    } else {
      var v' := DotZero(w[..|w| - 1]);
      v := v' + [0];
      assert v[..|v| - 1] == v';
    }
  }

  lemma WeighsIsAreWeights(m: nat, w: seq<int>)
    ensures (exists rows :: Weighs(m, w, rows)) <==> AreWeights(m, w)
  {
    hide Dot, IsSides, Sum;
    forall rows | Weighs(m, w, rows)
      ensures AreWeights(m, w)
    {
      forall load | 0 <= load <= m
        ensures CanWeigh(w, load)
      {
        if load == 0 {
          var v := DotZero(w);
        } else {
          assert Dot(w, rows[load - 1]) == load;
        }
      }
    }
    if AreWeights(m, w) {
      var rows := Positions(m, w, 2 * m + 1);
      forall j | 0 <= j < |w|
        ensures w[j] <= m
      {
        SumIsAtLeastEach(w, j);
      }
      assert Weighs(m, w, rows[m + 1..]);
    }
  }

  /** The model has a solution exactly when 1 + ... + n <= m <= (3^n - 1) / 2. */
  lemma ModelFeasible(m: nat, n: nat)
    ensures (exists s :: Satisfies(WeightConstraints(m, n), s)) <==> Triangle(n) <= m && 2 * m + 1 <= Pow(3, n)
  {
    hide Satisfies, WeightConstraints, Weighs, AreWeights, Triangle, Pow;
    forall s | Satisfies(WeightConstraints(m, n), s)
      ensures Triangle(n) <= m && 2 * m + 1 <= Pow(3, n)
    {
      WeightsMean(m, n, s);
      var w := At(Weights(n), s);
      WeighsIsAreWeights(m, w);
      LoadsAreLimited(m, w);
      TotalIsAtLeastTriangle(m, w);
    }
    if Triangle(n) <= m && 2 * m + 1 <= Pow(3, n) {
      var w := WeightsExist(m, n);
      var s := SolutionFor(m, n, w);
    }
  }

  lemma TotalIsAtLeastTriangle(m: nat, w: seq<int>)
    requires AreWeights(m, w)
    ensures Triangle(|w|) <= m
  {
    SumIsAtLeastTriangle(w);
  }

  lemma SolutionFor(m: nat, n: nat, w: seq<int>) returns (s: Var -> int)
    requires AreWeights(m, w) && |w| == n
    ensures At(Weights(n), s) == w && Satisfies(WeightConstraints(m, n), s)
  {
    hide Satisfies, WeightConstraints, AreWeights, Dot, Sum, IsSides;
    WeighsIsAreWeights(m, w);
    var rows :| Weighs(m, w, rows);
    assert |rows| == m && forall i :: 0 <= i < m ==> |rows[i]| == n;
    s := (v: Var) => match v
      case Weight(j) => if j < n then w[j] else 0
      case Side(i, j) => if i < m && j < n then rows[i][j] else 0;
    assert At(Weights(n), s) == w;
    forall i | 0 <= i < m
      ensures Rows(m, n, s)[i] == rows[i]
    {
      assert At(Sides(i, n), s) == rows[i];
    }
    assert Rows(m, n, s) == rows;
    WeightsMean(m, n, s);
  }

  /** At the limit the powers of three solve the posted model. */
  lemma PowersSolveModel(n: nat) returns (s: Var -> int)
    ensures Satisfies(WeightConstraints((Pow(3, n) - 1) / 2, n), s) && At(Weights(n), s) == Powers(n)
  {
    hide Satisfies, WeightConstraints, AreWeights;
    PowersOfThree(n);
    s := SolutionFor((Pow(3, n) - 1) / 2, n, Powers(n));
  }

  // ---------- The posted model in full ----------

  function Products(w: seq<int>, v: seq<int>): (r: seq<int>)
    requires |w| == |v|
    ensures |r| == |w| && forall j :: 0 <= j < |w| ==> r[j] == w[j] * v[j]
  {
    seq(|w|, j requires 0 <= j < |w| => w[j] * v[j])
  }

  /** The posted constraints, spelled out: each row puts every piece on a side of the balance or leaves it out. */
  lemma WeightsInFull(m: nat, n: nat, s: Var -> int)
    ensures var w := At(Weights(n), s);
      Satisfies(WeightConstraints(m, n), s) <==>
        && (forall j :: 0 <= j < n ==> 1 <= w[j] <= m) && (forall j :: 0 < j < n ==> w[j - 1] < w[j]) && Sum(w) == m
        && (forall i: nat, j: nat :: i < m && j < n ==> -1 <= s(Side(i, j)) <= 1)
        && (forall i: nat :: i < m ==> Sum(Products(w, At(Sides(i, n), s))) == i + 1)
  {
    hide Satisfies, WeightConstraints, Sum, Dot, Products;
    WeightsMean(m, n, s);
    RowsInFull(m, n, s);
  }

  lemma RowsInFull(m: nat, n: nat, s: Var -> int)
    ensures var w, rows := At(Weights(n), s), Rows(m, n, s);
      (forall i :: 0 <= i < m ==> |rows[i]| == |w| && IsSides(rows[i]) && Dot(w, rows[i]) == i + 1) <==>
        && (forall i: nat, j: nat :: i < m && j < n ==> -1 <= s(Side(i, j)) <= 1)
        && (forall i: nat :: i < m ==> Sum(Products(w, At(Sides(i, n), s))) == i + 1)
  {
    hide Sum, Dot, Products, IsSides;
    var w, rows := At(Weights(n), s), Rows(m, n, s);
    forall i: nat | i < m
      ensures Dot(w, rows[i]) == Sum(Products(w, At(Sides(i, n), s)))
      ensures IsSides(rows[i]) <==> forall j: nat :: j < n ==> -1 <= s(Side(i, j)) <= 1
    {
      DotIsSum(w, rows[i], Products(w, rows[i]));
      SidesInFull(i, n, s);
    }
    if forall i :: 0 <= i < m ==> |rows[i]| == |w| && IsSides(rows[i]) && Dot(w, rows[i]) == i + 1 {
      forall i: nat, j: nat | i < m && j < n
        ensures -1 <= s(Side(i, j)) <= 1
      {
        assert IsSides(rows[i]);
      }
      forall i: nat | i < m
        ensures Sum(Products(w, At(Sides(i, n), s))) == i + 1
      {
        assert Dot(w, rows[i]) == i + 1;
      }
    }
  }

  lemma SidesInFull(i: nat, n: nat, s: Var -> int)
    ensures IsSides(At(Sides(i, n), s)) <==> forall j: nat :: j < n ==> -1 <= s(Side(i, j)) <= 1
  {
    var v := At(Sides(i, n), s);
    assert forall j: nat :: j < n ==> v[j] == s(Side(i, j));
  }
}
