/** The magic sequence model: x[k] is the number of times k occurs in x. */
module MagicSequence {
  import opened Cp
  import opened Permutations
  import opened Sums

  /** The sequence, and the literal that says whether x[i] is k. */
  datatype Var = X(i: nat) | Is(k: nat, i: nat)

  function Xs(n: nat): (vs: seq<Var>)
    ensures |vs| == n && forall i :: 0 <= i < n ==> vs[i] == X(i)
  {
    seq(n, i requires 0 <= i => X(i))
  }

  function Literals(k: nat, n: nat): (vs: seq<Var>)
    ensures |vs| == n && forall i :: 0 <= i < n ==> vs[i] == Is(k, i)
  {
    seq(n, i requires 0 <= i => Is(k, i))
  }

  /** Literal (k, i) is true exactly when x[i] is k. */
  function LiteralConstraints(k: nat, i: nat): seq<Constraint<Var>> {
    if i == 0 then []
    else LiteralConstraints(k, i - 1) +
         [Domain(Is(k, i - 1), 0, 1),
          EnforcedIf(Is(k, i - 1), 1, Var(X(i - 1)), Eq, Const(k)),
          EnforcedIf(Is(k, i - 1), 0, Var(X(i - 1)), Neq, Const(k))]
  }

  /** The literals of number k are right, and there are x[k] true ones. */
  function RoundConstraints(n: nat, k: nat): seq<Constraint<Var>> {
    LiteralConstraints(k, n) + [Compare(SumOf(Vars(Literals(k, n))), Eq, Var(X(k)))]
  }

  function CountConstraints(n: nat, k: nat): seq<Constraint<Var>> {
    if k == 0 then [] else CountConstraints(n, k - 1) + RoundConstraints(n, k - 1)
  }

  function MagicConstraints(n: nat): seq<Constraint<Var>> {
    Domains(Xs(n), 0, n) + CountConstraints(n, n) + [Compare(SumOf(Vars(Xs(n))), Eq, Const(n))]
  }

  /** One round of the outer loop: the literals of number k and their sum. */
  method PostRound(n: nat, k: nat) returns (model: seq<Constraint<Var>>)
    ensures model == RoundConstraints(n, k)
  {
    model := [];
    var tmpArray: seq<Var> := [];
    for i := 0 to n
      invariant tmpArray == Literals(k, n)[..i]
      invariant model == LiteralConstraints(k, i)
    {
      var tmpVar := Is(k, i);
      model := model + [Domain(tmpVar, 0, 1),
                        EnforcedIf(tmpVar, 1, Var(X(i)), Eq, Const(k)),
                        EnforcedIf(tmpVar, 0, Var(X(i)), Neq, Const(k))];
      tmpArray := tmpArray + [tmpVar];
    }
    assert tmpArray == Literals(k, n);
    model := model + [Compare(SumOf(Vars(tmpArray)), Eq, Var(X(k)))];
  }

  method PostMagic(n: nat) returns (model: seq<Constraint<Var>>)
    ensures model == MagicConstraints(n)
    ensures forall s: Var -> int :: Satisfies(model, s) <==>
      IsMagic(At(Xs(n), s)) && forall k :: 0 <= k < n ==> LiteralsOk(k, n, s)
  {
    hide RoundConstraints, Satisfies, IsMagic, LiteralsOk;
    model := Domains(Xs(n), 0, n);
    ghost var before := model;
    for k := 0 to n
      invariant model == before + CountConstraints(n, k)
    {
      var round := PostRound(n, k);
      model := model + round;
    }
    model := model + [Compare(SumOf(Vars(Xs(n))), Eq, Const(n))];
    assert model == MagicConstraints(n);
    forall s: Var -> int
      ensures Satisfies(model, s) <==> IsMagic(At(Xs(n), s)) && forall k :: 0 <= k < n ==> LiteralsOk(k, n, s)
    {
      MagicMeans(n, s);
    }
  }

  // ---------- What the posted constraints mean ----------

  /** Entries between 0 and n, each counting its own index. */
  ghost predicate IsMagic(x: seq<int>) {
    InRange(x, 0, |x| + 1) && forall k :: 0 <= k < |x| ==> x[k] == Count(x, k)
  }

  function Counts(xs: seq<int>, n: nat): (r: seq<int>)
    ensures |r| == n && forall k :: 0 <= k < n ==> r[k] == Count(xs, k)
  {
    seq(n, k requires 0 <= k => Count(xs, k))
  }

  lemma {:induction false} SumUpdate(xs: seq<int>, i: nat, y: int)
    requires i < |xs|
    ensures Sum(xs[i := y]) == Sum(xs) - xs[i] + y
  {
    var n := |xs| - 1;
    if i == n {
      assert xs[i := y][..n] == xs[..n];
    } else {
      assert xs[i := y][..n] == xs[..n][i := y];
      SumUpdate(xs[..n], i, y);
    }
  }

  /** Every entry is counted once. */
  lemma {:induction false} CountsAddUp(xs: seq<int>, n: nat)
    requires InRange(xs, 0, n)
    ensures Sum(Counts(xs, n)) == |xs|
  {
    if xs == [] {
      SumOfZeros(Counts(xs, n));
    } else {
      var ys, v := xs[..|xs| - 1], xs[|xs| - 1];
      CountsAddUp(ys, n);
      SumUpdate(Counts(ys, n), v, Count(ys, v) + 1);
      assert Counts(xs, n) == Counts(ys, n)[v := Count(ys, v) + 1];
    }
  }

  lemma {:induction false} CountAll(xs: seq<int>, v: int, i: nat)
    requires Count(xs, v) == |xs| && i < |xs|
    ensures xs[i] == v
  {
    if i < |xs| - 1 {
      CountAll(xs[..|xs| - 1], v, i);
    }
  }

  /** No entry is as large as the length. */
  lemma EntriesAreIndices(x: seq<int>)
    requires IsMagic(x)
    ensures InRange(x, 0, |x|)
  {
    forall i | 0 <= i < |x|
      ensures x[i] < |x|
    {
      if x[i] == |x| {
        CountAll(x, i, i);
      }
    }
  }

  /** The redundant constraint: the entries add up to the length. */
  lemma SumIsRedundant(x: seq<int>)
    requires IsMagic(x)
    ensures Sum(x) == |x|
  {
    EntriesAreIndices(x);
    CountsAddUp(x, |x|);
    assert x == Counts(x, |x|);
  }

  // ---------- Counting by positions ----------

  function Positions(xs: seq<int>, v: int): (r: set<int>)
    ensures forall i :: i in r <==> 0 <= i < |xs| && xs[i] == v
  {
    set i | 0 <= i < |xs| && xs[i] == v
  }

  lemma {:induction false} CountIsSize(xs: seq<int>, v: int)
    ensures Count(xs, v) == |Positions(xs, v)|
  {
    if xs != [] {
      var ys := xs[..|xs| - 1];
      CountIsSize(ys, v);
      if xs[|xs| - 1] == v {
        assert Positions(xs, v) == Positions(ys, v) + {|xs| - 1};
      } else {
        assert Positions(xs, v) == Positions(ys, v);
      }
    }
  }

  /** a is a set of positions of v; they are all if there are as many as v is counted. */
  lemma CountBounds(xs: seq<int>, v: int, a: set<int>)
    requires a <= Positions(xs, v)
    ensures |a| <= Count(xs, v) && (|a| == Count(xs, v) ==> a == Positions(xs, v))
  {
    CountIsSize(xs, v);
    SubsetSize(a, Positions(xs, v));
  }

  function Excess(v: int): int {
    if v >= 1 then v - 1 else 0
  }

  lemma {:induction false} ExcessSum(xs: seq<int>)
    requires forall i :: 0 <= i < |xs| ==> xs[i] >= 0
    ensures SumOver(Excess, xs) == Sum(xs) - |xs| + Count(xs, 0)
  {
    if xs != [] {
      ExcessSum(xs[..|xs| - 1]);
    }
  }

  lemma {:induction false} ExcessIsPositive(xs: seq<int>, i: nat)
    requires i < |xs|
    ensures SumOver(Excess, xs) >= Excess(xs[i]) && (SumOver(Excess, xs) == 0 ==> Excess(xs[i]) == 0)
  {
    var n := |xs| - 1;
    if i < n {
      ExcessIsPositive(xs[..n], i);
    } else if n > 0 {
      ExcessIsPositive(xs[..n], 0);
    }
  }

  /** If the excess is one, a single entry is 2 and the others are at most 1. */
  lemma {:induction false} ExcessOfOne(xs: seq<int>) returns (p: nat)
    requires SumOver(Excess, xs) == 1
    ensures p < |xs| && xs[p] == 2 && forall i :: 0 <= i < |xs| && i != p ==> xs[i] <= 1
  {
    var n := |xs| - 1;
    if Excess(xs[n]) == 0 {
      p := ExcessOfOne(xs[..n]);
    } else {
      p := n;
      if n > 0 {
        ExcessIsPositive(xs[..n], 0);
      }
      forall i | 0 <= i < n
        ensures xs[i] <= 1
      {
        ExcessIsPositive(xs[..n], i);
      }
    }
  }

  // ---------- The solutions ----------

  function Zeros(k: nat): (r: seq<int>)
    ensures |r| == k && forall i :: 0 <= i < k ==> r[i] == 0
  {
    seq(k, _ => 0)
  }

  /** The solution for n >= 7: n - 4 zeros, two ones, one two and one n - 4. */
  function Standard(n: nat): (r: seq<int>)
    requires n >= 7
    ensures |r| == n
  {
    [n - 4, 2, 1] + Zeros(n - 7) + [1] + Zeros(3)
  }

  lemma {:induction false} CountConcat(xs: seq<int>, ys: seq<int>, v: int)
    ensures Count(xs + ys, v) == Count(xs, v) + Count(ys, v)
  {
    if ys == [] {
      assert xs + ys == xs;
    } else {
      assert (xs + ys)[..|xs + ys| - 1] == xs + ys[..|ys| - 1];
      CountConcat(xs, ys[..|ys| - 1], v);
    }
  }

  lemma {:induction false} CountZeros(k: nat, v: int)
    ensures Count(Zeros(k), v) == if v == 0 then k else 0
  {
    if k > 0 {
      assert Zeros(k)[..k - 1] == Zeros(k - 1);
      CountZeros(k - 1, v);
    }
  }

  lemma CountSingle(x: int, v: int)
    ensures Count([x], v) == if x == v then 1 else 0
  {
    assert [x][..0] == [];
  }

  lemma CountTriple(x: int, y: int, z: int, v: int)
    ensures Count([x, y, z], v) == (if x == v then 1 else 0) + (if y == v then 1 else 0) + (if z == v then 1 else 0)
  {
    assert [x, y, z] == [x] + [y] + [z];
    CountConcat([x] + [y], [z], v);
    CountConcat([x], [y], v);
    CountSingle(x, v);
    CountSingle(y, v);
    CountSingle(z, v);
  }

  lemma StandardCounts(n: nat, v: int)
    requires n >= 7
    ensures Count(Standard(n), v) ==
              (if v == n - 4 then 1 else 0) + (if v == 2 then 1 else 0)
              + (if v == 1 then 2 else 0) + (if v == 0 then n - 4 else 0)
  {
    hide Count;
    CountConcat([n - 4, 2, 1] + Zeros(n - 7) + [1], Zeros(3), v);
    CountConcat([n - 4, 2, 1] + Zeros(n - 7), [1], v);
    CountConcat([n - 4, 2, 1], Zeros(n - 7), v);
    CountTriple(n - 4, 2, 1, v);
    CountSingle(1, v);
    CountZeros(n - 7, v);
    CountZeros(3, v);
  }

  lemma StandardIsMagic(n: nat)
    requires n >= 7
    ensures IsMagic(Standard(n))
  {
    var x := Standard(n);
    assert x[n - 4] == 1;
    forall k | 0 <= k < n
      ensures x[k] == Count(x, k)
    {
      StandardCounts(n, k);
    }
  }

  /** Entry 0 is positive, and among the other entries one is 2 and the rest are 0 or 1. */
  lemma MagicShape(x: seq<int>) returns (p: nat)
    requires IsMagic(x) && x != []
    ensures 1 <= x[0] < |x| && 1 <= p < |x| && |x| >= 3 && x[p] == 2
    ensures forall i :: 1 <= i < |x| && i != p ==> 0 <= x[i] <= 1
  {
    EntriesAreIndices(x);
    SumIsRedundant(x);
    if x[0] == 0 {
      CountBounds(x, 0, {0});
    }
    ExcessSum(x);
    var rest := x[1..];
    assert x == [x[0]] + rest;
    SumOverConcat(Excess, [x[0]], rest);
    SumOverSingle(Excess, x[0]);
    var q := ExcessOfOne(rest);
    p := q + 1;
  }

  /** If the entries outside a are exactly the zeros, there are that many zeros. */
  lemma ZerosOutside(x: seq<int>, a: set<int>)
    requires forall i :: i in a ==> 0 <= i < |x|
    requires forall i :: 0 <= i < |x| ==> (x[i] == 0 <==> i !in a)
    ensures Count(x, 0) == |x| - |a|
  {
    CountIsSize(x, 0);
    assert Upto(|x|) == Positions(x, 0) + a;
  }

  lemma CountOnly(x: seq<int>, v: int, a: set<int>)
    requires a == Positions(x, v)
    ensures Count(x, v) == |a|
  {
    CountIsSize(x, v);
  }

  /** With at least three zeros everything is determined. */
  lemma ManyZeros(x: seq<int>, p: nat)
    requires IsMagic(x) && 1 <= p < |x| && x[p] == 2 && 3 <= x[0] < |x|
    requires forall i :: 1 <= i < |x| && i != p ==> 0 <= x[i] <= 1
    ensures |x| >= 7 && x == Standard(|x|)
  {
    hide Count;
    var n, m := |x|, x[0];
    CountOnly(x, m, {0});
    CountOnly(x, 2, {p});
    assert x[m] == 1 && x[2] == 1;
    CountBounds(x, 1, {2, m});
    assert p == 1 && x[1] == 2;
    assert Positions(x, 1) == {2, m};
    ZerosOutside(x, {0, 1, 2, m});
    forall i | 0 <= i < n
      ensures x[i] == Standard(n)[i]
    {
      assert x[i] == 1 <==> i in Positions(x, 1);
    }
  }

  lemma OneZero(x: seq<int>, p: nat)
    requires IsMagic(x) && 1 <= p < |x| && |x| >= 3 && x[p] == 2 && x[0] == 1
    requires forall i :: 1 <= i < |x| && i != p ==> 0 <= x[i] <= 1
    ensures x == [1, 2, 1, 0]
  {
    hide Count;
    CountOnly(x, 2, {p});
    assert x[2] == 1;
    CountBounds(x, 1, {0, 2});
    assert p == 1;
    assert Positions(x, 1) == {0, 2};
    forall i | 0 <= i < |x|
      ensures x[i] == 0 <==> i !in {0, 1, 2}
    {
      assert x[i] == 1 <==> i in Positions(x, 1);
    }
    ZerosOutside(x, {0, 1, 2});
  }

  lemma TwoZeros(x: seq<int>, p: nat)
    requires IsMagic(x) && 1 <= p < |x| && |x| >= 3 && x[p] == 2 && x[0] == 2
    requires forall i :: 1 <= i < |x| && i != p ==> 0 <= x[i] <= 1
    ensures x == [2, 0, 2, 0] || x == [2, 1, 2, 0, 0]
  {
    hide Count;
    CountOnly(x, 2, {0, p});
    assert x[2] == 2 && p == 2;
    var ones := if x[1] == 1 then {1} else {};
    CountBounds(x, 1, ones);
    assert ones == Positions(x, 1);
    forall i | 0 <= i < |x|
      ensures x[i] == 0 <==> i !in {0, 2} + ones
    {
      assert x[i] == 1 <==> i in Positions(x, 1);
    }
    ZerosOutside(x, {0, 2} + ones);
    assert x[1] == 1 ==> {0, 2} + ones == {0, 2, 1};
  }

  lemma SmallSolutions()
    ensures IsMagic([1, 2, 1, 0]) && IsMagic([2, 0, 2, 0]) && IsMagic([2, 1, 2, 0, 0])
  {
    forall v
      ensures Count([1, 2, 1, 0], v) ==
        (if v == 1 then 2 else 0) + (if v == 2 then 1 else 0) + (if v == 0 then 1 else 0)
      ensures Count([2, 0, 2, 0], v) == (if v == 2 then 2 else 0) + (if v == 0 then 2 else 0)
      ensures Count([2, 1, 2, 0, 0], v) ==
        (if v == 2 then 2 else 0) + (if v == 1 then 1 else 0) + (if v == 0 then 2 else 0)
    {
      CountTriple(1, 2, 1, v);
      CountTriple(2, 0, 2, v);
      CountTriple(2, 1, 2, v);
      CountSingle(0, v);
      assert [1, 2, 1] + [0] == [1, 2, 1, 0] && [2, 0, 2] + [0] == [2, 0, 2, 0];
      assert [2, 1, 2] + [0] == [2, 1, 2, 0] && [2, 1, 2, 0] + [0] == [2, 1, 2, 0, 0];
      CountConcat([1, 2, 1], [0], v);
      CountConcat([2, 0, 2], [0], v);
      CountConcat([2, 1, 2], [0], v);
      CountConcat([2, 1, 2, 0], [0], v);
    }
  }

  /** All magic sequences: two for n = 4, one for n = 5, one for every n >= 7, and the empty one. */
  lemma MagicSequencesAre(x: seq<int>)
    ensures IsMagic(x) <==>
              || x == [] || x == [1, 2, 1, 0] || x == [2, 0, 2, 0] || x == [2, 1, 2, 0, 0]
              || (|x| >= 7 && x == Standard(|x|))
  {
    SmallSolutions();
    if |x| >= 7 {
      StandardIsMagic(|x|);
    }
    if IsMagic(x) && x != [] {
      var p := MagicShape(x);
      if x[0] == 1 {
        OneZero(x, p);
      } else if x[0] == 2 {
        TwoZeros(x, p);
      } else {
        ManyZeros(x, p);
      }
    }
  }

  // ---------- From assignments to magic sequences ----------

  /** The value that literal (k, i) must have. */
  function Truth(k: nat, i: nat, s: Var -> int): int {
    if s(X(i)) == k then 1 else 0
  }

  ghost predicate LiteralsOk(k: nat, n: nat, s: Var -> int) {
    forall i :: 0 <= i < n ==> s(Is(k, i)) == Truth(k, i, s)
  }

  lemma {:induction false} LiteralsMean(k: nat, n: nat, s: Var -> int)
    ensures Satisfies(LiteralConstraints(k, n), s) <==> LiteralsOk(k, n, s)
  {
    if n == 0 {
      NothingToSatisfy(s);
    } else {
      hide Satisfies, Holds;
      LiteralsMean(k, n - 1, s);
      var c0, c1, c2 := Domain(Is(k, n - 1), 0, 1), EnforcedIf(Is(k, n - 1), 1, Var(X(n - 1)), Eq, Const(k)),
                        EnforcedIf(Is(k, n - 1), 0, Var(X(n - 1)), Neq, Const(k));
      SatisfiesConcat(LiteralConstraints(k, n - 1), [c0, c1, c2], s);
      LiteralMeans(k, n - 1, s);
    }
  }

  lemma LiteralMeans(k: nat, i: nat, s: Var -> int)
    ensures var cs := [Domain(Is(k, i), 0, 1), EnforcedIf(Is(k, i), 1, Var(X(i)), Eq, Const(k)),
                       EnforcedIf(Is(k, i), 0, Var(X(i)), Neq, Const(k))];
            Satisfies(cs, s) <==> s(Is(k, i)) == Truth(k, i, s)
  {
    var cs := [Domain(Is(k, i), 0, 1), EnforcedIf(Is(k, i), 1, Var(X(i)), Eq, Const(k)),
               EnforcedIf(Is(k, i), 0, Var(X(i)), Neq, Const(k))];
    assert Satisfies(cs, s) ==> Holds(cs[0], s) && Holds(cs[1], s) && Holds(cs[2], s);
  }

  /** True literals count the entries. */
  lemma {:induction false} TruthCounts(k: nat, n: nat, s: Var -> int)
    requires LiteralsOk(k, n, s)
    ensures Sum(At(Literals(k, n), s)) == Count(At(Xs(n), s), k)
  {
    if n > 0 {
      TruthCounts(k, n - 1, s);
      assert At(Literals(k, n), s)[..n - 1] == At(Literals(k, n - 1), s);
      assert At(Xs(n), s)[..n - 1] == At(Xs(n - 1), s);
    }
  }

  lemma CountMeans(n: nat, k: nat, s: Var -> int)
    requires LiteralsOk(k, n, s)
    ensures Satisfies([Compare(SumOf(Vars(Literals(k, n))), Eq, Var(X(k)))], s) <==> Count(At(Xs(n), s), k) == s(X(k))
  {
    SatisfiesOne(Compare(SumOf(Vars(Literals(k, n))), Eq, Var(X(k))), s);
    SumOfValues(Vars(Literals(k, n)), s);
    ValuesOfVars(Literals(k, n), s);
    TruthCounts(k, n, s);
  }

  /** The literals of number k are right, and they count x[k]. */
  ghost predicate IsCounted(n: nat, k: nat, s: Var -> int) {
    LiteralsOk(k, n, s) && Count(At(Xs(n), s), k) == s(X(k))
  }

  lemma {:induction false} CountsMean(n: nat, k: nat, s: Var -> int)
    ensures Satisfies(CountConstraints(n, k), s) <==> forall j :: 0 <= j < k ==> IsCounted(n, j, s)
  {
    hide Satisfies, IsCounted, RoundConstraints;
    if k == 0 {
      NothingToSatisfy(s);
    } else {
      CountsMean(n, k - 1, s);
      SatisfiesConcat(CountConstraints(n, k - 1), RoundConstraints(n, k - 1), s);
      RoundMeans(n, k - 1, s);
    }
  }

  lemma RoundMeans(n: nat, k: nat, s: Var -> int)
    ensures Satisfies(RoundConstraints(n, k), s) <==> IsCounted(n, k, s)
  {
    hide Satisfies, Count, LiteralsOk;
    SatisfiesConcat(LiteralConstraints(k, n), [Compare(SumOf(Vars(Literals(k, n))), Eq, Var(X(k)))], s);
    LiteralsMean(k, n, s);
    if LiteralsOk(k, n, s) {
      CountMeans(n, k, s);
    }
  }

  /** The posted constraints say that x is magic and that the literals are right; the posted sum adds nothing. */
  lemma MagicMeans(n: nat, s: Var -> int)
    ensures Satisfies(MagicConstraints(n), s) <==>
              && IsMagic(At(Xs(n), s))
              && forall k :: 0 <= k < n ==> LiteralsOk(k, n, s)
  {
    hide Satisfies, Count, Sum, LiteralsOk, IsMagic;
    var x := At(Xs(n), s);
    var total := [Compare(SumOf(Vars(Xs(n))), Eq, Const(n))];
    SatisfiesConcat(Domains(Xs(n), 0, n) + CountConstraints(n, n), total, s);
    SatisfiesConcat(Domains(Xs(n), 0, n), CountConstraints(n, n), s);
    DomainsHold(Xs(n), 0, n, s);
    CountsMean(n, n, s);
    SatisfiesOne(total[0], s);
    SumOfValues(Vars(Xs(n)), s);
    ValuesOfVars(Xs(n), s);
    MagicByIndex(n, s);
    assert forall k :: 0 <= k < n ==> (IsCounted(n, k, s) <==> LiteralsOk(k, n, s) && Count(x, k) == s(X(k)));
    if IsMagic(x) {
      SumIsRedundant(x);
    }
  }

  lemma MagicByIndex(n: nat, s: Var -> int)
    ensures IsMagic(At(Xs(n), s)) <==>
              && (forall i :: 0 <= i < n ==> 0 <= s(Xs(n)[i]) <= n)
              && forall k :: 0 <= k < n ==> Count(At(Xs(n), s), k) == s(X(k))
  {
    hide Count;
    var x := At(Xs(n), s);
    assert forall k :: 0 <= k < n ==> x[k] == s(Xs(n)[k]) == s(X(k));
  }

  /** For every n >= 7 the model has exactly one solution, for n = 6 it has none. */
  lemma MagicModelSolutions(n: nat, x: seq<int>)
    requires |x| == n
    ensures (exists s: Var -> int :: At(Xs(n), s) == x && Satisfies(MagicConstraints(n), s)) <==> IsMagic(x)
    ensures n >= 7 ==> (IsMagic(x) <==> x == Standard(n))
    ensures n == 6 ==> !IsMagic(x)
  {
    hide Satisfies, Count, MagicConstraints;
    MagicSequencesAre(x);
    forall s: Var -> int | At(Xs(n), s) == x && Satisfies(MagicConstraints(n), s)
      ensures IsMagic(x)
    {
      MagicMeans(n, s);
    }
    if IsMagic(x) {
      var s := (v: Var) => match v
        case X(i) => if i < n then x[i] else 0
        case Is(k, i) => if i < n && x[i] == k then 1 else 0;
      assert At(Xs(n), s) == x;
      MagicMeans(n, s);
    }
  }

  /** The posted constraints, spelled out: entry k is the number of times k occurs, and the literals say where. */
  lemma MagicInFull(n: nat, s: Var -> int)
    ensures Satisfies(MagicConstraints(n), s) <==>
      && (forall k: nat :: k < n ==> s(X(k)) == Count(At(Xs(n), s), k))
      && (forall k: nat, i: nat :: k < n && i < n ==> s(Is(k, i)) == if s(X(i)) == k then 1 else 0)
  {
    hide Satisfies, MagicConstraints, Count;
    MagicMeans(n, s);
    var x := At(Xs(n), s);
    assert forall k: nat :: k < n ==> x[k] == s(X(k));
    if Satisfies(MagicConstraints(n), s) {
      forall k: nat, i: nat | k < n && i < n
        ensures s(Is(k, i)) == if s(X(i)) == k then 1 else 0
      {
        assert LiteralsOk(k, n, s);
      }
    }
  }
}
