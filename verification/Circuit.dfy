/** The orbit decomposition of the circuit constraint. */
module Circuit {
  import opened Cp
  import opened Permutations

  datatype Var = X(i: nat) | Z(i: nat)

  function Xs(n: nat): (vs: seq<Var>)
    ensures |vs| == n && forall i :: 0 <= i < n ==> vs[i] == X(i)
  {
    seq(n, i requires 0 <= i => X(i))
  }

  function Zs(n: nat): (vs: seq<Var>)
    ensures |vs| == n && forall i :: 0 <= i < n ==> vs[i] == Z(i)
  {
    seq(n, i requires 0 <= i => Z(i))
  }

  /** z[i] is the successor of z[i - 1], for 1 <= i < k. */
  function OrbitSteps(n: nat, k: nat): seq<Constraint<Var>>
    requires k > 0
  {
    if k == 1 then [] else OrbitSteps(n, k - 1) + [ElementOf(Vars(Xs(n)), Var(Z(k - 2)), Var(Z(k - 1)))]
  }

  /** z[i] is not 0, for 1 <= i < k. */
  function NonZero(k: nat): seq<Constraint<Var>>
    requires k > 0
  {
    if k == 1 then [] else NonZero(k - 1) + [Compare(Var(Z(k - 1)), Neq, Const(0))]
  }

  function LastIndex(n: nat): (k: nat)
    requires n > 0
    ensures k > 0
  {
    if n == 1 then 1 else n - 1
  }

  function CircuitConstraints(n: nat): seq<Constraint<Var>>
    requires n > 0
  {
    Domains(Zs(n), 0, n - 1) + [AllDifferent(Vars(Xs(n))), AllDifferent(Vars(Zs(n))), Compare(Var(Z(0)), Eq, Var(X(0)))]
    + OrbitSteps(n, LastIndex(n)) + NonZero(LastIndex(n)) + [Compare(Var(Z(n - 1)), Eq, Const(0))]
  }

  /** Posts that x[0..n] is a circuit. */
  method PostCircuit(n: nat) returns (cs: seq<Constraint<Var>>)
    requires n > 0
    ensures cs == CircuitConstraints(n)
    ensures forall s: Var -> int :: InRange(At(Xs(n), s), 0, n) ==>
      (Satisfies(cs, s) <==> IsOrbit(At(Xs(n), s), At(Zs(n), s)))
  {
    hide Domains, OrbitSteps, NonZero, Satisfies, IsOrbit;
    cs := Domains(Zs(n), 0, n - 1);
    cs := cs + [AllDifferent(Vars(Xs(n))), AllDifferent(Vars(Zs(n))), Compare(Var(Z(0)), Eq, Var(X(0)))];
    var steps := PostOrbitSteps(n);
    cs := cs + steps;
    var nonZero := PostNonZero(n);
    cs := cs + nonZero;
    cs := cs + [Compare(Var(Z(n - 1)), Eq, Const(0))];
    assert cs == CircuitConstraints(n);
    forall s: Var -> int | InRange(At(Xs(n), s), 0, n)
      ensures Satisfies(cs, s) <==> IsOrbit(At(Xs(n), s), At(Zs(n), s))
    {
      CircuitMeans(n, s);
    }
  }

  method PostOrbitSteps(n: nat) returns (cs: seq<Constraint<Var>>)
    requires n > 0
    ensures cs == OrbitSteps(n, LastIndex(n))
  {
    cs := [];
    var i := 1;
    while i < n - 1
      invariant 1 <= i <= LastIndex(n)
      invariant cs == OrbitSteps(n, i)
    {
      cs := cs + [ElementOf(Vars(Xs(n)), Var(Z(i - 1)), Var(Z(i)))];
      i := i + 1;
    }
  }

  method PostNonZero(n: nat) returns (cs: seq<Constraint<Var>>)
    requires n > 0
    ensures cs == NonZero(LastIndex(n))
  {
    cs := [];
    var i := 1;
    while i < n - 1
      invariant 1 <= i <= LastIndex(n)
      invariant cs == NonZero(i)
    {
      cs := cs + [Compare(Var(Z(i)), Neq, Const(0))];
      i := i + 1;
    }
  }

  // ---------- What the posted constraints mean ----------

  /** The node reached from i in k steps along x. */
  function Iterate(x: seq<int>, i: int, k: nat): int
    requires InRange(x, 0, |x|) && 0 <= i < |x|
    ensures 0 <= Iterate(x, i, k) < |x|
  {
    if k == 0 then i else x[Iterate(x, i, k - 1)]
  }

  /** What the constraints say, the z[i] != 0 left out. */
  ghost predicate IsOrbit(x: seq<int>, z: seq<int>)
    requires |x| > 0 && InRange(x, 0, |x|)
  {
    && |z| == |x| && InRange(z, 0, |x|) && Distinct(x) && Distinct(z)
    && z[0] == x[0]
    && (forall i :: 1 <= i < |x| - 1 ==> z[i] == x[z[i - 1]])
    && z[|x| - 1] == 0
  }

  ghost predicate LeadsTo(x: seq<int>, i: int, j: int)
    requires InRange(x, 0, |x|) && 0 <= i < |x|
  {
    exists k: nat :: Iterate(x, i, k) == j
  }

  /** A permutation in which every node leads to every node. */
  ghost predicate IsSingleCycle(x: seq<int>)
    requires InRange(x, 0, |x|)
  {
    Distinct(x) && forall i, j :: 0 <= i < |x| && 0 <= j < |x| ==> LeadsTo(x, i, j)
  }

  lemma {:induction false} IterateAdd(x: seq<int>, i: int, a: nat, b: nat)
    requires InRange(x, 0, |x|) && 0 <= i < |x|
    ensures Iterate(x, Iterate(x, i, a), b) == Iterate(x, i, a + b)
  {
    if b > 0 {
      IterateAdd(x, i, a, b - 1);
    }
  }

  /** z lists the nodes after 0 in order. */
  lemma {:induction false} OrbitIterates(x: seq<int>, z: seq<int>, i: nat)
    requires |x| > 0 && InRange(x, 0, |x|) && IsOrbit(x, z)
    requires i < |x| - 1 || (i == 0 && |x| == 1)
    ensures z[i] == Iterate(x, 0, i + 1)
  {
    if i > 0 {
      OrbitIterates(x, z, i - 1);
    } else {
      assert Iterate(x, 0, 0) == 0;
    }
  }

  /** The step that is not posted follows: the last node leads back to 0. */
  lemma LastStepIsForced(x: seq<int>, z: seq<int>)
    requires |x| > 1 && InRange(x, 0, |x|) && IsOrbit(x, z)
    ensures x[z[|x| - 2]] == 0
  {
    var n := |x|;
    var v := x[z[n - 2]];
    Pigeonhole(z, 0, n);
    assert v in z;
    forall m | 0 <= m < n - 1
      ensures z[m] != v
    {
      assert if m == 0 then z[n - 2] != z[n - 1] else z[m - 1] != z[n - 2];
    }
  }

  /** The constraints that keep 0 out of z before the end are redundant. */
  lemma NonZeroIsRedundant(x: seq<int>, z: seq<int>, i: nat)
    requires |x| > 0 && InRange(x, 0, |x|) && IsOrbit(x, z) && i < |x| - 1
    ensures z[i] != 0
  {
    assert z[i] != z[|x| - 1];
  }

  lemma OrbitReturns(x: seq<int>, z: seq<int>)
    requires |x| > 0 && InRange(x, 0, |x|) && IsOrbit(x, z)
    ensures Iterate(x, 0, |x|) == 0
  {
    if |x| == 1 {
      OrbitIterates(x, z, 0);
    } else {
      OrbitIterates(x, z, |x| - 2);
      LastStepIsForced(x, z);
    }
  }

  /** Every node is passed on the way from 0 back to 0. */
  lemma OrbitVisits(x: seq<int>, z: seq<int>, j: int) returns (k: nat)
    requires |x| > 0 && InRange(x, 0, |x|) && IsOrbit(x, z) && 0 <= j < |x|
    ensures k <= |x| && Iterate(x, 0, k) == j
  {
    Pigeonhole(z, 0, |x|);
    assert j in z;
    var m :| 0 <= m < |x| && z[m] == j;
    if m == |x| - 1 {
      k := 0;
    } else {
      OrbitIterates(x, z, m);
      k := m + 1;
    }
  }

  lemma OrbitIsCycle(x: seq<int>, z: seq<int>)
    requires |x| > 0 && InRange(x, 0, |x|) && IsOrbit(x, z)
    ensures IsSingleCycle(x)
  {
    hide IsOrbit;
    forall i, j | 0 <= i < |x| && 0 <= j < |x|
      ensures LeadsTo(x, i, j)
    {
      var a := OrbitVisits(x, z, i);
      var b := OrbitVisits(x, z, j);
      OrbitReturns(x, z);
      IterateAdd(x, 0, a, |x| - a);
      IterateAdd(x, i, |x| - a, b);
    }
    OrbitIsDistinct(x, z);
  }

  lemma OrbitIsDistinct(x: seq<int>, z: seq<int>)
    requires |x| > 0 && InRange(x, 0, |x|) && IsOrbit(x, z)
    ensures Distinct(x)
  {}

  /** The first p nodes of the walk from i. */
  function Walk(x: seq<int>, i: int, p: nat): (w: seq<int>)
    requires InRange(x, 0, |x|) && 0 <= i < |x|
    ensures |w| == p && forall k :: 0 <= k < p ==> w[k] == Iterate(x, i, k)
  {
    seq(p, k requires 0 <= k => Iterate(x, i, k))
  }

  lemma {:induction false} Cancel(x: seq<int>, i: int, a: nat, b: nat)
    requires InRange(x, 0, |x|) && Distinct(x) && 0 <= i < |x| && a <= b && Iterate(x, i, a) == Iterate(x, i, b)
    ensures Iterate(x, i, b - a) == i
  {
    if a > 0 {
      Cancel(x, i, a - 1, b - 1);
    }
  }

  lemma Returns(x: seq<int>, i: int) returns (p: nat)
    requires InRange(x, 0, |x|) && Distinct(x) && 0 <= i < |x|
    ensures p > 0 && Iterate(x, i, p) == i
  {
    hide Iterate;
    var w := Walk(x, i, |x| + 1);
    if Distinct(w) {
      Pigeonhole(w, 0, |x|);
    }
    var a, b :| 0 <= a < b < |w| && w[a] == w[b];
    Cancel(x, i, a, b);
    p := b - a;
  }

  /** The least positive number of steps that leads from 0 back to 0. */
  lemma Period(x: seq<int>) returns (p: nat)
    requires |x| > 0 && InRange(x, 0, |x|) && Distinct(x)
    ensures p > 0 && Iterate(x, 0, p) == 0
    ensures forall q :: 0 < q < p ==> Iterate(x, 0, q) != 0
  {
    var k := Returns(x, 0);
    p := LeastReturn(x, k);
  }

  lemma {:induction false} LeastReturn(x: seq<int>, k: nat) returns (p: nat)
    requires InRange(x, 0, |x|) && |x| > 0 && k > 0 && Iterate(x, 0, k) == 0
    ensures p > 0 && Iterate(x, 0, p) == 0
    ensures forall q :: 0 < q < p ==> Iterate(x, 0, q) != 0
  {
    if exists q: nat :: 0 < q < k && Iterate(x, 0, q) == 0 {
      var q: nat :| 0 < q < k && Iterate(x, 0, q) == 0;
      p := LeastReturn(x, q);
    } else {
      p := k;
    }
  }

  lemma {:induction false} WalkRepeats(x: seq<int>, p: nat, k: nat)
    requires |x| > 0 && InRange(x, 0, |x|) && p > 0 && Iterate(x, 0, p) == 0
    ensures Iterate(x, 0, k) in Walk(x, 0, p)
  {
    if k < p {
      assert Walk(x, 0, p)[k] == Iterate(x, 0, k);
    } else {
      IterateAdd(x, 0, p, k - p);
      WalkRepeats(x, p, k - p);
    }
  }

  lemma WalkIsDistinct(x: seq<int>, p: nat)
    requires |x| > 0 && InRange(x, 0, |x|) && p > 0 && Iterate(x, 0, p) == 0
    requires forall q :: 0 < q < p ==> Iterate(x, 0, q) != 0
    ensures Distinct(Walk(x, 0, p))
  {
    forall a, b | 0 <= a < b < p
      ensures Iterate(x, 0, a) != Iterate(x, 0, b)
    {
      IterateAdd(x, 0, a, p - b);
      IterateAdd(x, 0, b, p - b);
    }
  }

  /** In a single cycle the walk from 0 comes back after exactly as many steps as there are nodes. */
  lemma CycleReturns(x: seq<int>)
    requires |x| > 0 && InRange(x, 0, |x|) && Distinct(x) && forall v :: 0 <= v < |x| ==> LeadsTo(x, 0, v)
    ensures Iterate(x, 0, |x|) == 0 && Distinct(Walk(x, 0, |x|))
  {
    var p := Period(x);
    WalkIsDistinct(x, p);
    Pigeonhole(Walk(x, 0, p), 0, |x|);
    forall v | 0 <= v < |x|
      ensures v in Walk(x, 0, p)
    {
      assert LeadsTo(x, 0, v);
      var k: nat :| Iterate(x, 0, k) == v;
      WalkRepeats(x, p, k);
    }
    CoverLength(Walk(x, 0, p), 0, |x|);
  }

  lemma CycleIsOrbit(x: seq<int>) returns (z: seq<int>)
    requires |x| > 0 && InRange(x, 0, |x|) && IsSingleCycle(x)
    ensures IsOrbit(x, z)
  {
    CycleReturns(x);
    var n := |x|;
    var w := Walk(x, 0, n);
    z := w[1..] + [0];
    forall i | 0 <= i < n
      ensures z[i] == Iterate(x, 0, i + 1)
    {}
    assert w[0] == 0 && forall i :: 0 <= i < n - 1 ==> z[i] == w[i + 1];
    assert Iterate(x, 0, 0) == 0;
  }

  /** The decomposition is exact: x extends to some z if and only if x is a single cycle through all nodes. */
  lemma CircuitIsCycle(x: seq<int>)
    requires |x| > 0 && InRange(x, 0, |x|)
    ensures (exists z :: IsOrbit(x, z)) <==> IsSingleCycle(x)
  {
    hide IsOrbit, IsSingleCycle;
    forall z | IsOrbit(x, z)
      ensures IsSingleCycle(x)
    {
      OrbitIsCycle(x, z);
    }
    if IsSingleCycle(x) {
      var z := CycleIsOrbit(x);
    }
  }

  /** z is determined by x. */
  lemma OrbitIsUnique(x: seq<int>, y: seq<int>, z: seq<int>)
    requires |x| > 0 && InRange(x, 0, |x|) && IsOrbit(x, y) && IsOrbit(x, z)
    ensures y == z
  {
    forall i | 0 <= i < |x|
      ensures y[i] == z[i]
    {
      if i < |x| - 1 {
        OrbitIterates(x, y, i);
        OrbitIterates(x, z, i);
      }
    }
  }

  // ---------- From assignments to orbits ----------

  /** z[i + 1] is the successor of z[i]. */
  predicate IsStep(n: nat, s: Var -> int, i: nat) {
    0 <= s(Z(i)) < n && s(X(s(Z(i)))) == s(Z(i + 1))
  }

  lemma {:induction false} OrbitStepsMean(n: nat, k: nat, s: Var -> int)
    requires n > 0 && 0 < k <= LastIndex(n)
    ensures Satisfies(OrbitSteps(n, k), s) <==>
              forall i :: 0 <= i < k - 1 ==> IsStep(n, s, i)
  {
    if k == 1 {
      NothingToSatisfy(s);
    } else {
      hide Satisfies;
      OrbitStepsMean(n, k - 1, s);
      var c := ElementOf(Vars(Xs(n)), Var(Z(k - 2)), Var(Z(k - 1)));
      SatisfiesConcat(OrbitSteps(n, k - 1), [c], s);
      SatisfiesOne(c, s);
      assert Holds(c, s) <==> IsStep(n, s, k - 2);
    }
  }

  lemma {:induction false} NonZeroMeans(k: nat, s: Var -> int)
    requires k > 0
    ensures Satisfies(NonZero(k), s) <==> forall i :: 1 <= i < k ==> s(Z(i)) != 0
  {
    if k == 1 {
      NothingToSatisfy(s);
    } else {
      hide Satisfies;
      NonZeroMeans(k - 1, s);
      var c := Compare(Var(Z(k - 1)), Neq, Const(0));
      SatisfiesConcat(NonZero(k - 1), [c], s);
      SatisfiesOne(c, s);
    }
  }

  lemma FixedMean(n: nat, s: Var -> int)
    requires n > 0
    ensures Satisfies([AllDifferent(Vars(Xs(n))), AllDifferent(Vars(Zs(n))), Compare(Var(Z(0)), Eq, Var(X(0)))], s) <==>
              Distinct(At(Xs(n), s)) && Distinct(At(Zs(n), s)) && s(Z(0)) == s(X(0))
  {
    var cs := [AllDifferent(Vars(Xs(n))), AllDifferent(Vars(Zs(n))), Compare(Var(Z(0)), Eq, Var(X(0)))];
    ValuesOfVars(Xs(n), s);
    ValuesOfVars(Zs(n), s);
    assert Satisfies(cs, s) ==> Holds(cs[0], s) && Holds(cs[1], s) && Holds(cs[2], s);
  }

  /** An assignment with x in range satisfies the posted constraints exactly when its z is the orbit of its x. */
  lemma CircuitMeans(n: nat, s: Var -> int)
    requires n > 0 && InRange(At(Xs(n), s), 0, n)
    ensures Satisfies(CircuitConstraints(n), s) <==> IsOrbit(At(Xs(n), s), At(Zs(n), s))
  {
    hide Satisfies, Holds;
    var d := Domains(Zs(n), 0, n - 1);
    var f := [AllDifferent(Vars(Xs(n))), AllDifferent(Vars(Zs(n))), Compare(Var(Z(0)), Eq, Var(X(0)))];
    var o, z, l := OrbitSteps(n, LastIndex(n)), NonZero(LastIndex(n)), [Compare(Var(Z(n - 1)), Eq, Const(0))];
    SatisfiesConcat(d + f + o + z, l, s);
    SatisfiesConcat(d + f + o, z, s);
    SatisfiesConcat(d + f, o, s);
    SatisfiesConcat(d, f, s);
    DomainsHold(Zs(n), 0, n - 1, s);
    FixedMean(n, s);
    OrbitStepsMean(n, LastIndex(n), s);
    NonZeroMeans(LastIndex(n), s);
    LastIsZero(n, s);
    PartsAreOrbit(n, s);
  }

  lemma LastIsZero(n: nat, s: Var -> int)
    requires n > 0
    ensures Satisfies([Compare(Var(Z(n - 1)), Eq, Const(0))], s) <==> s(Z(n - 1)) == 0
  {
    SatisfiesOne(Compare(Var(Z(n - 1)), Eq, Const(0)), s);
  }

  lemma PartsAreOrbit(n: nat, s: Var -> int)
    requires n > 0 && InRange(At(Xs(n), s), 0, n)
    ensures IsOrbit(At(Xs(n), s), At(Zs(n), s)) <==>
              && (forall i :: 0 <= i < n ==> 0 <= s(Zs(n)[i]) <= n - 1)
              && Distinct(At(Xs(n), s)) && Distinct(At(Zs(n), s)) && s(Z(0)) == s(X(0))
              && (forall i :: 0 <= i < LastIndex(n) - 1 ==> IsStep(n, s, i))
              && (forall i :: 1 <= i < LastIndex(n) ==> s(Z(i)) != 0)
              && s(Z(n - 1)) == 0
  {
    var x, z := At(Xs(n), s), At(Zs(n), s);
    if IsOrbit(x, z) {
      forall i | 0 <= i < LastIndex(n) - 1
        ensures IsStep(n, s, i)
      {
        assert z[i + 1] == x[z[i]];
      }
      forall i | 1 <= i < LastIndex(n)
        ensures s(Z(i)) != 0
      {
        NonZeroIsRedundant(x, z, i);
      }
    } else if InRange(z, 0, n) && forall i :: 0 <= i < LastIndex(n) - 1 ==> IsStep(n, s, i) {
      forall i | 1 <= i < n - 1
        ensures z[i] == x[z[i - 1]]
      {
        assert IsStep(n, s, i - 1);
      }
    }
  }

  /** End to end: values of x in range can be completed to a solution of the posted constraints exactly when
      they form a single cycle. */
  lemma PostedCircuitIsCycle(x: seq<int>)
    requires |x| > 0 && InRange(x, 0, |x|)
    ensures (exists s: Var -> int :: At(Xs(|x|), s) == x && Satisfies(CircuitConstraints(|x|), s)) <==> IsSingleCycle(x)
  {
    hide Satisfies, CircuitConstraints, IsOrbit, IsSingleCycle;
    CircuitIsCycle(x);
    forall s: Var -> int | At(Xs(|x|), s) == x && Satisfies(CircuitConstraints(|x|), s)
      ensures IsSingleCycle(x)
    {
      CircuitMeans(|x|, s);
    }
    if IsSingleCycle(x) {
      var z :| IsOrbit(x, z);
      OrbitHasLength(x, z);
      var s := (v: Var) => match v
        case X(i) => if i < |x| then x[i] else 0
        case Z(i) => if i < |z| then z[i] else 0;
      assert At(Xs(|x|), s) == x && At(Zs(|x|), s) == z;
      CircuitMeans(|x|, s);
    }
  }

  lemma OrbitHasLength(x: seq<int>, z: seq<int>)
    requires |x| > 0 && InRange(x, 0, |x|) && IsOrbit(x, z)
    ensures |z| == |x|
  {}

  /** The posted constraints, spelled out: x and z are permutations, z starts with the successor of 0, each entry of z
      is the successor of the one before, the step to the last one included, and only the last one is 0. */
  lemma CircuitInFull(n: nat, s: Var -> int)
    requires n > 0 && InRange(At(Xs(n), s), 0, n)
    ensures var x, z := At(Xs(n), s), At(Zs(n), s);
      Satisfies(CircuitConstraints(n), s) <==>
        && (forall i :: 0 <= i < n ==> 0 <= z[i] < n)
        && Distinct(x) && Distinct(z) && z[0] == x[0]
        && (forall i :: 0 < i < n ==> z[i] == x[z[i - 1]])
        && (forall i :: 0 <= i < n ==> (z[i] == 0 <==> i == n - 1))
  {
    hide Satisfies, CircuitConstraints;
    CircuitMeans(n, s);
    var x, z := At(Xs(n), s), At(Zs(n), s);
    if IsOrbit(x, z) {
      if n > 1 {
        LastStepIsForced(x, z);
      }
      forall i | 0 <= i < n - 1
        ensures z[i] != 0
      {
        NonZeroIsRedundant(x, z, i);
      }
    }
  }
}
