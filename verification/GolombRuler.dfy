/** The Golomb ruler model: ticks whose pairwise distances all differ. */
module GolombRuler {
  import opened Cp
  import opened Digits
  import opened Permutations

  datatype Var = Tick(i: nat)

  type Pair = (nat, nat)

  function Ticks(m: nat): (vs: seq<Var>)
    ensures |vs| == m && forall i :: 0 <= i < m ==> vs[i] == Tick(i)
  {
    seq(m, i requires 0 <= i => Tick(i))
  }

  /** The largest position a tick may take. */
  function Limit(m: nat): nat {
    if m < 31 then Pow(2, m + 1) - 1 else 9999
  }

  function OrderConstraints(k: nat): seq<Constraint<Var>> {
    if k == 0 then [] else OrderConstraints(k - 1) + [Compare(Var(Tick(k - 1)), Less, Var(Tick(k)))]
  }

  /** The pairs (i, i + 1), ..., (i, j - 1). */
  function Row(i: nat, j: nat): (ps: seq<Pair>)
    requires i < j
    ensures |ps| == j - i - 1 && forall k :: 0 <= k < |ps| ==> ps[k] == (i, i + 1 + k)
  {
    if j == i + 1 then [] else Row(i, j - 1) + [(i, j - 1)]
  }

  /** The pairs whose first tick is below i, in the order of the loops. */
  function Pairs(m: nat, i: nat): seq<Pair>
    requires i < m
  {
    if i == 0 then [] else Pairs(m, i - 1) + Row(i - 1, m)
  }

  function Distance(p: Pair): Expr<Var> {
    Minus(Var(Tick(p.1)), Var(Tick(p.0)))
  }

  function Distances(ps: seq<Pair>): (es: seq<Expr<Var>>)
    ensures |es| == |ps| && forall k :: 0 <= k < |ps| ==> es[k] == Distance(ps[k])
  {
    seq(|ps|, k requires 0 <= k < |ps| => Distance(ps[k]))
  }

  function Bound(p: Pair): Constraint<Var>
    requires p.0 < p.1
  {
    Compare(Const((p.1 - p.0) * (p.1 - p.0 + 1) / 2), LessOrEqual, Distance(p))
  }

  predicate AreOrdered(ps: seq<Pair>) {
    forall k :: 0 <= k < |ps| ==> ps[k].0 < ps[k].1
  }

  function Bounds(ps: seq<Pair>): (cs: seq<Constraint<Var>>)
    requires AreOrdered(ps)
    ensures |cs| == |ps| && forall k :: 0 <= k < |ps| ==> cs[k] == Bound(ps[k])
  {
    seq(|ps|, k requires 0 <= k < |ps| => Bound(ps[k]))
  }

  lemma {:induction false} PairsAreOrdered(m: nat, i: nat)
    requires i < m
    ensures AreOrdered(Pairs(m, i))
  {
    if i > 0 {
      PairsAreOrdered(m, i - 1);
    }
  }

  function AllPairs(m: nat): (ps: seq<Pair>)
    requires m > 0
    ensures AreOrdered(ps)
  {
    PairsAreOrdered(m, m - 1);
    Pairs(m, m - 1)
  }

  function Break(m: nat): seq<Constraint<Var>>
    requires m > 0
  {
    if m <= 2 then []
    else [Compare(Distance((0, 1)), Less, Distance((m - 2, m - 1)))]
  }

  function RulerConstraints(m: nat): seq<Constraint<Var>>
    requires m > 0
  {
    Domains(Ticks(m), 0, Limit(m)) + [Compare(Var(Tick(0)), Eq, Const(0))] + OrderConstraints(m - 1)
    + Bounds(AllPairs(m)) + [AllDifferent(Distances(AllPairs(m)))] + Break(m)
  }

  lemma {:induction false} PairsLength(m: nat, i: nat)
    requires i < m
    ensures 2 * |Pairs(m, i)| == i * (2 * m - i - 1)
  {
    if i > 0 {
      PairsLength(m, i - 1);
      assert (i - 1) * (2 * m - (i - 1) - 1) + 2 * (m - i) == i * (2 * m - i - 1);
    }
  }

  lemma {:induction false} PairsGrow(m: nat, i: nat, k: nat)
    requires i <= k < m
    ensures |Pairs(m, i)| <= |Pairs(m, k)|
  {
    if i < k {
      PairsGrow(m, i, k - 1);
    }
  }

  /** The array of differences has one place for each pair. */
  lemma PairsFill(m: nat)
    requires m > 0
    ensures |AllPairs(m)| == (m * m - m) / 2
  {
    PairsLength(m, m - 1);
    assert (m - 1) * (2 * m - (m - 1) - 1) == m * m - m;
  }

  method PostRuler(m: nat) returns (cs: seq<Constraint<Var>>)
    requires m > 0
    ensures cs == RulerConstraints(m)
    ensures forall s: Var -> int :: Satisfies(cs, s) <==>
      IsRuler(m, At(Ticks(m), s)) && PassesBreak(At(Ticks(m), s))
  {
    hide Limit, Domains, Pairs, Bounds, Distances, Satisfies, IsRuler, PassesBreak;
    var ticks := Ticks(m);
    cs := Domains(ticks, 0, Limit(m));
    cs := cs + [Compare(Var(ticks[0]), Eq, Const(0))];
    ghost var before := cs;
    for i := 0 to |ticks| - 1
      invariant cs == before + OrderConstraints(i)
    {
      cs := cs + [Compare(Var(ticks[i]), Less, Var(ticks[i + 1]))];
    }
    var bounds, diff := PostDistances(m, ticks);
    cs := cs + bounds;
    cs := cs + [AllDifferent(diff)];
    if m > 2 {
      FirstAndLastPair(m);
      cs := cs + [Compare(diff[0], Less, diff[|diff| - 1])];
    }
    assert cs == RulerConstraints(m);
    forall s: Var -> int
      ensures Satisfies(cs, s) <==> IsRuler(m, At(Ticks(m), s)) && PassesBreak(At(Ticks(m), s))
    {
      RulerMeans(m, s);
    }
  }

  lemma {:induction false} FirstPair(m: nat, i: nat)
    requires 0 < i < m
    ensures |Pairs(m, i)| > 0 && Pairs(m, i)[0] == (0, 1)
  {
    if i > 1 {
      FirstPair(m, i - 1);
    }
  }

  lemma FirstAndLastPair(m: nat)
    requires m > 1
    ensures |AllPairs(m)| > 0 && AllPairs(m)[0] == (0, 1) && AllPairs(m)[|AllPairs(m)| - 1] == (m - 2, m - 1)
  {
    FirstPair(m, m - 1);
    assert Row(m - 2, m) == Row(m - 2, m - 1) + [(m - 2, m - 1)];
  }

  method PostDistances(m: nat, ticks: seq<Var>) returns (cs: seq<Constraint<Var>>, r: seq<Expr<Var>>)
    requires m > 0 && ticks == Ticks(m)
    ensures cs == Bounds(AllPairs(m)) && r == Distances(AllPairs(m))
  {
    hide Bounds, Distances, Bound, Pairs, Row;
    NoPairs(m);
    PairsFill(m);
    var diff := new Expr<Var>[(m * m - m) / 2](_ => Const(0));
    cs := [];
    var k := 0;
    ghost var seen: seq<Pair> := [];
    NothingSeen(seen);
    for i := 0 to m - 1
      invariant seen == Pairs(m, i) && AreOrdered(seen)
      invariant k == |seen| <= diff.Length && diff[..k] == Distances(seen) && cs == Bounds(seen)
    {
      ghost var rows := seen;
      NextPairs(m, i);
      for j := i + 1 to m
        invariant seen == rows + Row(i, j) && AreOrdered(seen)
        invariant k == |seen| <= diff.Length && diff[..k] == Distances(seen) && cs == Bounds(seen)
      {
        RoomForPair(m, i, j);
        NextInRow(i, j);
        ghost var es := diff[..k];
        diff[k] := Minus(Var(ticks[j]), Var(ticks[i]));
        assert diff[..k + 1] == es + [diff[k]];
        var bound := Compare(Const((j - i) * (j - i + 1) / 2), LessOrEqual, diff[k]);
        SeenOneMore(seen, (i, j), es, diff[k], cs, bound);
        cs := cs + [bound];
        seen := seen + [(i, j)];
        k := k + 1;
      }
    }
    assert diff[..] == diff[..k];
    r := diff[..];
  }

  lemma NoPairs(m: nat)
    requires m > 0
    ensures Pairs(m, 0) == []
  {}

  lemma NextPairs(m: nat, i: nat)
    requires i + 1 < m
    ensures Pairs(m, i + 1) == Pairs(m, i) + Row(i, m) && Row(i, i + 1) == []
  {}

  lemma NextInRow(i: nat, j: nat)
    requires i < j
    ensures Row(i, j + 1) == Row(i, j) + [(i, j)]
  {}

  lemma NothingSeen(seen: seq<Pair>)
    requires seen == []
    ensures Distances(seen) == [] && Bounds(seen) == []
  {}

  lemma RoomForPair(m: nat, i: nat, j: nat)
    requires i < j < m
    ensures |Pairs(m, i) + Row(i, j)| < (m * m - m) / 2
  {
    PairsGrow(m, i + 1, m - 1);
    PairsFill(m);
  }

  lemma SeenOneMore(seen: seq<Pair>, p: Pair, es: seq<Expr<Var>>, e: Expr<Var>, cs: seq<Constraint<Var>>,
      c: Constraint<Var>)
    requires AreOrdered(seen) && p.0 < p.1
    requires es == Distances(seen) && cs == Bounds(seen) && e == Distance(p)
    requires c == Compare(Const((p.1 - p.0) * (p.1 - p.0 + 1) / 2), LessOrEqual, e)
    ensures AreOrdered(seen + [p]) && es + [e] == Distances(seen + [p]) && cs + [c] == Bounds(seen + [p])
  {}

  // ---------- The pairs ----------

  /** The value of the running k when the loops reach (i, j). */
  function PairIndex(m: nat, i: nat, j: nat): int {
    i * (2 * m - i - 1) / 2 + (j - i - 1)
  }

  /** The running k takes each pair to a place of its own, and fills every place. */
  lemma {:induction false} PairAtIndex(m: nat, r: nat, i: nat, j: nat)
    requires i < r < m && i < j < m
    ensures 0 <= PairIndex(m, i, j) < |Pairs(m, r)| && Pairs(m, r)[PairIndex(m, i, j)] == (i, j)
    ensures PairIndex(m, i, j) == i * (2 * m - i - 1) / 2 + (j - i - 1)
  {
    if i < r - 1 {
      PairAtIndex(m, r - 1, i, j);
    } else {
      PairsLength(m, i);
    }
  }

  lemma {:induction false} IndexOfPair(m: nat, r: nat, k: nat)
    requires r < m && k < |Pairs(m, r)|
    ensures var p := Pairs(m, r)[k]; p.0 < r && p.0 < p.1 < m && PairIndex(m, p.0, p.1) == k
  {
    if r > 0 {
      if k < |Pairs(m, r - 1)| {
        IndexOfPair(m, r - 1, k);
      } else {
        PairsLength(m, r - 1);
      }
    }
  }

  // ---------- What the posted constraints mean ----------

  ghost predicate IsPair(t: seq<int>, i: int, j: int) {
    0 <= i < j < |t|
  }

  ghost predicate SameDistance(t: seq<int>, i: int, j: int, k: int, l: int) {
    IsPair(t, i, j) && IsPair(t, k, l) && t[j] - t[i] == t[l] - t[k]
  }

  /** All distances differ. */
  ghost predicate IsGolomb(t: seq<int>) {
    forall i, j, k, l :: SameDistance(t, i, j, k, l) ==> i == k && j == l
  }

  ghost predicate Increasing(t: seq<int>) {
    forall i, j :: 0 <= i < j < |t| ==> t[i] < t[j]
  }

  /** A ruler within the limit. */
  ghost predicate IsRuler(m: nat, t: seq<int>) {
    m > 0 && |t| == m && t[0] == 0 && Increasing(t) && InRange(t, 0, Limit(m) + 1) && IsGolomb(t)
  }

  ghost predicate PassesBreak(t: seq<int>) {
    |t| > 2 ==> t[1] - t[0] < t[|t| - 1] - t[|t| - 2]
  }

  lemma {:induction false} DistinctSum(xs: seq<int>)
    requires Distinct(xs) && forall i :: 0 <= i < |xs| ==> xs[i] >= 1
    ensures 2 * SumOver(x => x, xs) >= |xs| * (|xs| + 1)
    decreases |xs|
  {
    if xs != [] {
      var p := LargeElement(xs);
      WithoutDistinct(xs, p);
      DistinctSum(Without(xs, p));
      SumOverWithout(x => x, xs, p);
      TriangleStep(|xs|, SumOver(x => x, Without(xs, p)), xs[p]);
    }
  }

  lemma TriangleStep(n: nat, a: int, x: int)
    requires 2 * a >= (n - 1) * n && x >= n
    ensures 2 * (a + x) >= n * (n + 1)
  {
    assert n * (n + 1) == (n - 1) * n + 2 * n;
  }

  lemma LargeElement(xs: seq<int>) returns (p: nat)
    requires Distinct(xs) && xs != [] && forall i :: 0 <= i < |xs| ==> xs[i] >= 1
    ensures p < |xs| && xs[p] >= |xs|
  {
    if InRange(xs, 1, |xs|) {
      Pigeonhole(xs, 1, |xs|);
    }
    p :| 0 <= p < |xs| && xs[p] >= |xs|;
  }

  function Gaps(t: seq<int>, i: nat, j: nat): (r: seq<int>)
    requires i <= j < |t|
    ensures |r| == j - i && forall k :: 0 <= k < j - i ==> r[k] == t[i + k + 1] - t[i + k]
  {
    seq(j - i, k requires 0 <= k < j - i => t[i + k + 1] - t[i + k])
  }

  lemma {:induction false} GapsAddUp(t: seq<int>, i: nat, j: nat)
    requires i <= j < |t|
    ensures SumOver(x => x, Gaps(t, i, j)) == t[j] - t[i]
  {
    if i < j {
      GapsAddUp(t, i, j - 1);
      assert Gaps(t, i, j)[..j - 1 - i] == Gaps(t, i, j - 1);
    }
  }

  lemma HalfBound(x: int, d: nat)
    requires 2 * x >= d * (d + 1)
    ensures x >= d * (d + 1) / 2
  {}

  /** The bound on each distance is implied: it is a sum of distinct positive gaps. */
  lemma BoundIsImplied(t: seq<int>, i: nat, j: nat)
    requires i < j < |t| && Increasing(t) && IsGolomb(t)
    ensures t[j] - t[i] >= (j - i) * (j - i + 1) / 2
  {
    hide SumOver;
    var gaps := Gaps(t, i, j);
    forall a, b | 0 <= a < b < |gaps|
      ensures gaps[a] != gaps[b]
    {
      assert gaps[a] == gaps[b] ==> SameDistance(t, i + a, i + a + 1, i + b, i + b + 1);
    }
    DistinctSum(gaps);
    GapsAddUp(t, i, j);
    HalfBound(t[j] - t[i], j - i);
  }

  // ---------- The symmetry break ----------

  function Mirror(t: seq<int>): (r: seq<int>)
    ensures |r| == |t| && forall i :: 0 <= i < |t| ==> r[i] == t[|t| - 1] - t[|t| - 1 - i]
  {
    seq(|t|, i requires 0 <= i < |t| => t[|t| - 1] - t[|t| - 1 - i])
  }

  /** The mirror of a ruler is a ruler of the same length, and mirroring twice gives the ruler back. */
  lemma MirrorIsRuler(m: nat, t: seq<int>)
    requires IsRuler(m, t)
    ensures IsRuler(m, Mirror(t)) && Mirror(Mirror(t)) == t && Mirror(t)[m - 1] == t[m - 1]
  {
    hide Limit, IsGolomb;
    MirrorIsGolomb(t);
    var r := Mirror(t);
    assert forall i :: 0 <= i < m ==> 0 <= r[i] <= t[m - 1];
  }

  lemma MirrorIsGolomb(t: seq<int>)
    requires IsGolomb(t)
    ensures IsGolomb(Mirror(t))
  {
    var m, r := |t|, Mirror(t);
    forall i, j, k, l | SameDistance(r, i, j, k, l)
      ensures i == k && j == l
    {
      assert SameDistance(t, m - 1 - j, m - 1 - i, m - 1 - l, m - 1 - k);
    }
  }

  /** With more than two ticks, exactly one of a ruler and its mirror passes the symmetry break. */
  lemma ExactlyOnePasses(m: nat, t: seq<int>)
    requires m > 2 && IsRuler(m, t)
    ensures PassesBreak(t) != PassesBreak(Mirror(t))
  {
    hide Limit;
    assert t[1] - t[0] == t[m - 1] - t[m - 2] ==> SameDistance(t, 0, 1, m - 2, m - 1);
  }

  // ---------- The posted model ----------

  lemma {:induction false} OrderMeans(k: nat, s: Var -> int)
    ensures Satisfies(OrderConstraints(k), s) <==> forall i, j :: 0 <= i < j <= k ==> s(Tick(i)) < s(Tick(j))
  {
    if k > 0 {
      OrderMeans(k - 1, s);
      var c := Compare(Var(Tick(k - 1)), Less, Var(Tick(k)));
      SatisfiesConcat(OrderConstraints(k - 1), [c], s);
      SatisfiesOne(c, s);
    }
  }

  lemma DistanceMeans(m: nat, p: Pair, s: Var -> int)
    requires p.0 < p.1 < m
    ensures Eval(Distance(p), s) == At(Ticks(m), s)[p.1] - At(Ticks(m), s)[p.0]
  {}

  lemma BoundsHold(m: nat, s: Var -> int)
    requires m > 0 && Increasing(At(Ticks(m), s)) && IsGolomb(At(Ticks(m), s))
    ensures Satisfies(Bounds(AllPairs(m)), s)
  {
    hide IsGolomb, Pairs, Increasing;
    var ps, t := AllPairs(m), At(Ticks(m), s);
    forall k | 0 <= k < |ps|
      ensures Holds(Bounds(ps)[k], s)
    {
      IndexOfPair(m, m - 1, k);
      DistanceMeans(m, ps[k], s);
      BoundIsImplied(t, ps[k].0, ps[k].1);
    }
  }

  lemma DistanceAt(m: nat, k: nat, s: Var -> int)
    requires m > 0 && k < |AllPairs(m)|
    ensures var p, t := AllPairs(m)[k], At(Ticks(m), s);
      && IsPair(t, p.0, p.1) && PairIndex(m, p.0, p.1) == k
      && Values(Distances(AllPairs(m)), s)[k] == t[p.1] - t[p.0]
  {
    hide Pairs, PairIndex;
    IndexOfPair(m, m - 1, k);
    DistanceMeans(m, AllPairs(m)[k], s);
  }

  lemma DistanceOf(m: nat, i: nat, j: nat, s: Var -> int)
    requires i < j < m
    ensures var k, t := PairIndex(m, i, j), At(Ticks(m), s);
      0 <= k < |AllPairs(m)| && Values(Distances(AllPairs(m)), s)[k] == t[j] - t[i] && AllPairs(m)[k] == (i, j)
  {
    hide Pairs, PairIndex;
    PairAtIndex(m, m - 1, i, j);
    DistanceMeans(m, (i, j), s);
  }

  lemma DistancesDiffer(m: nat, s: Var -> int)
    requires m > 0
    ensures Distinct(Values(Distances(AllPairs(m)), s)) <==> IsGolomb(At(Ticks(m), s))
  {
    hide Pairs, PairIndex, Distances, AllPairs, Values;
    var t, ds := At(Ticks(m), s), Values(Distances(AllPairs(m)), s);
    if Distinct(ds) {
      forall i, j, k, l | SameDistance(t, i, j, k, l)
        ensures i == k && j == l
      {
        DistanceOf(m, i, j, s);
        DistanceOf(m, k, l, s);
      }
    }
    if IsGolomb(t) {
      forall a, b | 0 <= a < b < |ds|
        ensures ds[a] != ds[b]
      {
        DistanceAt(m, a, s);
        DistanceAt(m, b, s);
        var p, q := AllPairs(m)[a], AllPairs(m)[b];
        assert ds[a] == ds[b] ==> SameDistance(t, p.0, p.1, q.0, q.1);
      }
    }
  }

  lemma BreakMeans(m: nat, s: Var -> int)
    requires m > 0
    ensures Satisfies(Break(m), s) <==> PassesBreak(At(Ticks(m), s))
  {
    if m > 2 {
      SatisfiesOne(Break(m)[0], s);
      DistanceMeans(m, (0, 1), s);
      DistanceMeans(m, (m - 2, m - 1), s);
    }
  }

  /** The posted constraints say that the ticks are a ruler and pass the symmetry break. */
  lemma RulerMeans(m: nat, s: Var -> int)
    requires m > 0
    ensures Satisfies(RulerConstraints(m), s) <==> IsRuler(m, At(Ticks(m), s)) && PassesBreak(At(Ticks(m), s))
  {
    hide Limit, Domains, OrderConstraints, Bounds, AllPairs, Distances, Break, Satisfies, IsGolomb, PassesBreak;
    var ts := Ticks(m);
    var first, differ := Compare(Var(Tick(0)), Eq, Const(0)), AllDifferent(Distances(AllPairs(m)));
    DomainsHold(ts, 0, Limit(m), s);
    SatisfiesOne(first, s);
    OrderMeans(m - 1, s);
    SatisfiesOne(differ, s);
    DistancesDiffer(m, s);
    BreakMeans(m, s);
    var a, b, c, d := Domains(ts, 0, Limit(m)), OrderConstraints(m - 1), Bounds(AllPairs(m)), Break(m);
    SatisfiesConcat(a, [first], s);
    SatisfiesConcat(a + [first], b, s);
    SatisfiesConcat(a + [first] + b, c, s);
    SatisfiesConcat(a + [first] + b + c, [differ], s);
    SatisfiesConcat(a + [first] + b + c + [differ], d, s);
    if Increasing(At(ts, s)) && IsGolomb(At(ts, s)) {
      BoundsHold(m, s);
    }
  }

  // ---------- Solutions ----------

  lemma {:induction false} Pow2Grows(i: nat, j: nat)
    requires i < j
    ensures 2 * Pow(2, i) <= Pow(2, j)
  {
    if i < j - 1 {
      Pow2Grows(i, j - 1);
    }
  }

  lemma Pow2Differences(i: nat, j: nat, k: nat, l: nat)
    requires i < j && k < l && Pow(2, j) - Pow(2, i) == Pow(2, l) - Pow(2, k)
    ensures i == k && j == l
  {
    hide Pow;
    Pow2Grows(i, j);
    Pow2Grows(k, l);
    if j < l { Pow2Grows(j, l); }
    if l < j { Pow2Grows(l, j); }
    if i < k { Pow2Grows(i, k); }
    if k < i { Pow2Grows(k, i); }
  }

  /** The ticks 2^i - 1. */
  function PowerRuler(m: nat): (t: seq<int>)
    ensures |t| == m && forall i :: 0 <= i < m ==> t[i] == Pow(2, i) - 1
  {
    seq(m, i requires 0 <= i => Pow(2, i) - 1)
  }

  lemma PowerRulerIncreases(m: nat)
    ensures Increasing(PowerRuler(m))
  {
    forall i, j | 0 <= i < j < m
      ensures PowerRuler(m)[i] < PowerRuler(m)[j]
    {
      Pow2Grows(i, j);
    }
  }

  lemma PowerRulerFits(m: nat)
    requires m < 31
    ensures InRange(PowerRuler(m), 0, Limit(m) + 1)
  {
    forall i | 0 <= i < m
      ensures 0 <= PowerRuler(m)[i] <= Limit(m)
    {
      Pow2Grows(i, m + 1);
    }
  }

  lemma PowerRulerIsGolomb(m: nat)
    ensures IsGolomb(PowerRuler(m))
  {
    hide Pow;
    var t := PowerRuler(m);
    forall i, j, k, l | SameDistance(t, i, j, k, l)
      ensures i == k && j == l
    {
      Pow2Differences(i, j, k, l);
    }
  }

  /** It fits every domain that grows with m, and passes the symmetry break. */
  lemma PowerRulerIsRuler(m: nat)
    requires 0 < m < 31
    ensures IsRuler(m, PowerRuler(m)) && PassesBreak(PowerRuler(m))
  {
    hide IsGolomb, Increasing, Limit;
    PowerRulerIncreases(m);
    PowerRulerFits(m);
    PowerRulerIsGolomb(m);
    if m > 2 {
      assert Pow(2, 0) == 1 && Pow(2, 1) == 2 && Pow(2, m - 1) == 2 * Pow(2, m - 2);
      Pow2Grows(0, m - 2);
    }
  }

  // Up to 71 ticks: the ticks 142 i + (i^2 mod 71), where 71 is a prime.

  lemma FactorsOf71(a: nat, c: nat)
    requires a * c == 71
    ensures a == 1 || a == 71
  {
    if a <= 8 {
      if a == 2 || a == 3 || a == 4 || a == 5 || a == 6 || a == 7 || a == 8 {}
    } else if c >= 9 {
      ProductIsLarge(a, c);
    } else {
      if c == 2 || c == 3 || c == 4 || c == 5 || c == 6 || c == 7 || c == 8 {}
    }
  }

  lemma ProductIsLarge(a: nat, c: nat)
    requires a >= 9 && c >= 9
    ensures a * c >= 81
  {}

  lemma {:induction false} Prime71(a: nat, b: int, q: int) returns (r: int)
    requires 0 < a < 71 && a * b == 71 * q
    ensures b == 71 * r
    decreases a
  {
    if a == 1 {
      r := q;
    } else {
      var c, a' := 71 / a, 71 % a;
      if a' == 0 {
        FactorsOf71(a, c);
      }
      Remainder(a, b, c, a', q);
      r := Prime71(a', b, b - c * q);
    }
  }

  lemma Remainder(a: int, b: int, c: int, r: int, q: int)
    requires 71 == a * c + r && a * b == 71 * q
    ensures r * b == 71 * (b - c * q)
  {
    assert r * b == 71 * b - (a * c) * b;
    assert (a * c) * b == c * (a * b);
    assert c * (71 * q) == 71 * (c * q);
  }

  function Square71(i: nat): (r: int)
    ensures 0 <= r < 71
  {
    i * i % 71
  }

  function PrimeRuler(m: nat): (t: seq<int>)
    ensures |t| == m && forall i :: 0 <= i < m ==> t[i] == 142 * i + Square71(i)
  {
    seq(m, i requires 0 <= i => 142 * i + Square71(i))
  }

  /** Equal sums of two squares modulo 71, with equal sums of the numbers. */
  lemma SquaresDetermine(i: nat, j: nat, k: nat, l: nat)
    requires i < j < 71 && k < l < 71 && j - i == l - k
    ensures Square71(j) - Square71(i) == Square71(l) - Square71(k) ==> i == k
  {
    hide Square71;
    if Square71(j) - Square71(i) == Square71(l) - Square71(k) {
      var q := SquareQuotient(i, j, k, l);
      var r := Prime71(j - i, 2 * (i - k), q);
      var r' := Prime71(2, i - k, r);
    }
  }

  lemma SquareQuotient(i: nat, j: nat, k: nat, l: nat) returns (q: int)
    requires j - i == l - k && Square71(j) - Square71(i) == Square71(l) - Square71(k)
    ensures (j - i) * (2 * (i - k)) == 71 * q
  {
    hide Square71;
    var a := QuotientForm(i);
    var b := QuotientForm(j);
    var c := QuotientForm(k);
    var d := QuotientForm(l);
    q := (b - a) - (d - c);
    DifferenceOfSquares(i, j, k, l);
  }

  lemma QuotientForm(i: nat) returns (q: int)
    ensures i * i == 71 * q + Square71(i)
  {
    q := i * i / 71;
  }

  lemma DifferenceOfSquares(i: int, j: int, k: int, l: int)
    requires j - i == l - k
    ensures (j * j - i * i) - (l * l - k * k) == (j - i) * (2 * (i - k))
  {
    var d := j - i;
    assert j * j == (i + d) * (i + d) == i * i + 2 * (d * i) + d * d;
    assert l * l == (k + d) * (k + d) == k * k + 2 * (d * k) + d * d;
    assert d * (2 * (i - k)) == 2 * (d * i) - 2 * (d * k);
  }

  lemma PrimeRulerIsGolomb(m: nat)
    requires m <= 71
    ensures IsGolomb(PrimeRuler(m))
  {
    hide Square71;
    var t := PrimeRuler(m);
    forall i, j, k, l | SameDistance(t, i, j, k, l)
      ensures i == k && j == l
    {
      SquaresDetermine(i, j, k, l);
    }
  }

  lemma PrimeRulerIsRuler(m: nat)
    requires 31 <= m <= 71
    ensures IsRuler(m, PrimeRuler(m))
  {
    hide IsGolomb;
    PrimeRulerIsGolomb(m);
    LastOfPrimeRuler(m);
  }

  lemma LastOfPrimeRuler(m: nat)
    requires m <= 71
    ensures InRange(PrimeRuler(m), 0, 10000)
  {
    assert Square71(70) == 1;
    forall i | 0 <= i < m
      ensures PrimeRuler(m)[i] < 10000
    {
      if i < 70 {}
    }
  }

  lemma SolutionFor(m: nat, t: seq<int>) returns (s: Var -> int)
    requires IsRuler(m, t)
    ensures Satisfies(RulerConstraints(m), s)
  {
    hide RulerConstraints, Satisfies, IsGolomb, Limit, Increasing;
    if m > 2 {
      ExactlyOnePasses(m, t);
      MirrorIsRuler(m, t);
    }
    var u := if PassesBreak(t) then t else Mirror(t);
    s := (v: Var) => if v.i < m then u[v.i] else 0;
    assert At(Ticks(m), s) == u;
    RulerMeans(m, s);
  }

  /** The model has a solution for every m up to 71. */
  lemma UpTo71Feasible(m: nat)
    requires 0 < m <= 71
    ensures exists s :: Satisfies(RulerConstraints(m), s)
  {
    hide RulerConstraints, Satisfies, IsRuler;
    if m < 31 {
      PowerRulerIsRuler(m);
    } else {
      PrimeRulerIsRuler(m);
    }
    var s := SolutionFor(m, if m < 31 then PowerRuler(m) else PrimeRuler(m));
  }

  /** The distances are distinct and none exceeds the limit; from 142 ticks on there are too many of them. */
  lemma TooManyDistances(m: nat, s: Var -> int)
    requires m > 0 && Satisfies(RulerConstraints(m), s)
    ensures (m * m - m) / 2 <= Limit(m) && m < 142
  {
    hide RulerConstraints, Satisfies, Limit, IsGolomb, Distances, Values, AllPairs, PairIndex;
    RulerMeans(m, s);
    DistancesDiffer(m, s);
    var t, ds := At(Ticks(m), s), Values(Distances(AllPairs(m)), s);
    forall k | 0 <= k < |ds|
      ensures 1 <= ds[k] < Limit(m) + 1
    {
      DistanceAt(m, k, s);
    }
    PairsFill(m);
    Pigeonhole(ds, 1, Limit(m) + 1);
    ManyPairs(m);
  }

  lemma ManyPairs(m: nat)
    ensures m >= 142 ==> (m * m - m) / 2 > Limit(m)
  {
    if m >= 142 {
      assert m * m - m == m * (m - 1) && m * (m - 1) >= 142 * 141;
    }
  }

  // ---------- The posted model in full ----------

  /** The posted constraints, spelled out on the ticks. */
  lemma RulerInFull(m: nat, s: Var -> int)
    requires m > 0
    ensures var t := At(Ticks(m), s);
      Satisfies(RulerConstraints(m), s) <==>
        && t[0] == 0
        && (forall i, j :: 0 <= i < j < m ==> t[i] < t[j])
        && (forall i :: 0 <= i < m ==> t[i] <= if m < 31 then Pow(2, m + 1) - 1 else 9999)
        && IsGolomb(t)
        && (m > 2 ==> t[1] - t[0] < t[m - 1] - t[m - 2])
  {
    hide Satisfies, RulerConstraints, IsGolomb, Pow;
    RulerMeans(m, s);
    if m > 0 && At(Ticks(m), s)[0] == 0 && Increasing(At(Ticks(m), s)) {
      TicksUpToLast(At(Ticks(m), s));
    }
  }

  /** A tick far beyond the others makes a longer ruler. */
  lemma FarTickIsGolomb(t: seq<int>, x: int)
    requires t != [] && t[0] == 0 && Increasing(t) && IsGolomb(t) && x > 2 * t[|t| - 1]
    ensures Increasing(t + [x]) && IsGolomb(t + [x])
  {
    var u, m := t + [x], |t|;
    forall i | 0 <= i < m
      ensures 0 <= t[i] <= t[m - 1] < x
    {
      assert i > 0 ==> t[0] < t[i];
      assert i < m - 1 ==> t[i] < t[m - 1];
    }
    forall i, j, k, l | SameDistance(u, i, j, k, l)
      ensures i == k && j == l
    {
      if j < m && l < m {
        assert SameDistance(t, i, j, k, l);
      } else {
        SameTick(t, i, k);
      }
    }
  }

  lemma SameTick(t: seq<int>, i: int, k: int)
    requires Increasing(t) && 0 <= i < |t| && 0 <= k < |t| && t[i] == t[k]
    ensures i == k
  {}

  /** The longest ruler below 31 ticks: powers of two, and the last tick at the limit. */
  lemma LongRuler(m: nat) returns (t: seq<int>)
    requires 1 < m < 31
    ensures IsRuler(m, t) && PassesBreak(t) && t[m - 1] == Pow(2, m + 1) - 1
  {
    hide IsGolomb, Increasing, Pow;
    var short, x := PowerRuler(m - 1), Pow(2, m + 1) - 1;
    PowerRulerIncreases(m - 1);
    PowerRulerIsGolomb(m - 1);
    Pow2Grows(m - 2, m);
    Pow2Grows(m, m + 1);
    assert Pow(2, 0) == 1 by { PowZero(); }
    FarTickIsGolomb(short, x);
    t := short + [x];
    TicksUpToLast(t);
    if m > 2 {
      if m > 3 {
        Pow2Grows(1, m - 2);
      }
      Pow2Grows(0, 1);
      PowOne();
    }
  }

  lemma PowZero()
    ensures Pow(2, 0) == 1
  {}

  lemma PowOne()
    ensures Pow(2, 1) == 2
  {
    assert Pow(2, 0) == 1;
  }

  lemma TicksUpToLast(t: seq<int>)
    requires t != [] && t[0] == 0 && Increasing(t)
    ensures InRange(t, 0, t[|t| - 1] + 1)
  {
    forall i | 0 <= i < |t|
      ensures 0 <= t[i] <= t[|t| - 1]
    {
      assert i > 0 ==> t[0] < t[i];
      assert i < |t| - 1 ==> t[i] < t[|t| - 1];
    }
  }

  /** A ruler of 31 ticks whose last tick is at the fixed limit. */
  lemma LongRulerOf31() returns (t: seq<int>)
    ensures IsRuler(31, t) && PassesBreak(t) && t[30] == 9999
  {
    hide IsGolomb, Increasing;
    var short := PrimeRuler(30);
    PrimeRulerIsGolomb(30);
    PrimeRulerIncreases(30);
    FarTickIsGolomb(short, 9999);
    t := short + [9999];
    TicksUpToLast(t);
  }

  lemma PrimeRulerIncreases(m: nat)
    ensures Increasing(PrimeRuler(m))
  {
    hide Square71;
  }

  lemma AssignmentOf(m: nat, t: seq<int>) returns (s: Var -> int)
    requires IsRuler(m, t) && PassesBreak(t)
    ensures Satisfies(RulerConstraints(m), s) && At(Ticks(m), s) == t
  {
    hide RulerConstraints, Satisfies, IsGolomb, Limit, Increasing;
    s := (v: Var) => if v.i < m then t[v.i] else 0;
    assert At(Ticks(m), s) == t;
    RulerMeans(m, s);
  }

  ghost predicate CanEndAt(m: nat, x: int) {
    m > 0 && exists s :: Satisfies(RulerConstraints(m), s) && s(Tick(m - 1)) == x
  }

  /** The largest tick that a solution can have is 2^(m + 1) - 1 for 1 < m < 31. */
  lemma LargestTick(m: nat)
    requires 1 < m < 31
    ensures CanEndAt(m, Pow(2, m + 1) - 1)
    ensures forall x :: CanEndAt(m, x) ==> x <= Pow(2, m + 1) - 1
  {
    hide RulerConstraints, Satisfies, IsRuler, PassesBreak, Pow;
    var t := LongRuler(m);
    var s := AssignmentOf(m, t);
    assert At(Ticks(m), s)[m - 1] == s(Tick(m - 1));
    forall s' | Satisfies(RulerConstraints(m), s')
      ensures s'(Tick(m - 1)) <= Pow(2, m + 1) - 1
    {
      RulerInFull(m, s');
      assert At(Ticks(m), s')[m - 1] == s'(Tick(m - 1));
    }
  }

  /** From 31 ticks on no tick is beyond 9999, and 9999 is reached. */
  lemma LargestFixedTick(m: nat)
    requires m >= 31
    ensures CanEndAt(31, 9999)
    ensures forall x :: CanEndAt(m, x) ==> x <= 9999
  {
    hide RulerConstraints, Satisfies, IsRuler, PassesBreak;
    var t := LongRulerOf31();
    var s := AssignmentOf(31, t);
    assert At(Ticks(31), s)[30] == s(Tick(30));
    forall s' | Satisfies(RulerConstraints(m), s')
      ensures s'(Tick(m - 1)) <= 9999
    {
      RulerInFull(m, s');
      assert At(Ticks(m), s')[m - 1] == s'(Tick(m - 1));
    }
  }
}
