/** The Langford model: 1..k twice each, with i other numbers between the two occurrences of i. */
module Langford {
  import opened Cp
  import opened Permutations
  import opened Sums

  datatype Var = Position(i: nat) | Solution(i: nat)

  function Positions(n: nat): (vs: seq<Var>)
    ensures |vs| == n && forall i :: 0 <= i < n ==> vs[i] == Position(i)
  {
    seq(n, i requires 0 <= i => Position(i))
  }

  function Solutions(n: nat): (vs: seq<Var>)
    ensures |vs| == n && forall i :: 0 <= i < n ==> vs[i] == Solution(i)
  {
    seq(n, i requires 0 <= i => Solution(i))
  }

  /** The three constraints on the number i. */
  function Channel(k: nat, i: nat): seq<Constraint<Var>>
    requires 1 <= i <= k
  {
    [Compare(Var(Position(i + k - 1)), Eq, Plus(Plus(Var(Position(i - 1)), Const(i)), Const(1))),
     ElementOf(Vars(Solutions(2 * k)), Var(Position(i - 1)), Const(i)),
     ElementOf(Vars(Solutions(2 * k)), Var(Position(k + i - 1)), Const(i))]
  }

  function Channels(k: nat, i: nat): seq<Constraint<Var>>
    requires i <= k
  {
    if i == 0 then [] else Channels(k, i - 1) + Channel(k, i)
  }

  function SymmetryBreak(k: nat): Constraint<Var>
    requires k > 0
  {
    Compare(Var(Solution(0)), Less, Var(Solution(2 * k - 1)))
  }

  function UnbrokenConstraints(k: nat): seq<Constraint<Var>> {
    Domains(Positions(2 * k), 0, 2 * k - 1) + Domains(Solutions(2 * k), 1, k)
    + [AllDifferent(Vars(Positions(2 * k)))] + Channels(k, k)
  }

  method PostLangford(k: nat) returns (cs: seq<Constraint<Var>>)
    requires k > 0
    ensures cs == UnbrokenConstraints(k) + [SymmetryBreak(k)]
    ensures forall s: Var -> int :: Satisfies(cs, s) <==>
      IsUnbroken(k, At(Positions(2 * k), s), At(Solutions(2 * k), s)) && s(Solution(0)) < s(Solution(2 * k - 1))
  {
    hide Domains, Channels, Satisfies, IsUnbroken;
    var position, solution := Positions(2 * k), Solutions(2 * k);
    cs := Domains(position, 0, 2 * k - 1) + Domains(solution, 1, k);
    cs := cs + [AllDifferent(Vars(position))];
    var channels := PostChannels(k, position, solution);
    cs := cs + channels;
    cs := cs + [Compare(Var(solution[0]), Less, Var(solution[2 * k - 1]))];
    assert cs == UnbrokenConstraints(k) + [SymmetryBreak(k)];
    forall s: Var -> int
      ensures Satisfies(cs, s) <==>
        IsUnbroken(k, At(Positions(2 * k), s), At(Solutions(2 * k), s)) && s(Solution(0)) < s(Solution(2 * k - 1))
    {
      SatisfiesConcat(UnbrokenConstraints(k), [SymmetryBreak(k)], s);
      UnbrokenMeans(k, s);
      BreakMeans(k, s);
    }
  }

  method PostChannels(k: nat, position: seq<Var>, solution: seq<Var>) returns (cs: seq<Constraint<Var>>)
    requires position == Positions(2 * k) && solution == Solutions(2 * k)
    ensures cs == Channels(k, k)
  {
    cs := [];
    for i := 1 to k + 1
      invariant cs == Channels(k, i - 1)
    {
      var step := Compare(Var(position[i + k - 1]), Eq, Plus(Plus(Var(position[i - 1]), Const(i)), Const(1)));
      var first := ElementOf(Vars(solution), Var(position[i - 1]), Const(i));
      var second := ElementOf(Vars(solution), Var(position[k + i - 1]), Const(i));
      cs := cs + [step, first, second];
    }
  }

  // ---------- What the posted constraints mean ----------

  /** The positions p of the numbers in q: both occurrences of i are where p says. */
  predicate IsPlaced(k: nat, p: seq<int>, q: seq<int>, i: int)
    requires |p| == |q| == 2 * k && InRange(p, 0, 2 * k) && 1 <= i <= k
  {
    p[i + k - 1] == p[i - 1] + i + 1 && q[p[i - 1]] == i && q[p[i + k - 1]] == i
  }

  /** Everything but the symmetry break. */
  ghost predicate IsUnbroken(k: nat, p: seq<int>, q: seq<int>) {
    && |p| == |q| == 2 * k && InRange(p, 0, 2 * k) && InRange(q, 1, k + 1) && Distinct(p)
    && forall i :: 1 <= i <= k ==> IsPlaced(k, p, q, i)
  }

  lemma StepMeans(v: Var, w: Var, i: int, s: Var -> int)
    ensures Holds(Compare(Var(v), Eq, Plus(Plus(Var(w), Const(i)), Const(1))), s) <==> s(v) == s(w) + i + 1
  {
    var sum := Plus(Var(w), Const(i));
    assert Eval(sum, s) == s(w) + i;
    assert Eval(Plus(sum, Const(1)), s) == Eval(sum, s) + 1;
  }

  lemma ElementMeans(n: nat, v: Var, i: int, s: Var -> int)
    ensures Holds(ElementOf(Vars(Solutions(n)), Var(v), Const(i)), s) <==>
      0 <= s(v) < n && At(Solutions(n), s)[s(v)] == i
  {
    if 0 <= s(v) < n {
      assert Eval(Vars(Solutions(n))[s(v)], s) == s(Solution(s(v)));
    }
  }

  lemma ChannelMeans(k: nat, i: nat, s: Var -> int)
    requires 1 <= i <= k && InRange(At(Positions(2 * k), s), 0, 2 * k)
    ensures Satisfies(Channel(k, i), s) <==> IsPlaced(k, At(Positions(2 * k), s), At(Solutions(2 * k), s), i)
  {
    hide Satisfies, Holds, Eval, Vars;
    SatisfiesThree(Channel(k, i), s);
    StepMeans(Position(i + k - 1), Position(i - 1), i, s);
    ElementMeans(2 * k, Position(i - 1), i, s);
    ElementMeans(2 * k, Position(k + i - 1), i, s);
  }

  lemma {:induction false} ChannelsMean(k: nat, j: nat, s: Var -> int)
    requires j <= k && InRange(At(Positions(2 * k), s), 0, 2 * k)
    ensures Satisfies(Channels(k, j), s) <==>
      forall i :: 1 <= i <= j ==> IsPlaced(k, At(Positions(2 * k), s), At(Solutions(2 * k), s), i)
  {
    hide IsPlaced, Satisfies, Channel;
    if j == 0 {
      NothingToSatisfy(s);
    } else {
      ChannelsMean(k, j - 1, s);
      SatisfiesConcat(Channels(k, j - 1), Channel(k, j), s);
      ChannelMeans(k, j, s);
    }
  }

  lemma UnbrokenMeans(k: nat, s: Var -> int)
    ensures Satisfies(UnbrokenConstraints(k), s) <==> IsUnbroken(k, At(Positions(2 * k), s), At(Solutions(2 * k), s))
  {
    hide IsPlaced, Satisfies, Channels, Domains;
    var ps, qs := Positions(2 * k), Solutions(2 * k);
    var a, b, c := Domains(ps, 0, 2 * k - 1), Domains(qs, 1, k), AllDifferent(Vars(ps));
    DomainsHold(ps, 0, 2 * k - 1, s);
    DomainsHold(qs, 1, k, s);
    ValuesOfVars(ps, s);
    SatisfiesOne(c, s);
    SatisfiesConcat(a, b, s);
    SatisfiesConcat(a + b, [c], s);
    SatisfiesConcat(a + b + [c], Channels(k, k), s);
    if InRange(At(ps, s), 0, 2 * k) {
      ChannelsMean(k, k, s);
    }
  }

  // ---------- Exactly the Langford sequences ----------

  /** The number i is at a and at a + i + 1, and nowhere else. */
  predicate OccursAt(q: seq<int>, i: int, a: int) {
    0 <= a < a + i + 1 < |q| && forall b :: 0 <= b < |q| ==> (q[b] == i <==> b == a || b == a + i + 1)
  }

  ghost predicate OccursTwice(q: seq<int>, i: int) {
    exists a :: OccursAt(q, i, a)
  }

  ghost predicate IsLangford(k: nat, q: seq<int>) {
    |q| == 2 * k && InRange(q, 1, k + 1) && forall i :: 1 <= i <= k ==> OccursTwice(q, i)
  }

  /** The number whose position is the j-th one. */
  function NumberAt(k: nat, j: nat): (i: int)
    requires j < 2 * k
    ensures 1 <= i <= k && (j == i - 1 || j == i + k - 1)
  {
    if j < k then j + 1 else j - k + 1
  }

  lemma OnlyWherePlaced(k: nat, p: seq<int>, q: seq<int>, i: int)
    requires IsUnbroken(k, p, q) && 1 <= i <= k
    ensures OccursAt(q, i, p[i - 1])
  {
    var a := p[i - 1];
    assert IsPlaced(k, p, q, i);
    forall b | 0 <= b < 2 * k && q[b] == i
      ensures b == a || b == a + i + 1
    {
      Pigeonhole(p, 0, 2 * k);
      assert b in p;
      var j :| 0 <= j < 2 * k && p[j] == b;
      assert IsPlaced(k, p, q, NumberAt(k, j));
    }
  }

  lemma PlacesAreDistinct(k: nat, p: seq<int>, q: seq<int>)
    requires |p| == |q| == 2 * k && InRange(p, 0, 2 * k)
    requires forall i :: 1 <= i <= k ==> IsPlaced(k, p, q, i)
    ensures Distinct(p)
  {
    forall i, j | 0 <= i < j < 2 * k
      ensures p[i] != p[j]
    {
      assert IsPlaced(k, p, q, NumberAt(k, i)) && IsPlaced(k, p, q, NumberAt(k, j));
    }
  }

  lemma {:induction false} Places(k: nat, q: seq<int>, n: nat) returns (places: seq<int>)
    requires IsLangford(k, q) && n <= k
    ensures |places| == n && forall j :: 0 <= j < n ==> OccursAt(q, j + 1, places[j])
  {
    if n == 0 {
      places := [];
    } else {
      places := Places(k, q, n - 1);
      assert OccursTwice(q, n);
      var a :| OccursAt(q, n, a);
      places := places + [a];
    }
  }

  lemma SequenceIsLangford(k: nat, p: seq<int>, q: seq<int>)
    requires IsUnbroken(k, p, q)
    ensures IsLangford(k, q)
  {
    forall i | 1 <= i <= k
      ensures OccursTwice(q, i)
    {
      OnlyWherePlaced(k, p, q, i);
    }
  }

  /** All positions, from the first ones of the numbers. */
  function BothPlaces(k: nat, first: seq<int>): (p: seq<int>)
    requires |first| == k
    ensures |p| == 2 * k
  {
    seq(2 * k, j requires 0 <= j < 2 * k => if j < k then first[j] else first[j - k] + (j - k) + 2)
  }

  lemma PlacesFit(k: nat, first: seq<int>)
    requires |first| == k && forall j :: 0 <= j < k ==> 0 <= first[j] && first[j] + j + 2 < 2 * k
    ensures InRange(BothPlaces(k, first), 0, 2 * k)
  {
    var p := BothPlaces(k, first);
    forall j | 0 <= j < 2 * k
      ensures 0 <= p[j] < 2 * k
    {
      var t := if j < k then j else j - k;
      assert 0 <= first[t] && first[t] + t + 2 < 2 * k;
    }
  }

  predicate StartsAt(q: seq<int>, j: int, a: int) {
    0 <= a < a + j + 2 < |q| && q[a] == j + 1 && q[a + j + 2] == j + 1
  }

  lemma StartsGivePositions(k: nat, q: seq<int>, first: seq<int>)
    requires |q| == 2 * k && InRange(q, 1, k + 1) && |first| == k
    requires forall j :: 0 <= j < k ==> StartsAt(q, j, first[j])
    ensures IsUnbroken(k, BothPlaces(k, first), q)
  {
    var p := BothPlaces(k, first);
    PlacesFit(k, first);
    forall i | 1 <= i <= k
      ensures IsPlaced(k, p, q, i)
    {
      assert StartsAt(q, i - 1, first[i - 1]);
    }
    PlacesAreDistinct(k, p, q);
  }

  lemma LangfordHasPositions(k: nat, q: seq<int>) returns (p: seq<int>)
    requires IsLangford(k, q)
    ensures IsUnbroken(k, p, q)
  {
    var first := Places(k, q, k);
    forall j | 0 <= j < k
      ensures StartsAt(q, j, first[j])
    {
      assert OccursAt(q, j + 1, first[j]);
    }
    StartsGivePositions(k, q, first);
    p := BothPlaces(k, first);
  }

  /** A list of numbers can be given positions exactly when it is a Langford sequence. */
  lemma UnbrokenIsLangford(k: nat, q: seq<int>)
    ensures (exists p :: IsUnbroken(k, p, q)) <==> IsLangford(k, q)
  {
    hide IsUnbroken, IsLangford;
    forall p | IsUnbroken(k, p, q)
      ensures IsLangford(k, q)
    {
      SequenceIsLangford(k, p, q);
    }
    if IsLangford(k, q) {
      var p := LangfordHasPositions(k, q);
    }
  }

  /** The positions are determined by the sequence. */
  lemma PositionsAreUnique(k: nat, p: seq<int>, p': seq<int>, q: seq<int>)
    requires IsUnbroken(k, p, q) && IsUnbroken(k, p', q)
    ensures p == p'
  {
    forall j | 0 <= j < 2 * k
      ensures p[j] == p'[j]
    {
      var i := NumberAt(k, j);
      OnlyWherePlaced(k, p, q, i);
      assert IsPlaced(k, p, q, i) && IsPlaced(k, p', q, i);
    }
  }

  // ---------- The symmetry break ----------

  function Reversed(q: seq<int>): (r: seq<int>)
    ensures |r| == |q| && forall i :: 0 <= i < |q| ==> r[i] == q[|q| - 1 - i]
  {
    seq(|q|, i requires 0 <= i < |q| => q[|q| - 1 - i])
  }

  /** The positions in the reversed sequence: the two occurrences change places. */
  function Mirrored(k: nat, p: seq<int>): (r: seq<int>)
    requires |p| == 2 * k
    ensures |r| == 2 * k && forall i :: 0 <= i < k ==> r[i] == 2 * k - 1 - p[i + k] && r[i + k] == 2 * k - 1 - p[i]
  {
    seq(2 * k, i requires 0 <= i < 2 * k => 2 * k - 1 - p[if i < k then i + k else i - k])
  }

  /** Mirroring is its own inverse. */
  lemma MirrorTwice(k: nat, p: seq<int>, q: seq<int>)
    requires |p| == 2 * k
    ensures Mirrored(k, Mirrored(k, p)) == p && Reversed(Reversed(q)) == q
  {
    var p' := Mirrored(k, p);
    forall j | 0 <= j < 2 * k
      ensures Mirrored(k, p')[j] == p[j]
    {
      var i := if j < k then j else j - k;
      assert p'[i] == 2 * k - 1 - p[i + k] && p'[i + k] == 2 * k - 1 - p[i];
    }
  }

  lemma MirrorInRange(k: nat, p: seq<int>)
    requires |p| == 2 * k && InRange(p, 0, 2 * k)
    ensures InRange(Mirrored(k, p), 0, 2 * k)
  {
    var p' := Mirrored(k, p);
    forall j | 0 <= j < 2 * k
      ensures 0 <= p'[j] < 2 * k
    {
      var i := if j < k then j else j - k;
      assert p'[i] == 2 * k - 1 - p[i + k] && p'[i + k] == 2 * k - 1 - p[i];
    }
  }

  lemma MirrorPlaces(k: nat, p: seq<int>, q: seq<int>, i: int)
    requires |p| == |q| == 2 * k && InRange(p, 0, 2 * k) && 1 <= i <= k && IsPlaced(k, p, q, i)
    requires InRange(Mirrored(k, p), 0, 2 * k)
    ensures IsPlaced(k, Mirrored(k, p), Reversed(q), i)
  {
    var j := i - 1;
    assert Mirrored(k, p)[j] == 2 * k - 1 - p[j + k] && Mirrored(k, p)[j + k] == 2 * k - 1 - p[j];
  }

  /** Reversal maps solutions of the unbroken model to solutions. */
  lemma ReversalKeepsSolutions(k: nat, p: seq<int>, q: seq<int>)
    requires IsUnbroken(k, p, q)
    ensures IsUnbroken(k, Mirrored(k, p), Reversed(q))
  {
    hide Mirrored, IsPlaced;
    var p', q' := Mirrored(k, p), Reversed(q);
    MirrorInRange(k, p);
    forall i | 1 <= i <= k
      ensures IsPlaced(k, p', q', i)
    {
      assert IsPlaced(k, p, q, i);
      MirrorPlaces(k, p, q, i);
    }
    PlacesAreDistinct(k, p', q');
  }

  /** Of a solution and its reversal exactly one passes the symmetry break. */
  lemma ExactlyOnePasses(k: nat, p: seq<int>, q: seq<int>)
    requires k > 0 && IsUnbroken(k, p, q)
    ensures (q[0] < q[2 * k - 1]) != (Reversed(q)[0] < Reversed(q)[2 * k - 1])
  {
    if q[0] == q[2 * k - 1] {
      OnlyWherePlaced(k, p, q, q[0]);
      SmallHasNone(k, p, q);
    }
  }

  lemma SmallHasNone(k: nat, p: seq<int>, q: seq<int>)
    requires IsUnbroken(k, p, q) && k > 0
    ensures k >= 3
  {
    Feasible(k, p, q);
  }

  // ---------- When there are solutions ----------

  lemma {:induction false} SumOfSteps(steps: seq<int>)
    requires forall i :: 0 <= i < |steps| ==> steps[i] == i + 2
    ensures 2 * Sum(steps) == |steps| * (|steps| + 3)
  {
    if steps != [] {
      SumOfSteps(steps[..|steps| - 1]);
    }
  }

  lemma {:induction false} SumBelow(n: nat)
    ensures 2 * SumRange(v => v, 0, n) == n * (n - 1)
  {
    if n > 0 {
      SumBelow(n - 1);
    }
  }

  lemma SecondPlaces(k: nat, p: seq<int>, q: seq<int>)
    requires IsUnbroken(k, p, q)
    ensures 2 * Sum(p) == 4 * Sum(p[..k]) + k * (k + 3)
  {
    hide Sum, Distinct;
    var first, second := p[..k], p[k..];
    assert p == first + second;
    SumConcat(first, second);
    var steps := seq(k, i => i + 2);
    SumOfSteps(steps);
    forall i | 0 <= i < k
      ensures second[i] == first[i] + steps[i]
    {
      assert IsPlaced(k, p, q, i + 1);
    }
    SumPlus(first, steps, second);
  }

  /** All positions add up to k(2k - 1), which fixes k modulo 4. */
  lemma Feasible(k: nat, p: seq<int>, q: seq<int>)
    requires IsUnbroken(k, p, q)
    ensures k % 4 == 0 || k % 4 == 3
  {
    hide Sum, IsPlaced;
    PermutationSum(v => v, p, 0, 2 * k);
    SumIsSumOver(p);
    SumBelow(2 * k);
    SecondPlaces(k, p, q);
    Modulo4(k, Sum(p[..k]));
  }

  lemma Modulo4(k: nat, a: int)
    requires 2 * k * (2 * k - 1) == 4 * a + k * (k + 3)
    ensures k % 4 == 0 || k % 4 == 3
  {
    var h := k / 4;
    assert k == 4 * h + k % 4;
    ProductModulo4(h, a);
  }

  lemma ProductModulo4(h: nat, a: int)
    ensures var k := 4 * h + 1; 2 * k * (2 * k - 1) != 4 * a + k * (k + 3)
    ensures var k := 4 * h + 2; 2 * k * (2 * k - 1) != 4 * a + k * (k + 3)
  {
    var k, j := 4 * h + 1, 4 * h + 2;
    assert 2 * k * (2 * k - 1) - k * (k + 3) == 4 * (12 * (h * h) + h) - 2;
    assert 2 * j * (2 * j - 1) - j * (j + 3) == 4 * (12 * (h * h) + 7 * h) + 2;
  }

  /** A solution for k = 4m, and for k = 4m - 1 with the number 4m and one place for 2m - 1 left out. */
  function Davies(m: nat, full: bool, b: int): int
    requires m > 0
  {
    var s := m - 1;
    if b < s then 4 * m - 4 - 2 * b
    else if b == s then 4 * m - 2
    else if b < 2 * s + 1 then 2 * m - 3 - 2 * (b - s - 1)
    else if b == 2 * s + 1 then 4 * m - 1
    else if b < 3 * s + 2 then 1 + 2 * (b - 2 * s - 2)
    else if b < 4 * s + 2 then 2 * m + 2 * (b - 3 * s - 2)
    else if b == 4 * s + 2 then if full then 4 * m else 2 * m - 1
    else if b < 5 * s + 3 then 4 * m - 3 - 2 * (b - 4 * s - 3)
    else if b == 5 * s + 3 then 4 * m - 2
    else if b < 6 * s + 4 then 2 * m - 2 - 2 * (b - 5 * s - 4)
    else if b == 6 * s + 4 then 2 * m - 1
    else if b == 6 * s + 5 then 4 * m - 1
    else if b < 7 * s + 6 then 2 + 2 * (b - 6 * s - 6)
    else if b < 8 * s + 6 then 2 * m + 1 + 2 * (b - 7 * s - 6)
    else if b == 8 * s + 6 then 2 * m - 1
    else 4 * m
  }

  /** The number i has its two places at a and a + i + 1. */
  predicate IsAt(m: nat, full: bool, i: int, a: int)
    requires m > 0
  {
    && 0 <= a && a + i + 1 < (if full then 8 * m else 8 * m - 2)
    && Davies(m, full, a) == i && Davies(m, full, a + i + 1) == i
  }

  // Each class of numbers, by its distance t from the largest of the class.

  lemma LargeEven(m: nat, full: bool, t: nat)
    requires t < m - 1
    ensures IsAt(m, full, 4 * m - 4 - 2 * t, t)
  {}

  lemma SmallEven(m: nat, full: bool, t: nat)
    requires t < m - 1
    ensures IsAt(m, full, 2 * m - 2 - 2 * t, 5 * m - 1 + t)
  {}

  lemma LargeOdd(m: nat, full: bool, t: nat)
    requires t < m - 1
    ensures IsAt(m, full, 4 * m - 3 - 2 * t, 4 * m - 1 + t)
  {}

  lemma SmallOdd(m: nat, full: bool, t: nat)
    requires t < m - 1
    ensures IsAt(m, full, 2 * m - 3 - 2 * t, m + t)
  {}

  lemma Singles(m: nat, full: bool)
    requires m > 0
    ensures IsAt(m, full, 4 * m - 2, m - 1) && IsAt(m, full, 4 * m - 1, 2 * m - 1)
    ensures IsAt(m, full, 2 * m - 1, if full then 6 * m - 2 else 4 * m - 2)
    ensures full ==> IsAt(m, full, 4 * m, 4 * m - 2)
  {}

  lemma Halve(i: nat) returns (h: nat)
    ensures i == 2 * h || i == 2 * h + 1
  {
    h := i / 2;
  }

  lemma DaviesPlaces(m: nat, full: bool, i: nat) returns (a: int)
    requires m > 0 && 1 <= i <= if full then 4 * m else 4 * m - 1
    ensures IsAt(m, full, i, a)
  {
    hide IsAt;
    var h := Halve(i);
    if i == 2 * m - 1 || i >= 4 * m - 2 {
      Singles(m, full);
      a := if i == 4 * m - 2 then m - 1
           else if i == 4 * m - 1 then 2 * m - 1
           else if i == 2 * m - 1 && full then 6 * m - 2
           else 4 * m - 2;
    } else if i == 2 * h {
      if h >= m {
        a := 2 * m - 2 - h;
        LargeEven(m, full, a);
      } else {
        a := 6 * m - 2 - h;
        SmallEven(m, full, m - 1 - h);
      }
    } else if h >= m {
      a := 6 * m - 3 - h;
      LargeOdd(m, full, 2 * m - 2 - h);
    } else {
      a := 2 * m - 2 - h;
      SmallOdd(m, full, m - 2 - h);
    }
  }

  lemma DaviesInRange(m: nat, full: bool, b: int)
    requires m > 0 && 0 <= b < if full then 8 * m else 8 * m - 2
    ensures 1 <= Davies(m, full, b) <= if full then 4 * m else 4 * m - 1
  {}

  lemma {:induction false} DaviesStarts(m: nat, full: bool, n: nat) returns (first: seq<int>)
    requires m > 0 && n <= if full then 4 * m else 4 * m - 1
    ensures |first| == n && forall j :: 0 <= j < n ==> IsAt(m, full, j + 1, first[j])
  {
    hide IsAt;
    if n == 0 {
      first := [];
    } else {
      first := DaviesStarts(m, full, n - 1);
      var a := DaviesPlaces(m, full, n);
      first := first + [a];
    }
  }

  lemma SolutionExists(k: nat) returns (p: seq<int>, q: seq<int>)
    requires k > 0 && (k % 4 == 0 || k % 4 == 3)
    ensures IsUnbroken(k, p, q)
  {
    hide Davies, IsUnbroken;
    var full, m := k % 4 == 0, (k + 1) / 4;
    assert k == if full then 4 * m else 4 * m - 1;
    q := seq(2 * k, b => Davies(m, full, b));
    forall b | 0 <= b < 2 * k
      ensures 1 <= q[b] <= k
    {
      DaviesInRange(m, full, b);
    }
    var first := DaviesStarts(m, full, k);
    forall j | 0 <= j < k
      ensures StartsAt(q, j, first[j])
    {
      assert IsAt(m, full, j + 1, first[j]);
    }
    StartsGivePositions(k, q, first);
    p := BothPlaces(k, first);
  }

  /** The posted model has a solution exactly when k is 0 or 3 modulo 4. */
  lemma ModelFeasible(k: nat)
    requires k > 0
    ensures (exists s :: Satisfies(UnbrokenConstraints(k) + [SymmetryBreak(k)], s)) <==> k % 4 == 0 || k % 4 == 3
  {
    hide IsUnbroken, UnbrokenConstraints, Satisfies;
    forall s | Satisfies(UnbrokenConstraints(k) + [SymmetryBreak(k)], s)
      ensures k % 4 == 0 || k % 4 == 3
    {
      SatisfiesConcat(UnbrokenConstraints(k), [SymmetryBreak(k)], s);
      UnbrokenMeans(k, s);
      Feasible(k, At(Positions(2 * k), s), At(Solutions(2 * k), s));
    }
    if k % 4 == 0 || k % 4 == 3 {
      var p, q := SolutionExists(k);
      UnbrokenSizes(k, p, q);
      ReversalKeepsSolutions(k, p, q);
      ExactlyOnePasses(k, p, q);
      var forward := q[0] < q[2 * k - 1];
      var s := SolutionFor(k, if forward then p else Mirrored(k, p), if forward then q else Reversed(q));
    }
  }

  lemma SolutionFor(k: nat, p: seq<int>, q: seq<int>) returns (s: Var -> int)
    requires k > 0 && IsUnbroken(k, p, q) && q[0] < q[2 * k - 1]
    ensures Satisfies(UnbrokenConstraints(k) + [SymmetryBreak(k)], s)
    ensures At(Positions(2 * k), s) == p && At(Solutions(2 * k), s) == q
  {
    hide UnbrokenConstraints, Satisfies, IsUnbroken, SymmetryBreak;
    assert |p| == |q| == 2 * k by { UnbrokenSizes(k, p, q); }
    s := (v: Var) => match v
      case Position(i) => if i < 2 * k then p[i] else 0
      case Solution(i) => if i < 2 * k then q[i] else 0;
    assert At(Positions(2 * k), s) == p && At(Solutions(2 * k), s) == q;
    UnbrokenMeans(k, s);
    BreakMeans(k, s);
    SatisfiesConcat(UnbrokenConstraints(k), [SymmetryBreak(k)], s);
  }

  lemma UnbrokenSizes(k: nat, p: seq<int>, q: seq<int>)
    requires IsUnbroken(k, p, q)
    ensures |p| == |q| == 2 * k
  {}

  lemma BreakMeans(k: nat, s: Var -> int)
    requires k > 0
    ensures Satisfies([SymmetryBreak(k)], s) <==> (var q := At(Solutions(2 * k), s); q[0] < q[2 * k - 1])
  {
    SatisfiesOne(SymmetryBreak(k), s);
  }

  /** The posted constraints, spelled out: the first and the second places of the numbers 1..k, and the sequence. */
  lemma LangfordInFull(k: nat, s: Var -> int)
    requires k > 0
    ensures var p, q := At(Positions(2 * k), s), At(Solutions(2 * k), s);
      var first, second := p[..k], p[k..];
      Satisfies(UnbrokenConstraints(k) + [SymmetryBreak(k)], s) <==>
        && InRange(p, 0, 2 * k) && InRange(q, 1, k + 1) && Distinct(p)
        && (forall j :: 0 <= j < k ==> second[j] == first[j] + j + 2)
        && (forall j :: 0 <= j < k ==> q[first[j]] == j + 1)
        && (forall j :: 0 <= j < k ==> q[second[j]] == j + 1)
        && q[0] < q[2 * k - 1]
  {
    hide Satisfies, UnbrokenConstraints, SymmetryBreak;
    SatisfiesConcat(UnbrokenConstraints(k), [SymmetryBreak(k)], s);
    UnbrokenMeans(k, s);
    BreakMeans(k, s);
    var p, q := At(Positions(2 * k), s), At(Solutions(2 * k), s);
    if InRange(p, 0, 2 * k) {
      PlacedInFull(k, p, q);
    }
  }

  lemma PlacedInFull(k: nat, p: seq<int>, q: seq<int>)
    requires |p| == |q| == 2 * k && InRange(p, 0, 2 * k)
    ensures var first, second := p[..k], p[k..];
      (forall i :: 1 <= i <= k ==> IsPlaced(k, p, q, i)) <==>
        && (forall j :: 0 <= j < k ==> second[j] == first[j] + j + 2)
        && (forall j :: 0 <= j < k ==> q[first[j]] == j + 1)
        && (forall j :: 0 <= j < k ==> q[second[j]] == j + 1)
  {
    var first, second := p[..k], p[k..];
    if forall i :: 1 <= i <= k ==> IsPlaced(k, p, q, i) {
      forall j | 0 <= j < k
        ensures second[j] == first[j] + j + 2 && q[first[j]] == j + 1 && q[second[j]] == j + 1
      {
        assert IsPlaced(k, p, q, j + 1);
      }
    } else {
      var i :| 1 <= i <= k && !IsPlaced(k, p, q, i);
      assert p[i + k - 1] == second[i - 1] && p[i - 1] == first[i - 1];
    }
  }
}
