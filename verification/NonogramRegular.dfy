/** The transition matrix of a clue and the regular constraint that unrolls it, in both posted forms. */
module NonogramRegular {
  import opened Cp
  import opened NonogramAutomaton
  import opened Sums

  /** Cell (i, j) of the board, and the state after i cells of a line. */
  datatype Var = Cell(i: nat, j: nat) | State(line: nat, k: nat)

  /** The numbers of a clue that count: zeros only pad it. */
  function Clue(rules: seq<int>): (p: seq<nat>)
    ensures AllPositive(p)
  {
    if rules == [] then []
    else Clue(rules[..|rules| - 1]) + (if rules[|rules| - 1] > 0 then [rules[|rules| - 1]] else [])
  }

  ghost predicate IsIncreasing(pos: seq<int>) {
    forall j, k :: 0 <= j < k < |pos| ==> pos[j] < pos[k]
  }

  /** pos holds the indices of the positive numbers of the clue, and no others. */
  ghost predicate ArePlaces(rules: seq<int>, pos: seq<int>) {
    && IsIncreasing(pos)
    && (forall k :: 0 <= k < |pos| ==> 0 <= pos[k] < |rules|)
    && (forall i :: 0 <= i < |rules| ==> (i in pos <==> rules[i] > 0))
  }

  /** kept holds the positive numbers of the clue, at the indices pos, in order. */
  ghost predicate IsKept(rules: seq<int>, pos: seq<int>, kept: seq<int>) {
    && ArePlaces(rules, pos) && |pos| == |kept|
    && forall k :: 0 <= k < |pos| ==> 0 <= pos[k] < |rules| && kept[k] == rules[pos[k]]
  }

  lemma PlacesAppend(rules: seq<int>, pos: seq<int>, x: int)
    requires ArePlaces(rules, pos)
    ensures ArePlaces(rules + [x], if x > 0 then pos + [|rules|] else pos)
  {
    var n := |rules|;
    var pos' := if x > 0 then pos + [n] else pos;
    forall i | 0 <= i <= n
      ensures i in pos' <==> (rules + [x])[i] > 0
    {
      assert i in pos' <==> i in pos || (x > 0 && i == n);
      assert n !in pos;
    }
  }

  lemma {:induction false} ClueIsKept(rules: seq<int>) returns (pos: seq<int>)
    ensures IsKept(rules, pos, Clue(rules))
  {
    hide ArePlaces;
    if rules == [] {
      pos := [];
      assert ArePlaces(rules, pos) by { NoPlaces(rules); }
    } else {
      var n := |rules| - 1;
      var before := ClueIsKept(rules[..n]);
      pos := if rules[n] > 0 then before + [n] else before;
      PlacesAppend(rules[..n], before, rules[n]);
      assert rules == rules[..n] + [rules[n]];
    }
  }

  lemma NoPlaces(rules: seq<int>)
    requires rules == []
    ensures forall pos :: ArePlaces(rules, pos) <==> pos == []
  {
    forall pos | pos != []
      ensures !ArePlaces(rules, pos)
    {
      assert 0 <= pos[0] < |rules| ==> false;
    }
  }

  /** Without the last number of the clue, and without its index if it is positive. */
  lemma PlacesBefore(rules: seq<int>, pos: seq<int>)
    requires rules != [] && ArePlaces(rules, pos)
    ensures var n := |rules| - 1;
      if rules[n] > 0 then pos != [] && pos[|pos| - 1] == n && ArePlaces(rules[..n], pos[..|pos| - 1])
      else ArePlaces(rules[..n], pos)
    ensures forall i :: 0 <= i < |pos| ==> pos[i] < |rules| - 1 || (i == |pos| - 1 && rules[|rules| - 1] > 0)
  {
    var n := |rules| - 1;
    if rules[n] > 0 {
      LastPlace(rules, pos);
      forall i | 0 <= i < n
        ensures i in pos[..|pos| - 1] <==> rules[..n][i] > 0
      {
        assert i in pos <==> i in pos[..|pos| - 1] || i == pos[|pos| - 1];
      }
    } else {
      forall j | 0 <= j < |pos|
        ensures pos[j] < n
      {
        assert pos[j] in pos;
      }
    }
  }

  lemma LastPlace(rules: seq<int>, pos: seq<int>)
    requires rules != [] && ArePlaces(rules, pos) && rules[|rules| - 1] > 0
    ensures pos != [] && pos[|pos| - 1] == |rules| - 1
  {
    assert |rules| - 1 in pos;
    var j :| 0 <= j < |pos| && pos[j] == |rules| - 1;
    UpToLast(pos, j);
  }

  lemma UpToLast(pos: seq<int>, j: nat)
    requires IsIncreasing(pos) && j < |pos|
    ensures pos[j] <= pos[|pos| - 1] && (pos[j] == pos[|pos| - 1] ==> j == |pos| - 1)
  {}

  lemma KeptBefore(rules: seq<int>, pos: seq<int>, kept: seq<int>)
    requires rules != [] && IsKept(rules, pos, kept)
    ensures var n, k := |rules| - 1, |kept| - 1;
      if rules[n] > 0 then k >= 0 && |pos| == |kept| && kept[k] == rules[n] && IsKept(rules[..n], pos[..k], kept[..k])
      else IsKept(rules[..n], pos, kept)
  {
    hide ArePlaces;
    PlacesBefore(rules, pos);
  }

  /** The clue that counts is the list of the positive numbers in order, and nothing else. */
  lemma {:induction false} KeptIsClue(rules: seq<int>, pos: seq<int>, kept: seq<int>)
    requires IsKept(rules, pos, kept)
    ensures kept == Clue(rules)
  {
    hide IsKept;
    if rules == [] {
      NothingKept(rules, pos, kept);
    } else {
      var n, k := |rules| - 1, |kept| - 1;
      KeptBefore(rules, pos, kept);
      if rules[n] > 0 {
        KeptIsClue(rules[..n], pos[..k], kept[..k]);
      } else {
        KeptIsClue(rules[..n], pos, kept);
      }
    }
  }

  lemma NothingKept(rules: seq<int>, pos: seq<int>, kept: seq<int>)
    requires rules == [] && IsKept(rules, pos, kept)
    ensures kept == []
  {
    NoPlaces(rules);
  }

  function Matrix(bits: seq<int>): seq<seq<int>> {
    seq(|bits|, i requires 0 <= i < |bits| => [Row(bits, i).0, Row(bits, i).1])
  }

  /** Fills the table of states in place, from the clue to one row per state. */
  method MakeTransitionMatrix(pattern: seq<nat>) returns (tMatrix: seq<seq<int>>)
    ensures tMatrix == Matrix(StateBits(pattern))
  {
    ghost var bits := StateBits(pattern);
    var tmp := FillStateBits(pattern);
    var numStates := |tmp|;
    tMatrix := seq(numStates, _ => [0, 0]);
    tMatrix := tMatrix[numStates - 1 := [numStates, 0]];
    for i := 0 to numStates
      invariant |tMatrix| == numStates
      invariant forall k :: 0 <= k < i ==> tMatrix[k] == [Row(bits, k).0, Row(bits, k).1]
      invariant i < numStates ==> tMatrix[numStates - 1] == [numStates, 0]
    {
      if tmp[i] == 0 {
        tMatrix := tMatrix[i := [i + 1, i + 2]];
      } else if i < numStates - 1 {
        if tmp[i + 1] == 1 {
          tMatrix := tMatrix[i := [0, i + 2]];
        } else {
          tMatrix := tMatrix[i := [i + 2, 0]];
        }
      }
    }
  }

  /** The 0/1 form of the clue, written into a list of the right length with a running index. */
  method FillStateBits(pattern: seq<nat>) returns (tmp: seq<int>)
    ensures tmp == StateBits(pattern)
  {
    hide Bits;
    var numStates := |pattern| + Sum(pattern);
    BitsLength(pattern);
    FirstGap(pattern);
    if numStates == 0 {
      numStates := 1;
    }
    tmp := seq(numStates, _ => 0);
    var c := 0;
    tmp := tmp[c := 0];
    for i := 0 to |pattern|
      invariant |tmp| == numStates == |StateBits(pattern)| && 0 <= c < numStates
      invariant c == if i < |pattern| then Gap(pattern, i) else numStates - 1
      invariant forall k :: 0 <= k <= c ==> tmp[k] == StateBits(pattern)[k]
    {
      BitsAt(pattern, i, 0);
      for j := 0 to pattern[i]
        invariant |tmp| == numStates && c == Gap(pattern, i) + j < numStates
        invariant forall k :: 0 <= k <= c ==> tmp[k] == StateBits(pattern)[k]
      {
        BitsAt(pattern, i, j + 1);
        c := c + 1;
        tmp := tmp[c := 1];
      }
      if i + 1 < |pattern| {
        BitsAt(pattern, i + 1, 0);
      } else {
        GapOfAll(pattern);
      }
      if c < numStates - 1 {
        c := c + 1;
        tmp := tmp[c := 0];
      }
    }
  }

  lemma FirstGap(pattern: seq<nat>)
    ensures |StateBits(pattern)| == if pattern == [] then 1 else |Bits(pattern)|
    ensures Gap(pattern, 0) == 0 && StateBits(pattern)[0] == 0
    ensures pattern == [] ==> Sum(pattern) == 0
  {
    assert pattern[..0] == [];
    if pattern != [] {
      BitsAt(pattern, 0, 0);
    }
  }

  // ---------- The regular constraint ----------

  /** Row i of the table with the extra failing state 0 in front. */
  function ExtraRow(d: seq<seq<int>>, sMax: nat, i: nat): (row: seq<int>)
    requires i <= |d| && forall k :: 0 <= k < |d| ==> |d[k]| == sMax
    ensures |row| == sMax
  {
    if i == 0 then seq(sMax, _ => 0) else d[i - 1]
  }

  function FlatTable(d: seq<seq<int>>, sMax: nat, n: nat): seq<int>
    requires n <= |d| + 1 && forall k :: 0 <= k < |d| ==> |d[k]| == sMax
  {
    if n == 0 then [] else FlatTable(d, sMax, n - 1) + ExtraRow(d, sMax, n - 1)
  }

  function Consts(values: seq<int>): (es: seq<Expr<Var>>)
    ensures |es| == |values| && forall i :: 0 <= i < |es| ==> es[i] == Const(values[i])
  {
    seq(|values|, i requires 0 <= i < |values| => Const(values[i]))
  }

  /** The range of the symbol at position i, and the constraint that determines the state after it. */
  function StepConstraints(x: seq<Var>, a: seq<Var>, sMax: nat, step: (Var, Var, Var) -> Constraint<Var>,
      n: nat): seq<Constraint<Var>>
    requires n <= |x| && |a| == |x| + 1
  {
    if n == 0 then []
    else StepConstraints(x, a, sMax, step, n - 1) +
         [Compare(Const(1), LessOrEqual, Var(x[n - 1])), Compare(Var(x[n - 1]), LessOrEqual, Const(sMax)),
          step(a[n - 1], x[n - 1], a[n])]
  }

  /** The constraints of a run that are not about a single step. */
  function EndConstraints(a: seq<Var>, q: nat, q0: int, f: seq<int>): seq<Constraint<Var>>
    requires |a| > 0
  {
    Domains(a, 0, q + 1) + [MemberOf(Var(a[|a| - 1]), f), Compare(Var(a[0]), Eq, Const(q0))]
  }

  /** The state after reads the flattened table at the position of the state before and the symbol. */
  function ElementStep(flat: seq<int>, sMax: nat): (Var, Var, Var) -> Constraint<Var> {
    (before, symbol, after) =>
      ElementOf(Consts(flat), Plus(Times(Var(before), Const(sMax)), Plus(Var(symbol), Const(-1))), Var(after))
  }

  /** Posts that a, started in q0 and driven by x over the table d, ends in a state of f. */
  method Regular(x: seq<Var>, q: nat, sMax: nat, d: seq<seq<int>>, q0: int, f: seq<int>, a: seq<Var>)
      returns (cs: seq<Constraint<Var>>)
    requires |x| > 0 && q > 0 && sMax > 0 && |a| == |x| + 1
    requires |d| == q && forall k :: 0 <= k < q ==> |d[k]| == sMax
    ensures cs == EndConstraints(a, q, q0, f) +
      StepConstraints(x, a, sMax, ElementStep(FlatTable(d, sMax, q + 1), sMax), |x|)
  {
    var d2: seq<seq<int>> := [];
    for i := 0 to q + 1
      invariant |d2| == i && forall k :: 0 <= k < i ==> d2[k] == ExtraRow(d, sMax, k)
    {
      var row: seq<int> := [];
      for j := 0 to sMax
        invariant row == ExtraRow(d, sMax, i)[..j]
      {
        if i == 0 {
          row := row + [0];
        } else {
          row := row + [d[i - 1][j]];
        }
      }
      assert ExtraRow(d, sMax, i)[..sMax] == ExtraRow(d, sMax, i);
      d2 := d2 + [row];
    }
    var flat: seq<int> := [];
    for i := 0 to q + 1
      invariant flat == FlatTable(d, sMax, i)
    {
      flat := flat + d2[i];
    }
    cs := EndConstraints(a, q, q0, f);
    var posted: seq<Constraint<Var>> := [];
    for i := 0 to |x|
      invariant posted == StepConstraints(x, a, sMax, ElementStep(FlatTable(d, sMax, q + 1), sMax), i)
    {
      posted := posted + [Compare(Const(1), LessOrEqual, Var(x[i])), Compare(Var(x[i]), LessOrEqual, Const(sMax)),
        ElementOf(Consts(flat), Plus(Times(Var(a[i]), Const(sMax)), Plus(Var(x[i]), Const(-1))), Var(a[i + 1]))];
    }
    cs := cs + posted;
  }

  // ---------- What the posted constraints mean ----------

  /** states is the run of the automaton over w, from state 1 to the last state. */
  ghost predicate IsRun(bits: seq<int>, start: int, states: seq<int>, w: seq<int>) {
    && |states| == |w| + 1 && states[0] == start && states[|w|] == |bits|
    && forall i :: 0 <= i < |w| ==> 0 <= states[i] <= |bits| && states[i + 1] == Next(bits, states[i], w[i])
  }

  lemma {:induction false} RunIffAccepts(bits: seq<int>, start: int, w: seq<int>)
    ensures Accepts(bits, start, w) <==> exists states :: IsRun(bits, start, states, w)
    decreases |w|
  {
    if w == [] {
      assert IsRun(bits, start, [start], w) <==> start == |bits|;
    } else if 0 <= start <= |bits| {
      var next := Next(bits, start, w[0]);
      RunIffAccepts(bits, next, w[1..]);
      if Accepts(bits, start, w) {
        var rest :| IsRun(bits, next, rest, w[1..]);
        var states := [start] + rest;
        forall i | 0 <= i < |w|
          ensures 0 <= states[i] <= |bits| && states[i + 1] == Next(bits, states[i], w[i])
        {
          assert i > 0 ==> states[i] == rest[i - 1] && w[i] == w[1..][i - 1];
        }
        assert IsRun(bits, start, states, w);
      }
      forall states | IsRun(bits, start, states, w)
        ensures Accepts(bits, start, w)
      {
        assert states[0 + 1] == next;
        assert IsRun(bits, next, states[1..], w[1..]);
      }
    }
  }

  /** The cells that symbols 1 and 2 stand for. */
  function Cells(symbols: seq<int>): (w: seq<int>)
    ensures |w| == |symbols| && forall i :: 0 <= i < |w| ==> w[i] == symbols[i] - 1
  {
    seq(|symbols|, i requires 0 <= i < |symbols| => symbols[i] - 1)
  }

  ghost predicate IsSymbols(symbols: seq<int>) {
    forall i :: 0 <= i < |symbols| ==> 1 <= symbols[i] <= 2
  }

  /** step relates the states around a symbol as the automaton does. */
  ghost predicate StepMeaning(bits: seq<int>, step: (Var, Var, Var) -> Constraint<Var>, s: Var -> int) {
    forall u, v, w {:trigger step(u, v, w)} :: 0 <= s(u) <= |bits| + 1 && 1 <= s(v) <= 2 ==>
      (Holds(step(u, v, w), s) <==> s(u) <= |bits| && s(w) == Next(bits, s(u), s(v) - 1))
  }

  lemma {:induction false} FlatTableAt(d: seq<seq<int>>, n: nat, i: nat, j: nat)
    requires n <= |d| + 1 && i < n && j < 2 && forall k :: 0 <= k < |d| ==> |d[k]| == 2
    ensures |FlatTable(d, 2, n)| == 2 * n
    ensures FlatTable(d, 2, n)[2 * i + j] == ExtraRow(d, 2, i)[j]
  {
    if i < n - 1 {
      FlatTableAt(d, n - 1, i, j);
    } else if n > 1 {
      FlatTableAt(d, n - 1, 0, 0);
    }
  }

  lemma ElementStepMeaning(bits: seq<int>, s: Var -> int)
    requires bits != []
    ensures StepMeaning(bits, ElementStep(FlatTable(Matrix(bits), 2, |bits| + 1), 2), s)
  {
    hide FlatTable, Holds, Next, ElementStep;
    var step := ElementStep(FlatTable(Matrix(bits), 2, |bits| + 1), 2);
    forall u, v, w {:trigger step(u, v, w)} | 0 <= s(u) <= |bits| + 1 && 1 <= s(v) <= 2
      ensures Holds(step(u, v, w), s) <==> s(u) <= |bits| && s(w) == Next(bits, s(u), s(v) - 1)
    {
      ConstElement(FlatTable(Matrix(bits), 2, |bits| + 1), u, v, w, s);
      TableIsNext(bits, s(u), s(v) - 1);
    }
  }

  lemma ConstElement(flat: seq<int>, u: Var, v: Var, w: Var, s: Var -> int)
    ensures Holds(ElementStep(flat, 2)(u, v, w), s) <==>
              0 <= 2 * s(u) + s(v) - 1 < |flat| && flat[2 * s(u) + s(v) - 1] == s(w)
  {
    var index := Plus(Times(Var(u), Const(2)), Plus(Var(v), Const(-1)));
    assert Eval(Times(Var(u), Const(2)), s) == s(u) * 2;
    assert Eval(Plus(Var(v), Const(-1)), s) == s(v) - 1;
    assert Eval(index, s) == 2 * s(u) + s(v) - 1;
  }

  /** The flattened table holds the next states; beyond the last state there is no entry. */
  lemma TableIsNext(bits: seq<int>, state: int, cell: int)
    requires bits != [] && 0 <= state <= |bits| + 1 && 0 <= cell <= 1
    ensures var flat := FlatTable(Matrix(bits), 2, |bits| + 1);
            && (state <= |bits| <==> 2 * state + cell < |flat|)
            && (state <= |bits| ==> flat[2 * state + cell] == Next(bits, state, cell))
  {
    hide FlatTable;
    FlatTableAt(Matrix(bits), |bits| + 1, 0, 0);
    if state <= |bits| {
      FlatTableAt(Matrix(bits), |bits| + 1, state, cell);
    }
  }

  /** All the steps before n are made as the automaton makes them. */
  ghost predicate StepsOk(bits: seq<int>, x: seq<Var>, a: seq<Var>, n: nat, s: Var -> int)
    requires n <= |x| && |a| == |x| + 1
    requires forall i :: 0 <= i < |a| ==> 0 <= s(a[i]) <= |bits| + 1
  {
    forall i :: 0 <= i < n ==> 1 <= s(x[i]) <= 2 && s(a[i]) <= |bits| && s(a[i + 1]) == Next(bits, s(a[i]), s(x[i]) - 1)
  }

  lemma {:induction false} StepsMean(bits: seq<int>, x: seq<Var>, a: seq<Var>, step: (Var, Var,
      Var) -> Constraint<Var>, n: nat, s: Var -> int)
    requires n <= |x| && |a| == |x| + 1 && StepMeaning(bits, step, s)
    requires forall i :: 0 <= i < |a| ==> 0 <= s(a[i]) <= |bits| + 1
    ensures Satisfies(StepConstraints(x, a, 2, step, n), s) <==> StepsOk(bits, x, a, n, s)
  {
    if n == 0 {
      assert StepConstraints(x, a, 2, step, n) == [];
    } else {
      hide Holds, Satisfies, Next;
      StepsMean(bits, x, a, step, n - 1, s);
      LastStepMeans(bits, x, a, step, n, s);
    }
  }

  lemma LastStepMeans(bits: seq<int>, x: seq<Var>, a: seq<Var>, step: (Var, Var, Var) -> Constraint<Var>, n: nat,
      s: Var -> int)
    requires 0 < n <= |x| && |a| == |x| + 1 && StepMeaning(bits, step, s)
    requires forall i :: 0 <= i < |a| ==> 0 <= s(a[i]) <= |bits| + 1
    ensures Satisfies(StepConstraints(x, a, 2, step, n), s) <==>
              && Satisfies(StepConstraints(x, a, 2, step, n - 1), s)
              && 1 <= s(x[n - 1]) <= 2 && s(a[n - 1]) <= |bits| && s(a[n]) == Next(bits, s(a[n - 1]), s(x[n - 1]) - 1)
  {
    hide Holds, Satisfies, Next;
    var before := StepConstraints(x, a, 2, step, n - 1);
    var c0, c1 := Compare(Const(1), LessOrEqual, Var(x[n - 1])), Compare(Var(x[n - 1]), LessOrEqual, Const(2));
    var c2 := step(a[n - 1], x[n - 1], a[n]);
    SatisfiesConcat(before, [c0, c1, c2], s);
    SatisfiesThree([c0, c1, c2], s);
    SymbolRange(x[n - 1], s);
  }

  lemma SymbolRange(v: Var, s: Var -> int)
    ensures Holds(Compare(Const(1), LessOrEqual, Var(v)), s) <==> 1 <= s(v)
    ensures Holds(Compare(Var(v), LessOrEqual, Const(2)), s) <==> s(v) <= 2
  {}

  /** The automaton of the bits, unrolled over x with the given form of step. */
  function LineConstraints(bits: seq<int>, x: seq<Var>, a: seq<Var>, step: (Var, Var,
      Var) -> Constraint<Var>): seq<Constraint<Var>>
    requires |a| == |x| + 1
  {
    EndConstraints(a, |bits|, 1, [|bits|]) + StepConstraints(x, a, 2, step, |x|)
  }

  /** An assignment satisfies the constraints of a line exactly when a is the run of the automaton over x. */
  lemma LineMeans(bits: seq<int>, x: seq<Var>, a: seq<Var>, step: (Var, Var, Var) -> Constraint<Var>, s: Var -> int)
    requires |a| == |x| + 1 && StepMeaning(bits, step, s)
    ensures Satisfies(LineConstraints(bits, x, a, step), s) <==>
              && IsSymbols(At(x, s))
              && (forall i :: 0 <= i < |a| ==> 0 <= s(a[i]) <= |bits| + 1)
              && IsRun(bits, 1, At(a, s), Cells(At(x, s)))
  {
    hide Holds, Satisfies, StepMeaning, Next;
    var ends := [MemberOf(Var(a[|a| - 1]), [|bits|]), Compare(Var(a[0]), Eq, Const(1))];
    SatisfiesConcat(Domains(a, 0, |bits| + 1) + ends, StepConstraints(x, a, 2, step, |x|), s);
    SatisfiesConcat(Domains(a, 0, |bits| + 1), ends, s);
    DomainsHold(a, 0, |bits| + 1, s);
    EndsMean(a[0], a[|a| - 1], |bits|, s);
    if forall i :: 0 <= i < |a| ==> 0 <= s(a[i]) <= |bits| + 1 {
      StepsMean(bits, x, a, step, |x|, s);
      StepsAreRun(bits, x, a, s);
    }
  }

  lemma EndsMean(first: Var, last: Var, n: int, s: Var -> int)
    ensures Satisfies([MemberOf(Var(last), [n]), Compare(Var(first), Eq, Const(1))], s) <==>
      s(last) == n && s(first) == 1
  {
    var cs := [MemberOf(Var(last), [n]), Compare(Var(first), Eq, Const(1))];
    assert Satisfies(cs, s) ==> Holds(cs[0], s) && Holds(cs[1], s);
  }

  lemma StepsAreRun(bits: seq<int>, x: seq<Var>, a: seq<Var>, s: Var -> int)
    requires |a| == |x| + 1 && forall i :: 0 <= i < |a| ==> 0 <= s(a[i]) <= |bits| + 1
    ensures StepsOk(bits, x, a, |x|, s) && s(a[|x|]) == |bits| && s(a[0]) == 1 <==>
              IsSymbols(At(x, s)) && IsRun(bits, 1, At(a, s), Cells(At(x, s)))
  {
    hide Next;
    var states, w := At(a, s), Cells(At(x, s));
    if IsSymbols(At(x, s)) && IsRun(bits, 1, states, w) {
      forall i | 0 <= i < |x|
        ensures 1 <= s(x[i]) <= 2 && s(a[i]) <= |bits| && s(a[i + 1]) == Next(bits, s(a[i]), s(x[i]) - 1)
      {
        assert At(x, s)[i] == s(x[i]) && w[i] == s(x[i]) - 1;
        assert states[i] == s(a[i]) && states[i + 1] == s(a[i + 1]);
      }
    }
    if StepsOk(bits, x, a, |x|, s) && s(a[|x|]) == |bits| && s(a[0]) == 1 {
      forall i | 0 <= i < |w|
        ensures 0 <= states[i] <= |bits| && states[i + 1] == Next(bits, states[i], w[i])
      {
        assert w[i] == s(x[i]) - 1 && states[i] == s(a[i]) && states[i + 1] == s(a[i + 1]);
      }
    }
  }

  /** The states of a run stay in the range of the state variables. */
  lemma RunInRange(bits: seq<int>, states: seq<int>, w: seq<int>, i: nat)
    requires bits != [] && IsRun(bits, 1, states, w) && i < |states|
    ensures 0 <= states[i] <= |bits| + 1
  {
    if i > 0 {
      assert states[i - 1 + 1] == Next(bits, states[i - 1], w[i - 1]);
    }
  }

  /** The state variables of a line with n cells. */
  function LineStates(line: nat, n: nat): (a: seq<Var>)
    ensures |a| == n + 1 && forall k :: 0 <= k <= n ==> a[k] == State(line, k)
  {
    seq(n + 1, k requires 0 <= k => State(line, k))
  }

  /** The numbers of a clue that are left when zeros are dropped. */
  method CleanRule(rules: seq<int>) returns (rulesTmp: seq<nat>)
    ensures rulesTmp == Clue(rules)
    ensures exists pos :: IsKept(rules, pos, rulesTmp)
  {
    hide IsKept;
    rulesTmp := [];
    for i := 0 to |rules|
      invariant rulesTmp == Clue(rules[..i])
    {
      assert rules[..i + 1][..i] == rules[..i];
      if rules[i] > 0 {
        rulesTmp := rulesTmp + [rules[i]];
      }
    }
    assert rules[..|rules|] == rules;
    ghost var pos := ClueIsKept(rules);
  }

  /** Posts the regular constraint of a clue on the cells y. */
  method CheckRule(rules: seq<int>, y: seq<Var>, line: nat) returns (cs: seq<Constraint<Var>>)
    requires |y| > 0
    ensures cs == RuleConstraints(rules, y, line)
  {
    var rulesTmp := CleanRule(rules);
    var transitionFn := MakeTransitionMatrix(rulesTmp);
    cs := Regular(y, |transitionFn|, 2, transitionFn, 1, [|transitionFn|], LineStates(line, |y|));
  }

  function RuleConstraints(rules: seq<int>, y: seq<Var>, line: nat): seq<Constraint<Var>> {
    var bits := StateBits(Clue(rules));
    LineConstraints(bits, y, LineStates(line, |y|), ElementStep(FlatTable(Matrix(bits), 2, |bits| + 1), 2))
  }

  // ---------- Any automaton ----------

  /** d is a table with sMax columns. */
  predicate IsTable(d: seq<seq<int>>, sMax: nat) {
    forall k :: 0 <= k < |d| ==> |d[k]| == sMax
  }

  /** The move from state to next on the symbol, by the table d: states count from 1, and 0 is the failing state. */
  predicate Moves(d: seq<seq<int>>, sMax: nat, state: int, symbol: int, next: int)
    requires IsTable(d, sMax)
  {
    && 1 <= symbol <= sMax && 0 <= state <= |d|
    && next == if state == 0 then 0 else d[state - 1][symbol - 1]
  }

  /** step is satisfied by the moves of the table, for symbols in range. */
  ghost predicate StepsByTable(d: seq<seq<int>>, sMax: nat, step: (Var, Var, Var) -> Constraint<Var>, s: Var -> int)
    requires IsTable(d, sMax)
  {
    forall u, v, w {:trigger step(u, v, w)} :: 1 <= s(v) <= sMax ==>
      (Holds(step(u, v, w), s) <==> Moves(d, sMax, s(u), s(v), s(w)))
  }

  lemma TimesOrder(a: int, b: int, m: nat)
    requires a <= b
    ensures a * m <= b * m
  {}

  /** Only the states of the table have a place in the flattened one. */
  lemma PlaceInTable(n: nat, sMax: nat, state: int, j: nat)
    requires j < sMax
    ensures 0 <= state * sMax + j < n * sMax <==> 0 <= state < n
  {
    if state < 0 {
      TimesOrder(state, -1, sMax);
    } else if state < n {
      TimesOrder(0, state, sMax);
      TimesOrder(state + 1, n, sMax);
      assert (state + 1) * sMax == state * sMax + sMax;
    } else {
      TimesOrder(n, state, sMax);
    }
  }

  lemma {:induction false} FlatTableLength(d: seq<seq<int>>, sMax: nat, n: nat)
    requires n <= |d| + 1 && IsTable(d, sMax)
    ensures |FlatTable(d, sMax, n)| == n * sMax
  {
    if n > 0 {
      FlatTableLength(d, sMax, n - 1);
      assert n * sMax == (n - 1) * sMax + sMax;
    }
  }

  lemma {:induction false} FlatTableInFull(d: seq<seq<int>>, sMax: nat, n: nat, i: nat, j: nat)
    requires n <= |d| + 1 && IsTable(d, sMax) && i < n && j < sMax
    ensures 0 <= i * sMax + j < |FlatTable(d, sMax, n)|
    ensures FlatTable(d, sMax, n)[i * sMax + j] == if i == 0 then 0 else d[i - 1][j]
  {
    FlatTableLength(d, sMax, n);
    FlatTableLength(d, sMax, n - 1);
    PlaceInTable(n, sMax, i, j);
    PlaceInTable(n - 1, sMax, i, j);
    if i < n - 1 {
      FlatTableInFull(d, sMax, n - 1, i, j);
    }
  }

  lemma ElementByTable(d: seq<seq<int>>, sMax: nat, s: Var -> int)
    requires IsTable(d, sMax)
    ensures StepsByTable(d, sMax, ElementStep(FlatTable(d, sMax, |d| + 1), sMax), s)
  {
    hide Holds, Moves, FlatTable, ElementStep;
    var flat := FlatTable(d, sMax, |d| + 1);
    var step := ElementStep(flat, sMax);
    forall u, v, w {:trigger step(u, v, w)} | 1 <= s(v) <= sMax
      ensures Holds(step(u, v, w), s) <==> Moves(d, sMax, s(u), s(v), s(w))
    {
      ElementAt(d, sMax, u, v, w, s);
    }
  }

  lemma ElementAt(d: seq<seq<int>>, sMax: nat, u: Var, v: Var, w: Var, s: Var -> int)
    requires IsTable(d, sMax) && 1 <= s(v) <= sMax
    ensures Holds(ElementStep(FlatTable(d, sMax, |d| + 1), sMax)(u, v, w), s) <==> Moves(d, sMax, s(u), s(v), s(w))
  {
    hide Holds, FlatTable, ElementStep;
    var flat := FlatTable(d, sMax, |d| + 1);
    FlatTableLength(d, sMax, |d| + 1);
    PlaceInTable(|d| + 1, sMax, s(u), s(v) - 1);
    if 0 <= s(u) <= |d| {
      FlatTableInFull(d, sMax, |d| + 1, s(u), s(v) - 1);
    }
    ElementHolds(flat, sMax, u, v, w, s);
  }

  lemma ElementHolds(flat: seq<int>, sMax: nat, u: Var, v: Var, w: Var, s: Var -> int)
    ensures Holds(ElementStep(flat, sMax)(u, v, w), s) <==>
      (var place := s(u) * sMax + (s(v) - 1); 0 <= place < |flat| && flat[place] == s(w))
  {
    var index := Plus(Times(Var(u), Const(sMax)), Plus(Var(v), Const(-1)));
    assert Eval(Times(Var(u), Const(sMax)), s) == s(u) * sMax;
    assert Eval(Plus(Var(v), Const(-1)), s) == s(v) - 1;
    assert Eval(index, s) == s(u) * sMax + (s(v) - 1);
  }

  lemma SymbolInRange(v: Var, sMax: nat, s: Var -> int)
    ensures Holds(Compare(Const(1), LessOrEqual, Var(v)), s) <==> 1 <= s(v)
    ensures Holds(Compare(Var(v), LessOrEqual, Const(sMax)), s) <==> s(v) <= sMax
  {}

  lemma {:induction false} StepsInFull(d: seq<seq<int>>, sMax: nat, x: seq<Var>, a: seq<Var>,
      step: (Var, Var, Var) -> Constraint<Var>, n: nat, s: Var -> int)
    requires IsTable(d, sMax) && n <= |x| && |a| == |x| + 1 && StepsByTable(d, sMax, step, s)
    ensures Satisfies(StepConstraints(x, a, sMax, step, n), s) <==>
      forall i :: 0 <= i < n ==> Moves(d, sMax, s(a[i]), s(x[i]), s(a[i + 1]))
  {
    hide Holds, Satisfies;
    if n == 0 {
      NothingToSatisfy(s);
    } else {
      StepsInFull(d, sMax, x, a, step, n - 1, s);
      var c0, c1 := Compare(Const(1), LessOrEqual, Var(x[n - 1])), Compare(Var(x[n - 1]), LessOrEqual, Const(sMax));
      var c2 := step(a[n - 1], x[n - 1], a[n]);
      SatisfiesConcat(StepConstraints(x, a, sMax, step, n - 1), [c0, c1, c2], s);
      SatisfiesThree([c0, c1, c2], s);
      SymbolInRange(x[n - 1], sMax, s);
    }
  }

  lemma EndsInFull(a: seq<Var>, q: nat, q0: int, f: seq<int>, s: Var -> int)
    requires |a| > 0
    ensures Satisfies(EndConstraints(a, q, q0, f), s) <==>
      (forall i :: 0 <= i < |a| ==> 0 <= s(a[i]) <= q + 1) && s(a[0]) == q0 && s(a[|a| - 1]) in f
  {
    hide Satisfies, Holds;
    var last, first := MemberOf(Var(a[|a| - 1]), f), Compare(Var(a[0]), Eq, Const(q0));
    assert [last, first] == [last] + [first];
    SatisfiesConcat(Domains(a, 0, q + 1), [last, first], s);
    SatisfiesConcat([last], [first], s);
    SatisfiesOne(last, s);
    SatisfiesOne(first, s);
    DomainsHold(a, 0, q + 1, s);
    FirstAndLast(a[0], a[|a| - 1], q0, f, s);
  }

  lemma FirstAndLast(first: Var, last: Var, q0: int, f: seq<int>, s: Var -> int)
    ensures Holds(MemberOf(Var(last), f), s) <==> s(last) in f
    ensures Holds(Compare(Var(first), Eq, Const(q0)), s) <==> s(first) == q0
  {}

  /** The regular constraint in full, for any automaton: a starts in q0, makes the move of the table on each symbol, and
      ends in a state of f. */
  lemma RegularInFull(x: seq<Var>, sMax: nat, d: seq<seq<int>>, q0: int, f: seq<int>, a: seq<Var>, s: Var -> int)
    requires IsTable(d, sMax) && |a| == |x| + 1
    ensures Satisfies(EndConstraints(a, |d|, q0, f) +
                StepConstraints(x, a, sMax, ElementStep(FlatTable(d, sMax, |d| + 1), sMax), |x|), s) <==>
      && (forall i :: 0 <= i < |a| ==> 0 <= s(a[i]) <= |d| + 1) && s(a[0]) == q0 && s(a[|x|]) in f
      && (forall i :: 0 <= i < |x| ==> Moves(d, sMax, s(a[i]), s(x[i]), s(a[i + 1])))
  {
    hide Satisfies, EndConstraints, StepConstraints, StepsByTable, Moves, ElementStep, FlatTable;
    var step := ElementStep(FlatTable(d, sMax, |d| + 1), sMax);
    SatisfiesConcat(EndConstraints(a, |d|, q0, f), StepConstraints(x, a, sMax, step, |x|), s);
    ElementByTable(d, sMax, s);
    StepsInFull(d, sMax, x, a, step, |x|, s);
    EndsInFull(a, |d|, q0, f, s);
  }
}
