/** The regular constraint in its other two forms: a table of allowed tuples, and a list of transition tuples. */
module NonogramTable {
  import opened Cp
  import opened NonogramAutomaton
  import opened NonogramRegular

  // ---------- Allowed tuples ----------

  /** The first j tuples of state i: the state, the symbol counted from 0, and the next state. */
  function TupleRow(d: seq<seq<int>>, sMax: nat, i: nat, j: nat): seq<seq<int>>
    requires i <= |d| && j <= sMax && forall k :: 0 <= k < |d| ==> |d[k]| == sMax
  {
    if j == 0 then [] else TupleRow(d, sMax, i, j - 1) + [[i, j - 1, ExtraRow(d, sMax, i)[j - 1]]]
  }

  function TupleTable(d: seq<seq<int>>, sMax: nat, n: nat): seq<seq<int>>
    requires n <= |d| + 1 && forall k :: 0 <= k < |d| ==> |d[k]| == sMax
  {
    if n == 0 then [] else TupleTable(d, sMax, n - 1) + TupleRow(d, sMax, n - 1, sMax)
  }

  /** The state before, the symbol and the state after form one of the tuples. */
  function TupleStep(tuples: seq<seq<int>>): (Var, Var, Var) -> Constraint<Var> {
    (before, symbol, after) => AllowedTuples([Var(before), Plus(Var(symbol), Const(-1)), Var(after)], tuples)
  }

  method RegularByTuples(x: seq<Var>, q: nat, sMax: nat, d: seq<seq<int>>, q0: int, f: seq<int>, a: seq<Var>)
      returns (cs: seq<Constraint<Var>>)
    requires |x| > 0 && q > 0 && sMax > 0 && |a| == |x| + 1
    requires |d| == q && forall k :: 0 <= k < q ==> |d[k]| == sMax
    ensures cs == EndConstraints(a, q, q0, f) + StepConstraints(x, a, sMax, TupleStep(TupleTable(d, sMax, q + 1)), |x|)
  {
    var d2: seq<seq<int>> := [];
    for i := 0 to q + 1
      invariant d2 == TupleTable(d, sMax, i)
    {
      ghost var before := d2;
      for j := 0 to sMax
        invariant d2 == before + TupleRow(d, sMax, i, j)
      {
        if i == 0 {
          d2 := d2 + [[0, j, 0]];
        } else {
          d2 := d2 + [[i, j, d[i - 1][j]]];
        }
      }
    }
    cs := EndConstraints(a, q, q0, f);
    var posted: seq<Constraint<Var>> := [];
    for i := 0 to |x|
      invariant posted == StepConstraints(x, a, sMax, TupleStep(TupleTable(d, sMax, q + 1)), i)
    {
      posted := posted + [Compare(Const(1), LessOrEqual, Var(x[i])), Compare(Var(x[i]), LessOrEqual, Const(sMax)),
        AllowedTuples([Var(a[i]), Plus(Var(x[i]), Const(-1)), Var(a[i + 1])], d2)];
    }
    cs := cs + posted;
  }

  lemma TupleRowHas(d: seq<seq<int>>, i: nat, t: seq<int>)
    requires i <= |d| && forall k :: 0 <= k < |d| ==> |d[k]| == 2
    ensures t in TupleRow(d, 2, i, 2) <==>
              |t| == 3 && t[0] == i && 0 <= t[1] < 2 && t[2] == ExtraRow(d, 2, i)[t[1]]
  {
    var row := ExtraRow(d, 2, i);
    assert TupleRow(d, 2, i, 1) == [[i, 0, row[0]]];
    assert TupleRow(d, 2, i, 2) == [[i, 0, row[0]], [i, 1, row[1]]];
    assert t == [i, 0, row[0]] || t == [i, 1, row[1]] <==>
      |t| == 3 && t[0] == i && 0 <= t[1] < 2 && t[2] == row[t[1]];
  }

  lemma {:induction false} TupleTableHas(d: seq<seq<int>>, n: nat, t: seq<int>)
    requires n <= |d| + 1 && forall k :: 0 <= k < |d| ==> |d[k]| == 2
    ensures t in TupleTable(d, 2, n) <==>
              |t| == 3 && 0 <= t[0] < n && 0 <= t[1] < 2 && t[2] == ExtraRow(d, 2, t[0])[t[1]]
  {
    hide TupleRow, ExtraRow;
    if n > 0 {
      TupleTableHas(d, n - 1, t);
      TupleRowHas(d, n - 1, t);
    }
  }

  /** The tuples allow exactly the moves of the automaton. */
  lemma TupleStepMeaning(bits: seq<int>, s: Var -> int)
    requires bits != []
    ensures StepMeaning(bits, TupleStep(TupleTable(Matrix(bits), 2, |bits| + 1)), s)
  {
    hide Holds, Next, TupleTable, TupleStep;
    var step := TupleStep(TupleTable(Matrix(bits), 2, |bits| + 1));
    forall u, v, w {:trigger step(u, v, w)} | 0 <= s(u) <= |bits| + 1 && 1 <= s(v) <= 2
      ensures Holds(step(u, v, w), s) <==> s(u) <= |bits| && s(w) == Next(bits, s(u), s(v) - 1)
    {
      TupleStepAt(bits, u, v, w, s);
    }
  }

  lemma TupleStepAt(bits: seq<int>, u: Var, v: Var, w: Var, s: Var -> int)
    requires bits != [] && 0 <= s(u) <= |bits| + 1 && 1 <= s(v) <= 2
    ensures Holds(TupleStep(TupleTable(Matrix(bits), 2, |bits| + 1))(u, v, w), s) <==>
              s(u) <= |bits| && s(w) == Next(bits, s(u), s(v) - 1)
  {
    hide TupleTable, Holds;
    TupleHolds(TupleTable(Matrix(bits), 2, |bits| + 1), u, v, w, s);
    TupleTableHas(Matrix(bits), |bits| + 1, [s(u), s(v) - 1, s(w)]);
  }

  lemma TupleHolds(tuples: seq<seq<int>>, u: Var, v: Var, w: Var, s: Var -> int)
    ensures Holds(TupleStep(tuples)(u, v, w), s) <==> [s(u), s(v) - 1, s(w)] in tuples
  {
    var es := [Var(u), Plus(Var(v), Const(-1)), Var(w)];
    assert Eval(Plus(Var(v), Const(-1)), s) == s(v) - 1;
    assert Values(es, s) == [s(u), s(v) - 1, s(w)];
  }

  method CheckRuleByTuples(rules: seq<int>, y: seq<Var>, line: nat) returns (cs: seq<Constraint<Var>>)
    requires |y| > 0
    ensures cs == TupleRuleConstraints(rules, y, line)
  {
    var rulesTmp := CleanRule(rules);
    var transitionFn := MakeTransitionMatrix(rulesTmp);
    cs := RegularByTuples(y, |transitionFn|, 2, transitionFn, 1, [|transitionFn|], LineStates(line, |y|));
  }

  function TupleRuleConstraints(rules: seq<int>, y: seq<Var>, line: nat): seq<Constraint<Var>> {
    var bits := StateBits(Clue(rules));
    LineConstraints(bits, y, LineStates(line, |y|), TupleStep(TupleTable(Matrix(bits), 2, |bits| + 1)))
  }

  /** Table and element form of a rule have the same solutions, state variables included. */
  lemma TupleRuleIsRule(rules: seq<int>, y: seq<Var>, line: nat, s: Var -> int)
    ensures Satisfies(TupleRuleConstraints(rules, y, line), s) <==> Satisfies(RuleConstraints(rules, y, line), s)
  {
    hide Satisfies, FlatTable, TupleTable, IsRun, LineConstraints;
    var bits, a := StateBits(Clue(rules)), LineStates(line, |y|);
    ElementStepMeaning(bits, s);
    LineMeans(bits, y, a, ElementStep(FlatTable(Matrix(bits), 2, |bits| + 1), 2), s);
    TupleStepMeaning(bits, s);
    LineMeans(bits, y, a, TupleStep(TupleTable(Matrix(bits), 2, |bits| + 1)), s);
  }

  // ---------- Transition tuples ----------

  /** The moves of the automaton that neither fail nor leave the table of states. */
  ghost predicate IsMove(bits: seq<int>, t: (int, int, int)) {
    1 <= t.0 <= |bits| && 0 <= t.1 <= 1 && t.2 == Next(bits, t.0, t.1) && 1 <= t.2 <= |bits|
  }

  method MakeTransitionTuples(pattern: seq<nat>) returns (tuples: seq<(int, int, int)>, last: nat)
    requires AllPositive(pattern)
    ensures last == |StateBits(pattern)|
    ensures forall t :: t in tuples <==> IsMove(StateBits(pattern), t)
  {
    hide Bits, Sums.Sum;
    ghost var bits := StateBits(pattern);
    var numStates := |pattern| + Sums.Sum(pattern);
    BitsLength(pattern);
    FirstGap(pattern);
    tuples := [];
    if numStates == 0 {
      tuples := tuples + [(1, 0, 1)];
      return tuples, 1;
    }
    var tmp := FillBits(pattern);
    LastBit(pattern);
    for i := 0 to numStates
      invariant forall t :: t in tuples <==>
        IsMove(bits, t) && t.0 <= i && (t.0 == numStates ==> bits[numStates - 1] == 0)
    {
      var state := i + 1;
      if tmp[i] == 0 {
        tuples := tuples + [(state, 0, state)];
        tuples := tuples + [(state, 1, state + 1)];
      } else if i < numStates - 1 {
        if tmp[i + 1] == 1 {
          tuples := tuples + [(state, 1, state + 1)];
        } else {
          tuples := tuples + [(state, 0, state + 1)];
        }
      }
    }
    tuples := tuples + [(numStates, 0, numStates)];
    last := numStates;
  }

  /** The bits followed by one more 0. */
  method FillBits(pattern: seq<nat>) returns (tmp: seq<int>)
    ensures tmp == Bits(pattern) + [0]
  {
    tmp := [0];
    for patternIndex := 0 to |pattern|
      invariant tmp == Bits(pattern[..patternIndex]) + [0]
    {
      assert pattern[..patternIndex + 1][..patternIndex] == pattern[..patternIndex];
      tmp := tmp + Ones(pattern[patternIndex]);
      tmp := tmp + [0];
    }
    assert pattern[..|pattern|] == pattern;
  }

  /** Bits are 0 or 1, and the bits of a clue end in a filled block. */
  lemma LastBit(pattern: seq<nat>)
    requires AllPositive(pattern) && pattern != []
    ensures Bits(pattern) != [] && Bits(pattern)[|Bits(pattern)| - 1] == 1
    ensures forall i :: 0 <= i < |Bits(pattern)| ==> Bits(pattern)[i] == 0 || Bits(pattern)[i] == 1
  {
    BitsAreBinary(pattern);
  }

  lemma {:induction false} BitsAreBinary(pattern: seq<nat>)
    ensures forall i :: 0 <= i < |Bits(pattern)| ==> Bits(pattern)[i] == 0 || Bits(pattern)[i] == 1
  {
    if pattern != [] {
      BitsAreBinary(pattern[..|pattern| - 1]);
    }
  }

  method CheckRuleByTransitions(rules: seq<int>, y: seq<Var>) returns (cs: seq<Constraint<Var>>)
    requires |y| > 0
    ensures |cs| == 1 && cs[0].Transition? && cs[0].es == Vars(y)
    ensures cs[0].initial == 1 && cs[0].finals == [|StateBits(Clue(rules))|]
    ensures forall t :: t in cs[0].steps <==> IsMove(StateBits(Clue(rules)), t)
    ensures forall s: Var -> int :: Satisfies(cs, s) <==> IsLine(At(y, s)) && RunLengths(At(y, s)) == Clue(rules)
  {
    hide IsMove, StateBits, Clue, RunLengths, Holds, Satisfies;
    var cleanedRule := CleanRule(rules);
    var transitionTuples, lastState := MakeTransitionTuples(cleanedRule);
    cs := [Transition(Vars(y), transitionTuples, 1, [lastState])];
    forall s: Var -> int
      ensures Satisfies(cs, s) <==> IsLine(At(y, s)) && RunLengths(At(y, s)) == Clue(rules)
    {
      SatisfiesOne(cs[0], s);
      TransitionAccepts(rules, y, transitionTuples, s);
    }
  }

  /** The transition constraint accepts exactly the lines of blanks and filled cells whose run lengths are the clue. */
  lemma TransitionAccepts(rules: seq<int>, y: seq<Var>, tuples: seq<(int, int, int)>, s: Var -> int)
    requires forall t :: t in tuples <==> IsMove(StateBits(Clue(rules)), t)
    ensures Holds(Transition(Vars(y), tuples, 1, [|StateBits(Clue(rules))|]), s) <==>
              IsLine(At(y, s)) && RunLengths(At(y, s)) == Clue(rules)
  {
    hide Accepts, RunLengths, StateBits, IsMove, IsTrace;
    var bits, w := StateBits(Clue(rules)), At(y, s);
    assert Values(Vars(y), s) == w;
    if IsLine(w) {
      AcceptsRunLengths(Clue(rules), w);
      RunIffAccepts(bits, 1, w);
    }
    forall states
      ensures IsTrace(states, w, tuples, 1, [|bits|]) <==> IsLine(w) && IsRun(bits, 1, states, w)
    {
      TraceIsRun(bits, tuples, states, w);
    }
  }

  lemma TraceIsRun(bits: seq<int>, tuples: seq<(int, int, int)>, states: seq<int>, w: seq<int>)
    requires bits != [] && forall t :: t in tuples <==> IsMove(bits, t)
    ensures IsTrace(states, w, tuples, 1, [|bits|]) <==> IsLine(w) && IsRun(bits, 1, states, w)
  {
    hide Next;
    if IsTrace(states, w, tuples, 1, [|bits|]) {
      forall i | 0 <= i < |w|
        ensures 0 <= w[i] <= 1 && 0 <= states[i] <= |bits| && states[i + 1] == Next(bits, states[i], w[i])
      {
        assert IsMove(bits, (states[i], w[i], states[i + 1]));
      }
    }
    if IsLine(w) && IsRun(bits, 1, states, w) {
      forall i | 0 <= i < |w|
        ensures (states[i], w[i], states[i + 1]) in tuples
      {
        RunAvoidsFailure(bits, states, w, i);
        RunAvoidsFailure(bits, states, w, i + 1);
        assert IsMove(bits, (states[i], w[i], states[i + 1]));
      }
    }
  }

  /** A run that ends in the last state never fails on the way. */
  lemma {:induction false} RunAvoidsFailure(bits: seq<int>, states: seq<int>, w: seq<int>, i: nat)
    requires bits != [] && IsRun(bits, 1, states, w) && i <= |w|
    ensures 1 <= states[i] <= |bits|
    decreases |w| - i
  {
    if i < |w| {
      RunAvoidsFailure(bits, states, w, i + 1);
      assert states[i + 1] == Next(bits, states[i], w[i]);
    }
  }

  // ---------- Any automaton ----------

  lemma {:induction false} TupleRowInFull(d: seq<seq<int>>, sMax: nat, i: nat, n: nat, t: seq<int>)
    requires IsTable(d, sMax) && i <= |d| && n <= sMax
    ensures t in TupleRow(d, sMax, i, n) <==>
      |t| == 3 && t[0] == i && 0 <= t[1] < n && t[2] == ExtraRow(d, sMax, i)[t[1]]
  {
    hide ExtraRow;
    if n > 0 {
      TupleRowInFull(d, sMax, i, n - 1, t);
      var last := [i, n - 1, ExtraRow(d, sMax, i)[n - 1]];
      assert t == last <==> |t| == 3 && t[0] == i && t[1] == n - 1 && t[2] == last[2];
    }
  }

  lemma {:induction false} TupleTableInFull(d: seq<seq<int>>, sMax: nat, n: nat, t: seq<int>)
    requires IsTable(d, sMax) && n <= |d| + 1
    ensures t in TupleTable(d, sMax, n) <==>
      |t| == 3 && 0 <= t[0] < n && 0 <= t[1] < sMax && t[2] == ExtraRow(d, sMax, t[0])[t[1]]
  {
    hide TupleRow, ExtraRow;
    if n > 0 {
      TupleTableInFull(d, sMax, n - 1, t);
      TupleRowInFull(d, sMax, n - 1, sMax, t);
    }
  }

  lemma TuplesByTable(d: seq<seq<int>>, sMax: nat, s: Var -> int)
    requires IsTable(d, sMax)
    ensures StepsByTable(d, sMax, TupleStep(TupleTable(d, sMax, |d| + 1)), s)
  {
    hide Holds, TupleTable, TupleStep;
    var tuples := TupleTable(d, sMax, |d| + 1);
    var step := TupleStep(tuples);
    forall u, v, w {:trigger step(u, v, w)} | 1 <= s(v) <= sMax
      ensures Holds(step(u, v, w), s) <==> Moves(d, sMax, s(u), s(v), s(w))
    {
      TupleHolds(tuples, u, v, w, s);
      TupleTableInFull(d, sMax, |d| + 1, [s(u), s(v) - 1, s(w)]);
    }
  }

  /** The allowed-tuples form in full, for any automaton: the same as the element form. */
  lemma RegularByTuplesInFull(x: seq<Var>, sMax: nat, d: seq<seq<int>>, q0: int, f: seq<int>, a: seq<Var>,
      s: Var -> int)
    requires IsTable(d, sMax) && |a| == |x| + 1
    ensures Satisfies(EndConstraints(a, |d|, q0, f) +
                StepConstraints(x, a, sMax, TupleStep(TupleTable(d, sMax, |d| + 1)), |x|), s) <==>
      && (forall i :: 0 <= i < |a| ==> 0 <= s(a[i]) <= |d| + 1) && s(a[0]) == q0 && s(a[|x|]) in f
      && (forall i :: 0 <= i < |x| ==> Moves(d, sMax, s(a[i]), s(x[i]), s(a[i + 1])))
  {
    hide Satisfies, EndConstraints, StepConstraints, StepsByTable, Moves, TupleStep, TupleTable;
    var step := TupleStep(TupleTable(d, sMax, |d| + 1));
    SatisfiesConcat(EndConstraints(a, |d|, q0, f), StepConstraints(x, a, sMax, step, |x|), s);
    TuplesByTable(d, sMax, s);
    StepsInFull(d, sMax, x, a, step, |x|, s);
    EndsInFull(a, |d|, q0, f, s);
  }
}
