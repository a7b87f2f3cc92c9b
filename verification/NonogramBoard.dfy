/** The whole puzzle: one regular constraint for every row and every column of the board. */
module NonogramBoard {
  import opened Cp
  import opened NonogramAutomaton
  import opened NonogramRegular
  import opened Sums

  function RowCells(i: nat, cols: nat): (y: seq<Var>)
    ensures |y| == cols && forall j :: 0 <= j < cols ==> y[j] == Cell(i, j)
  {
    seq(cols, j requires 0 <= j => Cell(i, j))
  }

  function ColumnCells(rows: nat, j: nat): (y: seq<Var>)
    ensures |y| == rows && forall i :: 0 <= i < rows ==> y[i] == Cell(i, j)
  {
    seq(rows, i requires 0 <= i => Cell(i, j))
  }

  /** The size of a board with its clues; lines are the rows followed by the columns. */
  datatype Puzzle = Puzzle(rows: nat, rowRules: seq<seq<int>>, cols: nat, colRules: seq<seq<int>>) {
    ghost predicate Valid() {
      rows > 0 && cols > 0 && |rowRules| == rows && |colRules| == cols
    }

    function Rules(k: nat): seq<int>
      requires k < |rowRules| + |colRules|
    {
      if k < |rowRules| then rowRules[k] else colRules[k - |rowRules|]
    }

    function Line(k: nat): seq<Var> {
      if k < |rowRules| then RowCells(k, cols) else ColumnCells(rows, k - |rowRules|)
    }

    function Constraints(n: nat): seq<Constraint<Var>>
      requires n <= |rowRules| + |colRules|
    {
      if n == 0 then [] else Constraints(n - 1) + RuleConstraints(Rules(n - 1), Line(n - 1), n - 1)
    }
  }

  /** Posts the rules of all rows, then of all columns. */
  method PostBoard(p: Puzzle) returns (cs: seq<Constraint<Var>>)
    requires p.Valid()
    ensures cs == p.Constraints(p.rows + p.cols)
  {
    hide RuleConstraints;
    cs := [];
    for i := 0 to p.rows
      invariant cs == p.Constraints(i)
    {
      var rule := CheckRule(p.rowRules[i], RowCells(i, p.cols), i);
      cs := cs + rule;
    }
    for j := 0 to p.cols
      invariant cs == p.Constraints(p.rows + j)
    {
      var rule := CheckRule(p.colRules[j], ColumnCells(p.rows, j), p.rows + j);
      cs := cs + rule;
    }
  }

  /** The values of line k on a grid of symbols, with one row of the grid for each row of the board. */
  ghost function LineValues(p: Puzzle, grid: seq<seq<int>>, k: nat): seq<int>
    requires p.Valid() && |grid| == p.rows && IsGrid(grid, p.cols) && k < p.rows + p.cols
  {
    if k < p.rows then grid[k] else Column(grid, p.cols, k - p.rows)
  }

  ghost predicate Shows(p: Puzzle, grid: seq<seq<int>>, s: Var -> int)
    requires |grid| == p.rows && IsGrid(grid, p.cols)
  {
    forall i, j :: 0 <= i < p.rows && 0 <= j < p.cols ==> s(Cell(i, j)) == grid[i][j]
  }

  /** The line consists of symbols and has the run lengths that the clue asks for. */
  ghost predicate MatchesClue(rules: seq<int>, symbols: seq<int>) {
    IsSymbols(symbols) && RunLengths(Cells(symbols)) == Clue(rules)
  }

  /** The board's line k matches its clue. */
  ghost predicate Solves(p: Puzzle, grid: seq<seq<int>>, k: nat)
    requires p.Valid() && |grid| == p.rows && IsGrid(grid, p.cols) && k < p.rows + p.cols
  {
    MatchesClue(p.Rules(k), LineValues(p, grid, k))
  }

  lemma LineIsAt(p: Puzzle, grid: seq<seq<int>>, k: nat, s: Var -> int)
    requires p.Valid() && |grid| == p.rows && IsGrid(grid, p.cols) && k < p.rows + p.cols && Shows(p, grid, s)
    ensures At(p.Line(k), s) == LineValues(p, grid, k)
  {}

  /** One line: its constraints hold exactly when its state variables are a run of its automaton. */
  lemma RuleMeans(rules: seq<int>, y: seq<Var>, line: nat, s: Var -> int)
    ensures Satisfies(RuleConstraints(rules, y, line), s) <==>
              && IsSymbols(At(y, s))
              && IsRun(StateBits(Clue(rules)), 1, At(LineStates(line, |y|), s), Cells(At(y, s)))
  {
    hide Satisfies, FlatTable, IsRun;
    var bits := StateBits(Clue(rules));
    ElementStepMeaning(bits, s);
    LineMeans(bits, y, LineStates(line, |y|), ElementStep(FlatTable(Matrix(bits), 2, |bits| + 1), 2), s);
    if IsRun(bits, 1, At(LineStates(line, |y|), s), Cells(At(y, s))) {
      forall i | 0 <= i < |LineStates(line, |y|)|
        ensures 0 <= s(LineStates(line, |y|)[i]) <= |bits| + 1
      {
        RunInRange(bits, At(LineStates(line, |y|), s), Cells(At(y, s)), i);
      }
    }
  }

  lemma SymbolsAreLine(symbols: seq<int>)
    requires IsSymbols(symbols)
    ensures IsLine(Cells(symbols))
  {}

  /** A single line: the symbols extend to an assignment of the posted rule exactly when their runs are the clue. */
  lemma CheckRuleAccepts(rules: seq<int>, line: nat, i: nat, values: seq<int>)
    ensures (exists s: Var -> int :: At(RowCells(i, |values|), s) == values &&
                                     Satisfies(RuleConstraints(rules, RowCells(i, |values|), line), s))
       <==> IsSymbols(values) && RunLengths(Cells(values)) == Clue(rules)
  {
    hide Satisfies, RuleConstraints, Accepts, RunLengths, IsRun;
    var y, bits, w := RowCells(i, |values|), StateBits(Clue(rules)), Cells(values);
    RunIffAccepts(bits, 1, w);
    if IsSymbols(values) {
      SymbolsAreLine(values);
      AcceptsRunLengths(Clue(rules), w);
    }
    forall s: Var -> int | At(y, s) == values && Satisfies(RuleConstraints(rules, y, line), s)
      ensures IsSymbols(values) && RunLengths(w) == Clue(rules)
    {
      RuleMeans(rules, y, line, s);
    }
    if IsSymbols(values) && RunLengths(w) == Clue(rules) {
      var states :| IsRun(bits, 1, states, w);
      RunHasLength(bits, states, w);
      var s := (v: Var) => match v
        case Cell(_, j) => if j < |values| then values[j] else 1
        case State(_, k) => if k < |states| then states[k] else 0;
      assert At(y, s) == values;
      assert At(LineStates(line, |y|), s) == states;
      RuleMeans(rules, y, line, s);
    }
  }

  lemma RunHasLength(bits: seq<int>, states: seq<int>, w: seq<int>)
    requires IsRun(bits, 1, states, w)
    ensures |states| == |w| + 1
  {}

  lemma {:induction false} ConstraintsByLine(p: Puzzle, n: nat, s: Var -> int)
    requires n <= |p.rowRules| + |p.colRules|
    ensures Satisfies(p.Constraints(n), s) <==>
              forall k :: 0 <= k < n ==> Satisfies(RuleConstraints(p.Rules(k), p.Line(k), k), s)
  {
    hide Satisfies, RuleConstraints;
    if n > 0 {
      ConstraintsByLine(p, n - 1, s);
      SatisfiesConcat(p.Constraints(n - 1), RuleConstraints(p.Rules(n - 1), p.Line(n - 1), n - 1), s);
    } else {
      NothingToSatisfy(s);
    }
  }

  /** In a satisfied board every line has the run lengths of its clue. */
  lemma BoardIsSolved(p: Puzzle, grid: seq<seq<int>>, s: Var -> int, k: nat)
    requires p.Valid() && |grid| == p.rows && IsGrid(grid, p.cols) && Shows(p, grid, s) && k < p.rows + p.cols
    requires Satisfies(p.Constraints(p.rows + p.cols), s)
    ensures Solves(p, grid, k)
  {
    hide Satisfies, RuleConstraints, RunLengths, IsSymbols, Shows, LineValues;
    ConstraintsByLine(p, p.rows + p.cols, s);
    LineIsAt(p, grid, k, s);
    RuleIsSolved(p.Rules(k), p.Line(k), k, s);
  }

  lemma RuleIsSolved(rules: seq<int>, y: seq<Var>, line: nat, s: Var -> int)
    ensures Satisfies(RuleConstraints(rules, y, line), s) ==>
              IsSymbols(At(y, s)) && RunLengths(Cells(At(y, s))) == Clue(rules)
  {
    hide Satisfies, RuleConstraints, Accepts, RunLengths, IsRun, StateBits;
    RuleMeans(rules, y, line, s);
    if IsSymbols(At(y, s)) {
      SymbolsAreLine(At(y, s));
      RunIffAccepts(StateBits(Clue(rules)), 1, Cells(At(y, s)));
      AcceptsRunLengths(Clue(rules), Cells(At(y, s)));
    }
  }

  /** Runs of the automata of the first n lines. */
  ghost predicate AreRuns(p: Puzzle, grid: seq<seq<int>>, runs: seq<seq<int>>)
    requires p.Valid() && |grid| == p.rows && IsGrid(grid, p.cols) && |runs| <= p.rows + p.cols
  {
    forall k :: 0 <= k < |runs| ==> IsRun(StateBits(Clue(p.Rules(k))), 1, runs[k], Cells(LineValues(p, grid, k)))
  }

  lemma {:induction false} RunsExist(p: Puzzle, grid: seq<seq<int>>, n: nat) returns (runs: seq<seq<int>>)
    requires p.Valid() && |grid| == p.rows && IsGrid(grid, p.cols) && n <= p.rows + p.cols
    requires forall k :: 0 <= k < n ==> Solves(p, grid, k)
    ensures |runs| == n && AreRuns(p, grid, runs)
  {
    hide Accepts, RunLengths, IsRun;
    runs := [];
    if n > 0 {
      var before := RunsExist(p, grid, n - 1);
      var values := LineValues(p, grid, n - 1);
      assert Solves(p, grid, n - 1);
      SymbolsAreLine(values);
      AcceptsRunLengths(Clue(p.Rules(n - 1)), Cells(values));
      RunIffAccepts(StateBits(Clue(p.Rules(n - 1))), 1, Cells(values));
      var states :| IsRun(StateBits(Clue(p.Rules(n - 1))), 1, states, Cells(values));
      runs := before + [states];
    }
  }

  /** The assignment that shows the grid and has the given states. */
  ghost function Assigned(grid: seq<seq<int>>, runs: seq<seq<int>>): Var -> int {
    (v: Var) => match v
      case Cell(i, j) => if i < |grid| && j < |grid[i]| then grid[i][j] else 1
      case State(k, m) => if k < |runs| && m < |runs[k]| then runs[k][m] else 0
  }

  /** Rows match their row clues and columns their column clues, each at its own index. */
  ghost predicate IsSolution(p: Puzzle, grid: seq<seq<int>>)
    requires p.Valid() && |grid| == p.rows && IsGrid(grid, p.cols)
  {
    && (forall i :: 0 <= i < p.rows ==> MatchesClue(p.rowRules[i], grid[i]))
    && (forall j :: 0 <= j < p.cols ==> MatchesClue(p.colRules[j], Column(grid, p.cols, j)))
  }

  lemma SolutionByLine(p: Puzzle, grid: seq<seq<int>>)
    requires p.Valid() && |grid| == p.rows && IsGrid(grid, p.cols)
    ensures IsSolution(p, grid) <==> forall k :: 0 <= k < p.rows + p.cols ==> Solves(p, grid, k)
  {
    hide MatchesClue;
    if forall k :: 0 <= k < p.rows + p.cols ==> Solves(p, grid, k) {
      forall i | 0 <= i < p.rows
        ensures MatchesClue(p.rowRules[i], grid[i])
      {
        assert Solves(p, grid, i);
      }
      forall j | 0 <= j < p.cols
        ensures MatchesClue(p.colRules[j], Column(grid, p.cols, j))
      {
        assert Solves(p, grid, p.rows + j);
      }
    }
  }

  /** A grid extends to an assignment that satisfies all posted constraints exactly when each row i of it matches the
      clue of row i and each column j the clue of column j. */
  lemma BoardIsSolvable(p: Puzzle, grid: seq<seq<int>>)
    requires p.Valid() && |grid| == p.rows && IsGrid(grid, p.cols)
    ensures (exists s: Var -> int :: Shows(p, grid, s) && Satisfies(p.Constraints(p.rows + p.cols), s)) <==>
      (forall i :: 0 <= i < p.rows ==> MatchesClue(p.rowRules[i], grid[i])) &&
      (forall j :: 0 <= j < p.cols ==> MatchesClue(p.colRules[j], Column(grid, p.cols, j)))
  {
    hide Satisfies, Solves, Shows, MatchesClue;
    SolutionByLine(p, grid);
    LinesAreSolvable(p, grid);
  }

  lemma LinesAreSolvable(p: Puzzle, grid: seq<seq<int>>)
    requires p.Valid() && |grid| == p.rows && IsGrid(grid, p.cols)
    ensures (forall k :: 0 <= k < p.rows + p.cols ==> Solves(p, grid, k)) <==>
            (exists s: Var -> int :: Shows(p, grid, s) && Satisfies(p.Constraints(p.rows + p.cols), s))
  {
    hide Satisfies, Solves, Shows;
    if forall k :: 0 <= k < p.rows + p.cols ==> Solves(p, grid, k) {
      var s := SolutionExtends(p, grid);
    }
    forall s: Var -> int, k |
      Shows(p, grid, s) && Satisfies(p.Constraints(p.rows + p.cols), s) && 0 <= k < p.rows + p.cols
      ensures Solves(p, grid, k)
    {
      BoardIsSolved(p, grid, s, k);
    }
  }

  lemma SolutionExtends(p: Puzzle, grid: seq<seq<int>>) returns (s: Var -> int)
    requires p.Valid() && |grid| == p.rows && IsGrid(grid, p.cols)
    requires forall k :: 0 <= k < p.rows + p.cols ==> Solves(p, grid, k)
    ensures Shows(p, grid, s) && Satisfies(p.Constraints(p.rows + p.cols), s)
  {
    hide Satisfies, RuleConstraints, Solves, Shows, AreRuns, Assigned;
    var runs := RunsExist(p, grid, p.rows + p.cols);
    s := Assigned(grid, runs);
    AssignedShows(p, grid, runs);
    forall k | 0 <= k < p.rows + p.cols
      ensures Satisfies(RuleConstraints(p.Rules(k), p.Line(k), k), s)
    {
      AssignedSatisfies(p, grid, runs, k);
    }
    ConstraintsByLine(p, p.rows + p.cols, s);
  }

  lemma AssignedShows(p: Puzzle, grid: seq<seq<int>>, runs: seq<seq<int>>)
    requires p.Valid() && |grid| == p.rows && IsGrid(grid, p.cols)
    ensures Shows(p, grid, Assigned(grid, runs))
  {}

  lemma AssignedSatisfies(p: Puzzle, grid: seq<seq<int>>, runs: seq<seq<int>>, k: nat)
    requires p.Valid() && |grid| == p.rows && IsGrid(grid, p.cols) && k < p.rows + p.cols
    requires |runs| == p.rows + p.cols && AreRuns(p, grid, runs) && Solves(p, grid, k)
    ensures Satisfies(RuleConstraints(p.Rules(k), p.Line(k), k), Assigned(grid, runs))
  {
    hide Satisfies, RuleConstraints, IsRun, RunLengths;
    var s := Assigned(grid, runs);
    AssignedShows(p, grid, runs);
    LineIsAt(p, grid, k, s);
    RunHasLength(StateBits(Clue(p.Rules(k))), runs[k], Cells(LineValues(p, grid, k)));
    assert At(LineStates(k, |p.Line(k)|), s) == runs[k];
    RuleMeans(p.Rules(k), p.Line(k), k, s);
  }

  function ClueTotals(rules: seq<seq<int>>): (r: seq<int>)
    ensures |r| == |rules| && forall i :: 0 <= i < |r| ==> r[i] == Sum(Clue(rules[i]))
  {
    seq(|rules|, i requires 0 <= i < |rules| => Sum(Clue(rules[i])))
  }

  /** A board that can be solved has row clues and column clues with the same total. */
  lemma ClueTotalsAgree(p: Puzzle, grid: seq<seq<int>>)
    requires p.Valid() && |grid| == p.rows && IsGrid(grid, p.cols) && IsSolution(p, grid)
    ensures Sum(ClueTotals(p.rowRules)) == Sum(ClueTotals(p.colRules))
  {
    hide Sum, MatchesClue;
    var cells := seq(p.rows, i requires 0 <= i < p.rows => Cells(grid[i]));
    forall i | 0 <= i < p.rows
      ensures ClueTotals(p.rowRules)[i] == RowSums(cells)[i]
    {
      LineTotal(p.rowRules[i], grid[i]);
    }
    forall j | 0 <= j < p.cols
      ensures ClueTotals(p.colRules)[j] == ColumnSums(cells, p.cols)[j]
    {
      LineTotal(p.colRules[j], Column(grid, p.cols, j));
      assert Column(cells, p.cols, j) == Cells(Column(grid, p.cols, j));
    }
    assert ClueTotals(p.rowRules) == RowSums(cells);
    assert ClueTotals(p.colRules) == ColumnSums(cells, p.cols);
    RowsEqualColumns(cells, p.cols);
  }

  lemma LineTotal(rules: seq<int>, symbols: seq<int>)
    requires MatchesClue(rules, symbols)
    ensures Sum(Clue(rules)) == Sum(Cells(symbols))
  {
    RunLengthsSum(Cells(symbols));
    FilledIsSum(Cells(symbols));
  }

  lemma {:induction false} FilledIsSum(w: seq<int>)
    requires IsLine(w)
    ensures FilledCells(w) == Sum(w)
  {
    if w != [] {
      assert w == [w[0]] + w[1..];
      SumCons(w[0], w[1..]);
      FilledIsSum(w[1..]);
    }
  }
}
