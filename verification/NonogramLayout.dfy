/** Clues as the puzzle describes them: blocks of filled cells with at least one blank between them. */
module NonogramLayout {
  import opened Cp
  import opened NonogramAutomaton
  import opened NonogramRegular
  import opened NonogramBoard
  import Sums

  function Blanks(n: nat): (r: seq<int>)
    ensures |r| == n && forall i :: 0 <= i < n ==> r[i] == 0
  {
    seq(n, _ => 0)
  }

  /** The line with blocks p, gaps[0] blanks before them, and gaps[j] blanks after block j, one more between blocks. */
  function Layout(p: seq<nat>, gaps: seq<nat>): seq<int>
    requires |gaps| == |p| + 1
    decreases |p|, 1
  {
    if p == [] then Blanks(gaps[0]) else Blanks(gaps[0]) + (Ones(p[0]) + AfterBlocks(p[1..], gaps[1..]))
  }

  /** What follows a block: the remaining blocks p, kept apart from it by a blank. */
  function AfterBlocks(p: seq<nat>, gaps: seq<nat>): seq<int>
    requires |gaps| == |p| + 1
    decreases |p|, 2
  {
    if p == [] then Blanks(gaps[0]) else [0] + Layout(p, gaps)
  }

  ghost predicate IsLaidOut(p: seq<nat>, gaps: seq<nat>, w: seq<int>) {
    |gaps| == |p| + 1 && Layout(p, gaps) == w
  }

  lemma {:induction false} RunsOfBlanks(k: nat, u: seq<int>)
    ensures Runs(0, Blanks(k) + u) == Runs(0, u)
  {
    if k == 0 {
      assert Blanks(0) + u == u;
    } else {
      assert (Blanks(k) + u)[1..] == Blanks(k - 1) + u;
      RunsOfBlanks(k - 1, u);
    }
  }

  lemma {:induction false} RunsOfOnes(c: nat, m: nat, u: seq<int>)
    ensures Runs(c, Ones(m) + u) == Runs(c + m, u)
    decreases m
  {
    if m == 0 {
      assert Ones(0) + u == u;
    } else {
      assert (Ones(m) + u)[1..] == Ones(m - 1) + u;
      RunsOfOnes(c + 1, m - 1, u);
    }
  }

  lemma RunsAfterBlock(c: nat, u: seq<int>)
    requires c > 0
    ensures Runs(c, [0] + u) == [c] + Runs(0, u)
  {
    assert ([0] + u)[1..] == u;
  }

  lemma RunsOfEnd(c: nat, k: nat)
    requires c > 0
    ensures Runs(c, Blanks(k)) == [c]
  {
    if k > 0 {
      assert Blanks(k) == [0] + Blanks(k - 1) && Blanks(k - 1) + [] == Blanks(k - 1);
      RunsOfBlanks(k - 1, []);
      RunsAfterBlock(c, Blanks(k - 1));
    }
  }

  /** The run lengths of a layout are its blocks. */
  lemma {:induction false} RunsOfLayout(p: seq<nat>, gaps: seq<nat>)
    requires |gaps| == |p| + 1 && AllPositive(p)
    ensures Runs(0, Layout(p, gaps)) == p
  {
    if p == [] {
      RunsOfBlanks(gaps[0], []);
      assert Blanks(gaps[0]) + [] == Blanks(gaps[0]);
    } else {
      var rest := AfterBlocks(p[1..], gaps[1..]);
      RunsOfBlanks(gaps[0], Ones(p[0]) + rest);
      RunsOfOnes(0, p[0], rest);
      if p[1..] == [] {
        RunsOfEnd(p[0], gaps[1]);
      } else {
        RunsOfLayout(p[1..], gaps[1..]);
        RunsAfterBlock(p[0], Layout(p[1..], gaps[1..]));
      }
    }
  }

  lemma OneMoreBlank(p: seq<nat>, gaps: seq<nat>)
    requires |gaps| == |p| + 1
    ensures Layout(p, gaps[0 := gaps[0] + 1]) == [0] + Layout(p, gaps)
  {
    assert Blanks(gaps[0] + 1) == [0] + Blanks(gaps[0]);
    assert gaps[0 := gaps[0] + 1][1..] == gaps[1..];
  }

  /** The line u after a block of c cells and a blank. */
  lemma BlockThenLayout(c: nat, p: seq<nat>, gaps: seq<nat>) returns (all: seq<nat>)
    requires |gaps| == |p| + 1
    ensures IsLaidOut([c] + p, all, Ones(c) + ([0] + Layout(p, gaps)))
  {
    all := [0] + if p == [] then [gaps[0] + 1] else gaps;
    assert ([c] + p)[1..] == p && all[1..] == (if p == [] then [gaps[0] + 1] else gaps);
    assert Blanks(0) == [];
    if p == [] {
      assert Blanks(gaps[0] + 1) == [0] + Blanks(gaps[0]);
    }
    assert AfterBlocks(p, all[1..]) == [0] + Layout(p, gaps);
  }

  /** A line is laid out by its run lengths; c filled cells have just been read. */
  lemma {:induction false} LineHasLayout(c: nat, w: seq<int>) returns (gaps: seq<nat>)
    requires IsLine(w)
    ensures IsLaidOut(Runs(c, w), gaps, Ones(c) + w)
    decreases |w|
  {
    hide Layout;
    if w == [] {
      assert Ones(c) + w == Ones(c);
      gaps := BlockAlone(c);
    } else if w[0] == 1 {
      gaps := LineHasLayout(c + 1, w[1..]);
      assert Ones(c + 1) + w[1..] == Ones(c) + w;
    } else {
      var rest := LineHasLayout(0, w[1..]);
      assert Ones(0) + w[1..] == w[1..] && w == [0] + w[1..];
      if c == 0 {
        gaps := rest[0 := rest[0] + 1];
        OneMoreBlank(Runs(0, w[1..]), rest);
        assert Ones(0) + w == w && [] + Runs(0, w[1..]) == Runs(0, w[1..]);
      } else {
        gaps := BlockThenLayout(c, Runs(0, w[1..]), rest);
      }
    }
  }

  lemma BlockAlone(c: nat) returns (gaps: seq<nat>)
    ensures IsLaidOut(if c > 0 then [c] else [], gaps, Ones(c))
  {
    if c == 0 {
      gaps := [0];
      assert Blanks(0) == Ones(0);
    } else {
      gaps := [0, 0];
      assert [c][1..] == [] && gaps[1..] == [0];
      assert Blanks(0) == [] && [] + (Ones(c) + []) == Ones(c);
    }
  }

  /** A line has the run lengths p exactly when it consists of blocks of these lengths, kept apart by blanks. */
  lemma RunLengthsAreLayout(p: seq<nat>, w: seq<int>)
    requires AllPositive(p) && IsLine(w)
    ensures RunLengths(w) == p <==> exists gaps :: IsLaidOut(p, gaps, w)
  {
    hide Layout, Runs;
    if RunLengths(w) == p {
      var gaps := LineHasLayout(0, w);
      assert Ones(0) + w == w;
    }
    forall gaps | IsLaidOut(p, gaps, w)
      ensures RunLengths(w) == p
    {
      RunsOfLayout(p, gaps);
    }
  }

  /** The posted rule accepts exactly the lines that the clue describes. */
  lemma CheckRuleAcceptsLayouts(rules: seq<int>, line: nat, i: nat, values: seq<int>)
    ensures (exists s: Var -> int :: At(RowCells(i, |values|), s) == values &&
                                     Satisfies(RuleConstraints(rules, RowCells(i, |values|), line), s))
       <==> IsSymbols(values) && exists gaps :: IsLaidOut(Clue(rules), gaps, Cells(values))
  {
    hide Satisfies, RuleConstraints, RunLengths, IsLaidOut;
    CheckRuleAccepts(rules, line, i, values);
    if IsSymbols(values) {
      SymbolsAreLine(values);
      RunLengthsAreLayout(Clue(rules), Cells(values));
    }
  }

  // ---------- Blocks at places ----------

  predicate Covers(start: int, length: int, i: int) {
    start <= i < start + length
  }

  /** Cell i is in one of the blocks p that begin at starts. */
  predicate InBlock(p: seq<int>, starts: seq<int>, i: int)
    requires |p| == |starts|
  {
    exists k :: 0 <= k < |p| && Covers(starts[k], p[k], i)
  }

  /** Blocks in order with a blank between them, within n cells. */
  predicate AreBlocks(p: seq<int>, starts: seq<int>, n: int) {
    && |p| == |starts|
    && (forall k :: 0 <= k < |p| ==> p[k] > 0 && 0 <= starts[k] && starts[k] + p[k] <= n)
    && (forall k, l :: 0 <= k < l < |p| ==> starts[k] + p[k] < starts[l])
  }

  /** The blocks are the filled cells of the line. */
  ghost predicate Shades(p: seq<int>, starts: seq<int>, w: seq<int>) {
    && AreBlocks(p, starts, |w|)
    && forall i :: 0 <= i < |w| ==> w[i] == if InBlock(p, starts, i) then 1 else 0
  }

  function MovedBy(starts: seq<int>, h: int): (r: seq<int>)
    ensures |r| == |starts| && forall k :: 0 <= k < |r| ==> r[k] == starts[k] + h
  {
    seq(|starts|, k requires 0 <= k < |starts| => starts[k] + h)
  }

  lemma InMovedBlock(p: seq<int>, starts: seq<int>, h: int, i: int)
    requires |p| == |starts|
    ensures InBlock(p, MovedBy(starts, h), i + h) <==> InBlock(p, starts, i)
  {
    if InBlock(p, starts, i) {
      var k :| 0 <= k < |p| && Covers(starts[k], p[k], i);
      assert Covers(MovedBy(starts, h)[k], p[k], i + h);
    }
    if InBlock(p, MovedBy(starts, h), i + h) {
      var k :| 0 <= k < |p| && Covers(MovedBy(starts, h)[k], p[k], i + h);
      assert Covers(starts[k], p[k], i);
    }
  }

  /** One more block at the start of a line. */
  lemma InFirstBlock(m: int, p: seq<int>, starts: seq<int>, i: int)
    requires |p| == |starts|
    ensures InBlock([m] + p, [0] + starts, i) <==> Covers(0, m, i) || InBlock(p, starts, i)
  {
    var q, r := [m] + p, [0] + starts;
    if Covers(0, m, i) {
      assert Covers(r[0], q[0], i);
    }
    if InBlock(p, starts, i) {
      var k :| 0 <= k < |p| && Covers(starts[k], p[k], i);
      assert Covers(r[k + 1], q[k + 1], i);
    }
    if InBlock(q, r, i) {
      var k :| 0 <= k < |q| && Covers(r[k], q[k], i);
      assert k > 0 ==> Covers(starts[k - 1], p[k - 1], i);
    }
  }

  /** A line after a blank. */
  lemma ShadesAfterBlank(p: seq<int>, starts: seq<int>, u: seq<int>)
    ensures Shades(p, starts, u) <==> |p| == |starts| && Shades(p, MovedBy(starts, 1), [0] + u)
  {
    hide InBlock;
    if |p| == |starts| {
      var w, moved := [0] + u, MovedBy(starts, 1);
      forall i
        ensures InBlock(p, moved, i + 1) <==> InBlock(p, starts, i)
      {
        InMovedBlock(p, starts, 1, i);
      }
      if Shades(p, moved, w) {
        StartsPositive(p, moved, w);
        forall i | 0 <= i < |u|
          ensures u[i] == if InBlock(p, starts, i) then 1 else 0
        {
          assert w[i + 1] == if InBlock(p, moved, i + 1) then 1 else 0;
        }
      }
      if Shades(p, starts, u) {
        NotBefore(p, moved, 0);
        forall i | 0 <= i < |w|
          ensures w[i] == if InBlock(p, moved, i) then 1 else 0
        {
          if i > 0 {
            assert u[i - 1] == if InBlock(p, starts, i - 1) then 1 else 0;
            assert InBlock(p, moved, i - 1 + 1) <==> InBlock(p, starts, i - 1);
          }
        }
      }
    }
  }

  lemma NotBefore(p: seq<int>, starts: seq<int>, i: int)
    requires |p| == |starts| && forall k :: 0 <= k < |p| ==> i < starts[k]
    ensures !InBlock(p, starts, i)
  {}

  lemma StartsPositive(p: seq<int>, starts: seq<int>, w: seq<int>)
    requires Shades(p, starts, w) && w != [] && w[0] != 1
    ensures forall k :: 0 <= k < |p| ==> starts[k] > 0
  {
    forall k | 0 <= k < |p|
      ensures starts[k] > 0
    {
      StartInBlock(p, starts, k);
    }
  }

  lemma StartInBlock(p: seq<int>, starts: seq<int>, k: nat)
    requires k < |p| == |starts| && p[k] > 0
    ensures InBlock(p, starts, starts[k])
  {
    assert Covers(starts[k], p[k], starts[k]);
  }

  lemma RoomForBlocks(p: seq<int>, starts: seq<int>, n: int)
    requires AreBlocks(p, starts, n)
    ensures p != [] ==> n > 0 && starts[0] + p[0] <= n
    ensures |p| > 1 ==> starts[0] + p[0] < n
  {
    assert p != [] ==> p[0] > 0 && 0 <= starts[0] && starts[0] + p[0] <= n;
    assert |p| > 1 ==> starts[0] + p[0] < starts[1];
  }

  /** A line that is one block, or one block and a blank before the rest. */
  lemma ShadesAfterBlock(c: nat, p: seq<int>, starts: seq<int>, u: seq<int>)
    requires c > 0 && |p| == |starts|
    ensures Shades(p, starts, u) <==>
      Shades([c] + p, [0] + MovedBy(starts, c + 1), Ones(c) + ([0] + u))
  {
    hide InBlock;
    var q, r, w := [c] + p, [0] + MovedBy(starts, c + 1), Ones(c) + ([0] + u);
    forall i
      ensures InBlock(q, r, i) <==> Covers(0, c, i) || InBlock(p, starts, i - (c + 1))
    {
      InFirstBlock(c, p, MovedBy(starts, c + 1), i);
      InMovedBlock(p, starts, c + 1, i - (c + 1));
    }
    BlocksAfterBlock(c, p, starts, |u|);
    if Shades(q, r, w) {
      forall i | 0 <= i < |u|
        ensures u[i] == if InBlock(p, starts, i) then 1 else 0
      {
        assert w[i + (c + 1)] == u[i];
        assert InBlock(q, r, i + (c + 1)) <==> InBlock(p, starts, i + (c + 1) - (c + 1));
      }
    }
    if Shades(p, starts, u) {
      NotBefore(p, starts, -1);
      forall i | 0 <= i < |w|
        ensures w[i] == if InBlock(q, r, i) then 1 else 0
      {
        if i < c {
          assert w[i] == 1;
        } else if i > c {
          assert w[i] == u[i - (c + 1)];
        }
      }
    }
  }

  lemma BlocksAfterBlock(c: nat, p: seq<int>, starts: seq<int>, n: nat)
    requires c > 0 && |p| == |starts|
    ensures AreBlocks(p, starts, n) <==> AreBlocks([c] + p, [0] + MovedBy(starts, c + 1), c + 1 + n)
  {
    var q, r := [c] + p, [0] + MovedBy(starts, c + 1);
    if AreBlocks(q, r, c + 1 + n) {
      forall k | 0 <= k < |p|
        ensures p[k] > 0 && 0 <= starts[k] && starts[k] + p[k] <= n
      {
        assert q[k + 1] == p[k] && r[k + 1] == starts[k] + c + 1 && r[0] + q[0] < r[k + 1];
      }
      forall k, l | 0 <= k < l < |p|
        ensures starts[k] + p[k] < starts[l]
      {
        assert r[k + 1] + q[k + 1] < r[l + 1];
      }
    }
  }

  lemma OnlyBlock(c: nat, p: seq<int>, starts: seq<int>)
    requires Shades(p, starts, Ones(c))
    ensures p == if c > 0 then [c] else []
  {
    RoomForBlocks(p, starts, c);
    if c > 0 {
      FirstBlockIs(c, p, starts, Ones(c));
    }
  }

  /** A line that starts with exactly c filled cells starts with a block of c. */
  lemma FirstBlockIs(c: nat, p: seq<int>, starts: seq<int>, w: seq<int>)
    requires c > 0 && Shades(p, starts, w) && c <= |w|
    requires (forall i :: 0 <= i < c ==> w[i] == 1) && (c < |w| ==> w[c] != 1)
    ensures p != [] && starts[0] == 0 && p[0] == c
  {
    hide Shades;
    CellInBlock(p, starts, w, 0);
    assert AreBlocks(p, starts, |w|) by { BlocksOf(p, starts, w); }
    if p[0] < c {
      CellInBlock(p, starts, w, p[0]);
    }
    if p[0] > c {
      BlockIsFilled(p, starts, w, c);
    }
  }

  lemma BlocksOf(p: seq<int>, starts: seq<int>, w: seq<int>)
    requires Shades(p, starts, w)
    ensures AreBlocks(p, starts, |w|)
  {}

  /** A filled cell at 0, or right behind the first block: only a block that starts there could hold it. */
  lemma CellInBlock(p: seq<int>, starts: seq<int>, w: seq<int>, i: nat)
    requires Shades(p, starts, w) && i < |w| && w[i] == 1
    ensures p != [] && (i == 0 ==> starts[0] == 0) && !(starts[0] == 0 && i == p[0])
  {
    assert InBlock(p, starts, i);
    var k :| 0 <= k < |p| && Covers(starts[k], p[k], i);
    assert k > 0 ==> starts[0] + p[0] < starts[k];
  }

  lemma BlockIsFilled(p: seq<int>, starts: seq<int>, w: seq<int>, i: nat)
    requires Shades(p, starts, w) && p != [] && starts[0] <= i < starts[0] + p[0]
    ensures i < |w| && w[i] == 1
  {
    assert Covers(starts[0], p[0], i);
  }

  /** The run lengths of a line are its blocks, with c filled cells just read. */
  lemma {:induction false} RunsAreBlocks(c: nat, w: seq<int>) returns (starts: seq<int>)
    requires IsLine(w)
    ensures Shades(Runs(c, w), starts, Ones(c) + w)
    decreases |w|
  {
    hide Shades;
    if w == [] {
      assert Ones(c) + w == Ones(c);
      starts := if c > 0 then [0] else [];
      OneBlockShades(c);
    } else if w[0] == 1 {
      starts := RunsAreBlocks(c + 1, w[1..]);
      assert Ones(c + 1) + w[1..] == Ones(c) + w;
    } else {
      var rest := RunsAreBlocks(0, w[1..]);
      assert Ones(0) + w[1..] == w[1..] && w == [0] + w[1..];
      SameLength(Runs(0, w[1..]), rest, w[1..]);
      if c == 0 {
        starts := MovedBy(rest, 1);
        ShadesAfterBlank(Runs(0, w[1..]), rest, w[1..]);
        assert Ones(0) + w == w && [] + Runs(0, w[1..]) == Runs(0, w[1..]);
      } else {
        starts := [0] + MovedBy(rest, c + 1);
        ShadesAfterBlock(c, Runs(0, w[1..]), rest, w[1..]);
      }
    }
  }

  lemma SameLength(p: seq<int>, starts: seq<int>, w: seq<int>)
    requires Shades(p, starts, w)
    ensures |p| == |starts|
  {}

  lemma OneBlockShades(c: nat)
    ensures Shades(if c > 0 then [c] else [], if c > 0 then [0] else [], Ones(c))
  {
    if c > 0 {
      forall i | 0 <= i < c
        ensures InBlock([c], [0], i)
      {
        assert Covers([0][0], [c][0], i);
      }
    }
  }

  /** A line has only one list of blocks. */
  lemma {:induction false} BlocksAreRuns(c: nat, w: seq<int>, p: seq<int>, starts: seq<int>)
    requires IsLine(w) && Shades(p, starts, Ones(c) + w)
    ensures p == Runs(c, w)
    decreases |w|
  {
    hide Shades;
    if w == [] {
      assert Ones(c) + w == Ones(c);
      OnlyBlock(c, p, starts);
    } else if w[0] == 1 {
      assert Ones(c + 1) + w[1..] == Ones(c) + w;
      BlocksAreRuns(c + 1, w[1..], p, starts);
    } else {
      assert w == [0] + w[1..];
      SameLength(p, starts, Ones(c) + w);
      if c == 0 {
        assert Ones(0) + w == w && Ones(0) + w[1..] == w[1..];
        assert starts == MovedBy(MovedBy(starts, -1), 1);
        ShadesAfterBlank(p, MovedBy(starts, -1), w[1..]);
        BlocksAreRuns(0, w[1..], p, MovedBy(starts, -1));
        assert [] + Runs(0, w[1..]) == Runs(0, w[1..]);
      } else {
        FirstBlockIs(c, p, starts, Ones(c) + w);
        var rest := MovedBy(starts[1..], -(c + 1));
        assert p == [c] + p[1..] && starts == [0] + MovedBy(rest, c + 1);
        assert Ones(c) + ([0] + w[1..]) == Ones(c) + w && Ones(0) + w[1..] == w[1..];
        ShadesAfterBlock(c, p[1..], rest, w[1..]);
        BlocksAreRuns(0, w[1..], p[1..], rest);
      }
    }
  }

  // ---------- The puzzle in full ----------

  /** Symbol 2 marks the blocks: their lengths are the positive numbers of the clue in order, a blank lies between any
      two of them, and all other cells are symbol 1. */
  ghost predicate Draws(rules: seq<int>, symbols: seq<int>) {
    exists pos, p, starts :: IsKept(rules, pos, p) && Shades(p, starts, Cells(symbols))
  }

  lemma DrawsExactly(rules: seq<int>, symbols: seq<int>)
    ensures MatchesClue(rules, symbols) <==> Draws(rules, symbols)
  {
    hide IsKept, Clue, Runs, Shades;
    var w := Cells(symbols);
    if MatchesClue(rules, symbols) {
      var pos := ClueIsKept(rules);
      SymbolsAreLine(symbols);
      var starts := RunsAreBlocks(0, w);
      assert Ones(0) + w == w;
      assert IsKept(rules, pos, Clue(rules)) && Shades(Clue(rules), starts, w);
    }
    if Draws(rules, symbols) {
      var pos, p, starts :| IsKept(rules, pos, p) && Shades(p, starts, w);
      KeptIsClue(rules, pos, p);
      ShadesLine(p, starts, symbols);
      SymbolsAreLine(symbols);
      assert Ones(0) + w == w;
      BlocksAreRuns(0, w, p, starts);
    }
  }

  lemma ShadesLine(p: seq<int>, starts: seq<int>, symbols: seq<int>)
    requires Shades(p, starts, Cells(symbols))
    ensures IsSymbols(symbols)
  {
    forall i | 0 <= i < |symbols|
      ensures 1 <= symbols[i] <= 2
    {
      assert Cells(symbols)[i] == symbols[i] - 1;
    }
  }

  /** One line in full: what the posted rule accepts, in terms of the clue and the cells alone. */
  lemma CheckRuleDraws(rules: seq<int>, line: nat, i: nat, values: seq<int>)
    ensures (exists s: Var -> int :: At(RowCells(i, |values|), s) == values &&
                                     Satisfies(RuleConstraints(rules, RowCells(i, |values|), line), s))
       <==> Draws(rules, values)
  {
    hide Satisfies, RuleConstraints, Draws, Clue, RunLengths;
    CheckRuleAccepts(rules, line, i, values);
    DrawsExactly(rules, values);
  }

  /** The board in full: what all posted rules together accept. */
  lemma BoardDraws(p: Puzzle, grid: seq<seq<int>>)
    requires p.Valid() && |grid| == p.rows && Sums.IsGrid(grid, p.cols)
    ensures (exists s: Var -> int :: Shows(p, grid, s) && Satisfies(p.Constraints(p.rows + p.cols), s)) <==>
      (forall i :: 0 <= i < p.rows ==> Draws(p.rowRules[i], grid[i])) &&
      (forall j :: 0 <= j < p.cols ==> Draws(p.colRules[j], Sums.Column(grid, p.cols, j)))
  {
    hide Satisfies, Shows, Draws, MatchesClue;
    BoardIsSolvable(p, grid);
    forall i | 0 <= i < p.rows
      ensures MatchesClue(p.rowRules[i], grid[i]) <==> Draws(p.rowRules[i], grid[i])
    {
      DrawsExactly(p.rowRules[i], grid[i]);
    }
    forall j | 0 <= j < p.cols
      ensures MatchesClue(p.colRules[j], Sums.Column(grid, p.cols, j)) <==>
        Draws(p.colRules[j], Sums.Column(grid, p.cols, j))
    {
      DrawsExactly(p.colRules[j], Sums.Column(grid, p.cols, j));
    }
  }
}
