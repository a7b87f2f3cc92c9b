/**
 The automaton of a nonogram clue and the language it accepts. Cells are 1 when filled and 0 when blank.
 States are numbered from 1; state 0 always fails.
 */
module NonogramAutomaton {
  import opened Sums

  /** The lengths of the maximal runs of filled cells, when cur filled cells have just been read. */
  function Runs(cur: nat, w: seq<int>): seq<nat>
    decreases |w|
  {
    if w == [] then (if cur > 0 then [cur] else [])
    else if w[0] == 1 then Runs(cur + 1, w[1..])
    else (if cur > 0 then [cur] else []) + Runs(0, w[1..])
  }

  function RunLengths(w: seq<int>): seq<nat> {
    Runs(0, w)
  }

  predicate IsLine(w: seq<int>) {
    forall i :: 0 <= i < |w| ==> w[i] == 0 || w[i] == 1
  }

  predicate AllPositive(p: seq<nat>) {
    forall i :: 0 <= i < |p| ==> p[i] > 0
  }

  function Ones(n: nat): (r: seq<int>)
    ensures |r| == n && forall i :: 0 <= i < n ==> r[i] == 1
  {
    seq(n, _ => 1)
  }

  /** A 0 in front of each block of ones: one entry per state of the automaton. */
  function Bits(p: seq<nat>): seq<int> {
    if p == [] then [] else Bits(p[..|p| - 1]) + [0] + Ones(p[|p| - 1])
  }

  /** A clue without numbers still needs one state. */
  function StateBits(p: seq<nat>): (r: seq<int>)
    ensures |r| > 0
  {
    if p == [] then [0] else Bits(p)
  }

  /** The entries that bits gives to state i + 1: where a blank and where a filled cell lead. */
  function Row(bits: seq<int>, i: nat): (int, int)
    requires i < |bits|
  {
    if bits[i] == 0 then (i + 1, i + 2)
    else if i < |bits| - 1 then (if bits[i + 1] == 1 then (0, i + 2) else (i + 2, 0))
    else (|bits|, 0)
  }

  function Next(bits: seq<int>, state: int, cell: int): int
    requires 0 <= state <= |bits|
  {
    if state == 0 then 0 else if cell == 0 then Row(bits, state - 1).0 else Row(bits, state - 1).1
  }

  /** Reading w from the given state ends in the last state, without leaving the table of states. */
  predicate Accepts(bits: seq<int>, state: int, w: seq<int>)
    decreases |w|
  {
    if w == [] then state == |bits|
    else 0 <= state <= |bits| && Accepts(bits, Next(bits, state, w[0]), w[1..])
  }

  /** The index of the 0 in front of block j. */
  function Gap(p: seq<nat>, j: nat): nat
    requires j <= |p|
  {
    |Bits(p[..j])|
  }

  lemma {:induction false} BitsPrefix(p: seq<nat>, j: nat)
    requires j <= |p|
    ensures Gap(p, j) <= |Bits(p)| && Bits(p)[..Gap(p, j)] == Bits(p[..j])
  {
    if j == |p| {
      assert p[..j] == p;
    } else {
      var q := p[..|p| - 1];
      assert q[..j] == p[..j];
      BitsPrefix(q, j);
    }
  }

  lemma BitsAt(p: seq<nat>, j: nat, c: nat)
    requires j < |p| && c <= p[j]
    ensures Gap(p, j + 1) == Gap(p, j) + 1 + p[j] <= |Bits(p)|
    ensures Bits(p)[Gap(p, j) + c] == if c == 0 then 0 else 1
  {
    var q := p[..j + 1];
    assert q[..j] == p[..j];
    BitsPrefix(p, j + 1);
    assert Bits(p)[Gap(p, j) + c] == Bits(q)[Gap(p, j) + c];
  }

  lemma GapOfAll(p: seq<nat>)
    ensures Gap(p, |p|) == |Bits(p)|
  {
    assert p[..|p|] == p;
  }

  lemma {:induction false} FailedStateRejects(bits: seq<int>, w: seq<int>)
    requires bits != []
    ensures !Accepts(bits, 0, w)
  {
    if w != [] {
      FailedStateRejects(bits, w[1..]);
    }
  }

  lemma {:induction false} RunsStartAt(cur: nat, w: seq<int>)
    requires cur > 0
    ensures Runs(cur, w) != [] && Runs(cur, w)[0] >= cur
    decreases |w|
  {
    if w != [] && w[0] == 1 {
      RunsStartAt(cur + 1, w[1..]);
    }
  }

  /** After the last block only blanks may follow. */
  lemma {:induction false} TrailingBlanks(cur: nat, w: seq<int>)
    requires cur > 0
    ensures Runs(cur, w) == [cur] <==> Runs(0, w) == []
    ensures w != [] && Runs(0, w) == [] ==> w[0] != 1
  {
    if w != [] {
      if w[0] == 1 {
        RunsStartAt(1, w[1..]);
        RunsStartAt(cur + 1, w[1..]);
      }
    }
  }

  /** The state after c cells of block j accepts exactly the rest of a line with the remaining blocks. */
  lemma {:induction false} StateAccepts(p: seq<nat>, j: nat, c: nat, w: seq<int>)
    requires AllPositive(p) && IsLine(w) && j < |p| && c <= p[j]
    ensures Accepts(Bits(p), Gap(p, j) + c + 1, w) <==> Runs(c, w) == p[j..]
    decreases |w|, 1
  {
    if w == [] {
      EndState(p, j, c);
    } else if c < p[j] {
      InsideBlock(p, j, c, w);
    } else {
      AfterBlock(p, j, w);
    }
  }

  lemma EndState(p: seq<nat>, j: nat, c: nat)
    requires AllPositive(p) && j < |p| && c <= p[j]
    ensures Accepts(Bits(p), Gap(p, j) + c + 1, []) <==> Runs(c, []) == p[j..]
  {
    BitsAt(p, j, c);
    if j == |p| - 1 {
      GapOfAll(p);
    } else {
      BitsAt(p, j + 1, 0);
      assert |p[j..]| > 1;
    }
    assert p[j..][0] == p[j];
  }

  lemma {:induction false} InsideBlock(p: seq<nat>, j: nat, c: nat, w: seq<int>)
    requires AllPositive(p) && IsLine(w) && w != [] && j < |p| && c < p[j]
    ensures Accepts(Bits(p), Gap(p, j) + c + 1, w) <==> Runs(c, w) == p[j..]
    decreases |w|, 0
  {
    hide Bits, Gap, StateBits;
    var bits, i := Bits(p), Gap(p, j) + c;
    BitsAt(p, j, c);
    BitsAt(p, j, c + 1);
    assert p[j..][0] == p[j];
    if w[0] == 1 {
      assert Next(bits, i + 1, w[0]) == i + 2;
      StateAccepts(p, j, c + 1, w[1..]);
    } else if c == 0 {
      assert Next(bits, i + 1, w[0]) == i + 1;
      StateAccepts(p, j, 0, w[1..]);
    } else {
      assert Next(bits, i + 1, w[0]) == 0;
      FailedStateRejects(bits, w[1..]);
      assert Runs(c, w)[0] == c;
    }
  }

  lemma {:induction false} AfterBlock(p: seq<nat>, j: nat, w: seq<int>)
    requires AllPositive(p) && IsLine(w) && w != [] && j < |p|
    ensures Accepts(Bits(p), Gap(p, j) + p[j] + 1, w) <==> Runs(p[j], w) == p[j..]
    decreases |w|, 0
  {
    hide Bits, Gap, StateBits;
    var bits, i := Bits(p), Gap(p, j) + p[j];
    BitsAt(p, j, p[j]);
    assert p[j..] == [p[j]] + p[j + 1..];
    if w[0] == 1 {
      if j < |p| - 1 {
        BitsAt(p, j + 1, 0);
      } else {
        GapOfAll(p);
      }
      assert Next(bits, i + 1, w[0]) == 0;
      FailedStateRejects(bits, w[1..]);
      RunsStartAt(p[j] + 1, w[1..]);
    } else if j < |p| - 1 {
      BitsAt(p, j + 1, 0);
      assert Next(bits, i + 1, w[0]) == i + 2;
      StateAccepts(p, j + 1, 0, w[1..]);
    } else {
      GapOfAll(p);
      assert Next(bits, i + 1, w[0]) == i + 1;
      StateAccepts(p, j, p[j], w[1..]);
      TrailingBlanks(p[j], w[1..]);
    }
  }

  lemma {:induction false} EmptyClueAccepts(w: seq<int>)
    requires IsLine(w)
    ensures Accepts([0], 1, w) <==> RunLengths(w) == []
  {
    if w != [] {
      if w[0] == 1 {
        RunsStartAt(1, w[1..]);
        assert !Accepts([0], 2, w[1..]);
      } else {
        EmptyClueAccepts(w[1..]);
      }
    }
  }

  /** The automaton of a clue accepts exactly the lines whose run lengths are the clue. */
  lemma AcceptsRunLengths(p: seq<nat>, w: seq<int>)
    requires AllPositive(p) && IsLine(w)
    ensures Accepts(StateBits(p), 1, w) <==> RunLengths(w) == p
  {
    if p == [] {
      EmptyClueAccepts(w);
    } else {
      assert p[..0] == [] && p[0..] == p;
      StateAccepts(p, 0, 0, w);
    }
  }

  lemma {:induction false} BitsLength(p: seq<nat>)
    ensures |Bits(p)| == |p| + Sum(p)
  {
    if p != [] {
      BitsLength(p[..|p| - 1]);
    }
  }

  function FilledCells(w: seq<int>): nat {
    if w == [] then 0 else (if w[0] == 1 then 1 else 0) + FilledCells(w[1..])
  }

  lemma {:induction false} SumOfRuns(cur: nat, w: seq<int>)
    ensures Sum(Runs(cur, w)) == cur + FilledCells(w)
    decreases |w|
  {
    if w == [] {
      SumSingle(cur);
    } else if w[0] == 1 {
      SumOfRuns(cur + 1, w[1..]);
    } else {
      SumOfRuns(0, w[1..]);
      SumCons(cur, Runs(0, w[1..]));
      assert cur == 0 ==> Runs(cur, w) == Runs(0, w[1..]);
    }
  }

  /** The run lengths add up to the number of filled cells. */
  lemma RunLengthsSum(w: seq<int>)
    ensures Sum(RunLengths(w)) == FilledCells(w)
  {
    SumOfRuns(0, w);
  }
}
