/** Cycles of permutations, and how exchanging two successors joins two cycles. */
module JoinedCycles {
  import opened Cp
  import opened Circuit
  import opened Permutations

  // ---------- Cycles of permutations ----------

  ghost predicate IsPermutation(x: seq<int>) {
    InRange(x, 0, |x|) && Distinct(x)
  }

  lemma {:induction false} ReturnsAfter(x: seq<int>, i: int, k: nat) returns (p: nat)
    requires IsPermutation(x) && 0 <= i < |x|
    ensures p >= k && p > 0 && Iterate(x, i, p) == i
  {
    p := Returns(x, i);
    if k > 0 {
      var q := ReturnsAfter(x, i, k - 1);
      IterateAdd(x, i, q, p);
      p := q + p;
    }
  }

  lemma LeadsTrans(x: seq<int>, i: int, j: int, k: int)
    requires InRange(x, 0, |x|) && 0 <= i < |x| && 0 <= j < |x| && LeadsTo(x, i, j) && LeadsTo(x, j, k)
    ensures LeadsTo(x, i, k)
  {
    var a: nat :| Iterate(x, i, a) == j;
    var b: nat :| Iterate(x, j, b) == k;
    IterateAdd(x, i, a, b);
  }

  lemma LeadsBack(x: seq<int>, i: int, j: int)
    requires IsPermutation(x) && 0 <= i < |x| && 0 <= j < |x| && LeadsTo(x, i, j)
    ensures LeadsTo(x, j, i)
  {
    var k: nat :| Iterate(x, i, k) == j;
    var p := ReturnsAfter(x, i, k);
    IterateAdd(x, i, k, p - k);
  }

  lemma LeadsOn(x: seq<int>, i: int)
    requires InRange(x, 0, |x|) && 0 <= i < |x|
    ensures LeadsTo(x, i, i) && LeadsTo(x, i, x[i])
  {
    assert Iterate(x, i, 0) == i;
    assert Iterate(x, i, 1) == x[Iterate(x, i, 0)];
  }

  // ---------- Joining two cycles ----------

  /** x with the successors of a and b exchanged. */
  function Exchanged(x: seq<int>, a: nat, b: nat): (y: seq<int>)
    requires a < |x| && b < |x|
    ensures |y| == |x| && y[a] == x[b] && y[b] == x[a]
    ensures forall i :: 0 <= i < |x| && i != a && i != b ==> y[i] == x[i]
  {
    x[a := x[b]][b := x[a]]
  }

  lemma ExchangedIsPermutation(x: seq<int>, a: nat, b: nat)
    requires IsPermutation(x) && a < |x| && b < |x|
    ensures IsPermutation(Exchanged(x, a, b))
  {}

  /** The cycle of a is still followed from the successor of a on, if b is not on it. */
  lemma {:induction false} StillLeads(x: seq<int>, a: nat, b: nat, k: nat)
    requires IsPermutation(x) && a < |x| && b < |x| && !LeadsTo(x, x[a], b)
    requires IsPermutation(Exchanged(x, a, b))
    ensures LeadsTo(Exchanged(x, a, b), x[a], Iterate(x, x[a], k))
  {
    hide LeadsTo, IsPermutation;
    assert InRange(x, 0, |x|) && InRange(Exchanged(x, a, b), 0, |x|) by { Ranges(x); Ranges(Exchanged(x, a, b)); }
    var y := Exchanged(x, a, b);
    LeadsOn(y, x[a]);
    if k > 0 {
      StillLeads(x, a, b, k - 1);
      var v := Iterate(x, x[a], k - 1);
      IterateLeads(x, x[a], k - 1);
      if v != a {
        LeadsOn(y, v);
        LeadsTrans(y, x[a], v, y[v]);
      }
    } else {
      assert Iterate(x, x[a], 0) == x[a];
    }
  }

  lemma Ranges(x: seq<int>)
    requires IsPermutation(x)
    ensures InRange(x, 0, |x|) && Distinct(x)
  {}

  lemma IterateLeads(x: seq<int>, i: int, k: nat)
    requires InRange(x, 0, |x|) && 0 <= i < |x|
    ensures LeadsTo(x, i, Iterate(x, i, k))
  {}

  lemma CycleStillLeads(x: seq<int>, a: nat, b: nat, w: int)
    requires IsPermutation(x) && a < |x| && b < |x| && !LeadsTo(x, x[a], b) && LeadsTo(x, x[a], w)
    ensures IsPermutation(Exchanged(x, a, b)) && LeadsTo(Exchanged(x, a, b), x[a], w)
  {
    ExchangedIsPermutation(x, a, b);
    var k: nat :| Iterate(x, x[a], k) == w;
    StillLeads(x, a, b, k);
  }

  /** Exchanging the successors of a, on the cycle of 0, and b, off it, adds the successor of b to that cycle. */
  lemma CyclesAreJoined(x: seq<int>, a: nat, b: nat, w: int)
    requires IsPermutation(x) && a < |x| && b < |x| && LeadsTo(x, 0, a) && !LeadsTo(x, 0, b)
    requires LeadsTo(x, 0, w) && 0 <= w < |x|
    ensures IsPermutation(Exchanged(x, a, b))
    ensures LeadsTo(Exchanged(x, a, b), 0, w) && LeadsTo(Exchanged(x, a, b), 0, x[b])
  {
    hide LeadsTo, IsPermutation;
    Ranges(x);
    ExchangedIsPermutation(x, a, b);
    var y := Exchanged(x, a, b);
    Ranges(y);
    FromSuccessor(x, a, w);
    FromSuccessor(x, a, 0);
    FromSuccessor(x, a, a);
    if LeadsTo(x, x[a], b) {
      LeadsOn(x, a);
      LeadsTrans(x, 0, a, x[a]);
      LeadsTrans(x, 0, x[a], b);
    }
    CycleStillLeads(x, a, b, w);
    CycleStillLeads(x, a, b, 0);
    CycleStillLeads(x, a, b, a);
    LeadsBack(y, x[a], 0);
    LeadsTrans(y, 0, x[a], w);
    LeadsTrans(y, 0, x[a], a);
    LeadsOn(y, a);
    LeadsTrans(y, 0, a, x[b]);
  }

  lemma FromSuccessor(x: seq<int>, a: nat, w: int)
    requires IsPermutation(x) && a < |x| && 0 <= w < |x| && LeadsTo(x, 0, a) && (LeadsTo(x, 0, w) || w == 0)
    ensures LeadsTo(x, x[a], w)
  {
    hide LeadsTo, IsPermutation;
    Ranges(x);
    LeadsOn(x, a);
    LeadsOn(x, 0);
    LeadsBack(x, a, x[a]);
    LeadsBack(x, 0, a);
    LeadsTrans(x, x[a], a, 0);
    LeadsTrans(x, x[a], 0, w);
  }

  // ---------- How much the cycle of 0 covers ----------

  ghost function Reached(x: seq<int>): set<int>
    requires InRange(x, 0, |x|)
  {
    set w | 0 <= w < |x| && LeadsTo(x, 0, w)
  }

  lemma ReachedGrows(x: seq<int>, a: nat, b: nat)
    requires IsPermutation(x) && a < |x| && b < |x| && LeadsTo(x, 0, a) && !LeadsTo(x, 0, b) && !LeadsTo(x, 0, x[b])
    ensures IsPermutation(Exchanged(x, a, b)) && |Reached(x)| < |Reached(Exchanged(x, a, b))| <= |x|
  {
    hide LeadsTo;
    ExchangedIsPermutation(x, a, b);
    var y := Exchanged(x, a, b);
    forall w | w in Reached(x)
      ensures w in Reached(y)
    {
      CyclesAreJoined(x, a, b, w);
    }
    CyclesAreJoined(x, a, b, a);
    assert x[b] in Reached(y) && x[b] !in Reached(x);
    SubsetSize(Reached(x), Reached(y));
    ReachedIsBounded(y);
  }

  lemma ReachedIsBounded(x: seq<int>)
    requires InRange(x, 0, |x|)
    ensures |Reached(x)| <= |x|
  {
    hide LeadsTo;
    SubsetSize(Reached(x), Upto(|x|));
  }
}
