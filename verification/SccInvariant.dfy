/**
 The state of the recursive search for strongly connected components, the invariant that every
 recursive call keeps, and one lemma for each way the search moves from one state to the next.

 A directory is white before its first visit, gray while its call is running, and black after.
 */
module SccInvariant {
  import opened Reachability

  datatype Dir = Dir(name: string)

  /** What the search has recorded so far: numbers of visited directories, the stack and the components. */
  datatype Search = Search(index: nat, indices: map<Dir, nat>, stack: seq<Dir>, sccs: seq<seq<Dir>>)

  type Edges = set<(Dir, Dir)>

  ghost predicate IsPopped(sccs: seq<seq<Dir>>, d: Dir) {
    exists i :: 0 <= i < |sccs| && d in sccs[i]
  }

  /** Stack entries are numbered upwards, so none occurs twice. */
  ghost predicate Numbered(s: Search) {
    && (forall d :: d in s.stack ==> d in s.indices)
    && (forall i, j :: 0 <= i < j < |s.stack| ==> s.indices[s.stack[i]] < s.indices[s.stack[j]])
    && (forall d :: d in s.indices ==> s.indices[d] < s.index)
  }

  /** The visited directories are split between the stack and the finished components. */
  ghost predicate Split(s: Search) {
    forall d :: (d in s.indices <==> d in s.stack || IsPopped(s.sccs, d)) && !(d in s.stack && IsPopped(s.sccs, d))
  }

  /** No directory occurs twice in the components. */
  ghost predicate Disjoint(sccs: seq<seq<Dir>>) {
    && (forall i, a, b :: 0 <= i < |sccs| && 0 <= a < b < |sccs[i]| ==> sccs[i][a] != sccs[i][b])
    && (forall i, j, d :: 0 <= i < j < |sccs| && d in sccs[i] ==> d !in sccs[j])
  }

  /** The components are strongly connected, and edges leave them only towards earlier ones. */
  ghost predicate Finished(e: Edges, sccs: seq<seq<Dir>>) {
    && Disjoint(sccs)
    && (forall i :: 0 <= i < |sccs| ==> sccs[i] != [])
    && (forall i, u, v :: 0 <= i < |sccs| && u in sccs[i] && v in sccs[i] ==> Reach(e, u, v))
    && (forall i, u, v :: 0 <= i < |sccs| && u in sccs[i] && (u, v) in e ==> IsPopped(sccs[..i + 1], v))
  }

  /** y reaches a running call that started no later than y. */
  ghost predicate Covered(e: Edges, s: Search, gray: set<Dir>, y: Dir) {
    exists g :: g in gray && g in s.indices && y in s.indices && s.indices[g] <= s.indices[y] && Reach(e, y, g)
  }

  /** The part of the invariant that speaks of the running calls. */
  ghost predicate Running(e: Edges, s: Search, gray: set<Dir>)
    requires Numbered(s)
  {
    && (forall g :: g in gray ==> g in s.stack)
    && (forall u, v :: u in s.indices && u !in gray && (u, v) in e ==> v in s.indices)
    && (forall y {:trigger Covered(e, s, gray, y)} :: y in s.stack ==> Covered(e, s, gray, y))
    && (forall g, y :: g in gray && y in s.stack && s.indices[g] <= s.indices[y] ==> Reach(e, g, y))
  }

  ghost predicate Inv(e: Edges, s: Search, gray: set<Dir>) {
    Numbered(s) && Split(s) && Finished(e, s.sccs) && Running(e, s, gray)
  }

  /** t continues s: nothing that was recorded changed, apart from the stack growing. */
  ghost predicate Extends(s: Search, t: Search) {
    && s.index <= t.index
    && (forall d :: d in s.indices ==> d in t.indices && t.indices[d] == s.indices[d])
    && (forall d :: d in t.indices && d !in s.indices ==> s.index <= t.indices[d])
    && s.stack <= t.stack
    && s.sccs <= t.sccs
  }

  /** low is the number of a stack entry that x reaches. */
  ghost predicate LowReached(e: Edges, s: Search, x: Dir, low: nat)
    requires Numbered(s)
  {
    exists y :: y in s.stack && s.indices[y] == low && Reach(e, x, y)
  }

  /** Every edge from the entries above position k into the first n entries ends at number low or later. */
  ghost predicate LowBounds(e: Edges, s: Search, k: nat, n: nat, low: nat)
    requires Numbered(s)
  {
    forall i, j :: k <= i < |s.stack| && 0 <= j < n && j < |s.stack| && (s.stack[i], s.stack[j]) in e ==>
      low <= s.indices[s.stack[j]]
  }

  /** What a finished call on x leaves behind, from state s to state t with lowlink low. */
  ghost predicate Explored(e: Edges, s: Search, t: Search, x: Dir, low: nat)
    requires Numbered(t)
  {
    && Extends(s, t)
    && x in t.indices && x !in s.indices && low <= t.indices[x]
    && (if x in t.stack then LowReached(e, t, x, low) else low == t.indices[x])
    && LowBounds(e, t, |s.stack|, |s.stack|, low)
  }

  /** The state inside the call on x, entered in state s, after the neighbours in done were looked at. */
  ghost predicate Scanning(e: Edges, s: Search, t: Search, x: Dir, gray: set<Dir>, low: nat, done: seq<Dir>) {
    && Inv(e, t, gray + {x})
    && Extends(s, t)
    && x !in gray && x !in s.indices
    && s.stack + [x] <= t.stack
    && t.indices[x] == s.index
    && low <= s.index
    && LowReached(e, t, x, low)
    && LowBounds(e, t, |s.stack| + 1, |s.stack|, low)
    && (forall y :: y in done && (x, y) in e ==>
          y in t.indices && (y in s.stack ==> low <= t.indices[y]))
  }

  /** The state right after x is numbered and pushed. */
  function Entered(s: Search, x: Dir): Search {
    Search(s.index + 1, s.indices[x := s.index], s.stack + [x], s.sccs)
  }

  lemma EnterRuns(e: Edges, s: Search, x: Dir, gray: set<Dir>)
    requires Numbered(s) && Running(e, s, gray) && x !in s.indices
    requires forall g :: g in gray ==> Reach(e, g, x)
    requires Numbered(Entered(s, x))
    ensures Running(e, Entered(s, x), gray + {x})
  {
    var t := Entered(s, x);
    ReachRefl(e, x);
    hide Reach;
    assert forall d :: d in t.stack <==> d in s.stack || d == x;
    forall y | y in t.stack
      ensures Covered(e, t, gray + {x}, y)
    {
      if y != x {
        assert Covered(e, s, gray, y);
      }
    }
  }

  lemma EnterScans(e: Edges, s: Search, x: Dir, gray: set<Dir>)
    requires Inv(e, s, gray) && x !in s.indices
    requires forall g :: g in gray ==> Reach(e, g, x)
    ensures Scanning(e, s, Entered(s, x), x, gray, s.index, [])
  {
    var t := Entered(s, x);
    assert Numbered(t);
    assert Split(t);
    EnterRuns(e, s, x, gray);
    ReachRefl(e, x);
    assert t.stack[|s.stack|] == x && x in t.stack && t.indices[x] == s.index;
  }

  /** A recursive call on a neighbour n, from t to u, whose lowlink is then taken into account. */
  lemma RecurseScans(e: Edges, s: Search, t: Search, u: Search, x: Dir, gray: set<Dir>, low: nat,
                     done: seq<Dir>, n: Dir, nLow: nat, low': nat)
    requires Numbered(s) && Scanning(e, s, t, x, gray, low, done)
    requires (x, n) in e
    requires Inv(e, u, gray + {x}) && Explored(e, t, u, n, nLow)
    requires low' == if nLow < low then nLow else low
    ensures Scanning(e, s, u, x, gray, low', done + [n])
  {
    hide Reach, Split, Finished, Running, LowBounds;
    assert x == t.stack[|s.stack|] == u.stack[|s.stack|];
    assert n !in s.stack by {
      assert forall d :: d in s.stack ==> d in t.stack;
    }
    KeepsLowReached(e, t, u, x, low, n, nLow, low');
    KeepsLowBounds(e, s, t, u, low, nLow, low');
  }

  lemma KeepsLowReached(e: Edges, t: Search, u: Search, x: Dir, low: nat, n: Dir, nLow: nat, low': nat)
    requires Numbered(t) && Numbered(u) && Explored(e, t, u, n, nLow)
    requires (x, n) in e && LowReached(e, t, x, low) && low < t.index
    requires low' == if nLow < low then nLow else low
    ensures LowReached(e, u, x, low')
  {
    hide Reach, LowBounds;
    if nLow < low {
      var y :| y in u.stack && u.indices[y] == nLow && Reach(e, n, y);
      ReachEdge(e, x, n);
      ReachTrans(e, x, n, y);
    } else {
      var y :| y in t.stack && t.indices[y] == low && Reach(e, x, y);
      assert y in u.stack && u.indices[y] == low;
    }
  }

  lemma KeepsLowBounds(e: Edges, s: Search, t: Search, u: Search, low: nat, nLow: nat, low': nat)
    requires Numbered(t) && Numbered(u)
    requires Extends(t, u) && |s.stack| < |t.stack|
    requires LowBounds(e, t, |s.stack| + 1, |s.stack|, low)
    requires LowBounds(e, u, |t.stack|, |t.stack|, nLow)
    requires low' <= low && low' <= nLow
    ensures LowBounds(e, u, |s.stack| + 1, |s.stack|, low')
  {
    forall i, j | |s.stack| + 1 <= i < |u.stack| && 0 <= j < |s.stack| && (u.stack[i], u.stack[j]) in e
      ensures low' <= u.indices[u.stack[j]]
    {
      assert u.stack[j] == t.stack[j];
      if i < |t.stack| {
        assert u.stack[i] == t.stack[i];
      }
    }
  }

  /** A neighbour that is already on the stack. */
  lemma SeenScans(e: Edges, s: Search, t: Search, x: Dir, gray: set<Dir>, low: nat,
                  done: seq<Dir>, n: Dir, low': nat)
    requires Scanning(e, s, t, x, gray, low, done)
    requires (x, n) in e && n in t.stack
    requires low' == if t.indices[n] < low then t.indices[n] else low
    ensures Scanning(e, s, t, x, gray, low', done + [n])
  {
    hide Reach;
    assert LowReached(e, t, x, low') by {
      if t.indices[n] < low {
        ReachEdge(e, x, n);
      }
    }
  }

  /** A directory that needs no attention: not a neighbour, or already in a finished component. */
  lemma SkipScans(e: Edges, s: Search, t: Search, x: Dir, gray: set<Dir>, low: nat, done: seq<Dir>, n: Dir)
    requires Numbered(s) && Scanning(e, s, t, x, gray, low, done)
    requires (x, n) !in e || IsPopped(t.sccs, n)
    ensures Scanning(e, s, t, x, gray, low, done + [n])
  {
    hide Reach;
    if (x, n) in e {
      assert n !in t.stack;
      assert n !in s.stack;
    }
  }

  /** Everything the call on x needs when its loop is over. */
  ghost predicate Scanned(e: Edges, s: Search, t: Search, x: Dir, gray: set<Dir>, low: nat, done: seq<Dir>) {
    Inv(e, s, gray) && Scanning(e, s, t, x, gray, low, done) && forall y :: (x, y) in e ==> y in done
  }

  /** x is not the root of its component: it stays on the stack, and some running call covers it. */
  lemma LeaveInner(e: Edges, s: Search, t: Search, x: Dir, gray: set<Dir>, low: nat, done: seq<Dir>)
    requires Scanned(e, s, t, x, gray, low, done) && low < t.indices[x]
    ensures Inv(e, t, gray) && Explored(e, s, t, x, low)
  {
    LeaveInnerBounds(e, s, t, x, gray, low, done);
    LeaveInnerRuns(e, t, x, gray, low);
    assert t.stack[|s.stack|] == x;
  }

  lemma LeaveInnerBounds(e: Edges, s: Search, t: Search, x: Dir, gray: set<Dir>, low: nat, done: seq<Dir>)
    requires Scanned(e, s, t, x, gray, low, done)
    ensures LowBounds(e, t, |s.stack|, |s.stack|, low)
  {
    hide Reach, Running, Finished, Split;
    forall i, j | |s.stack| <= i < |t.stack| && 0 <= j < |s.stack| && (t.stack[i], t.stack[j]) in e
      ensures low <= t.indices[t.stack[j]]
    {
      assert t.stack[j] == s.stack[j] && t.stack[|s.stack|] == x;
    }
  }

  lemma LeaveInnerRuns(e: Edges, t: Search, x: Dir, gray: set<Dir>, low: nat)
    requires Numbered(t) && Running(e, t, gray + {x})
    requires forall y :: (x, y) in e ==> y in t.indices
    requires LowReached(e, t, x, low) && x in t.stack && low < t.indices[x]
    ensures Running(e, t, gray)
  {
    hide Reach, Covered, LowReached;
    AllStillCovered(e, t, x, gray, low);
  }

  lemma AllStillCovered(e: Edges, t: Search, x: Dir, gray: set<Dir>, low: nat)
    requires Numbered(t) && Running(e, t, gray + {x})
    requires LowReached(e, t, x, low) && x in t.stack && low < t.indices[x]
    ensures forall y {:trigger Covered(e, t, gray, y)} :: y in t.stack ==> Covered(e, t, gray, y)
  {
    var g0 := CoverOf(e, t, x, gray, low);
    forall y | y in t.stack
      ensures Covered(e, t, gray, y)
    {
      hide Reach, Covered;
      assert Covered(e, t, gray + {x}, y);
      CoveredWithout(e, t, x, gray, g0, y);
    }
  }

  /** An earlier running call that x reaches. */
  lemma CoverOf(e: Edges, t: Search, x: Dir, gray: set<Dir>, low: nat) returns (g: Dir)
    requires Numbered(t) && Running(e, t, gray + {x})
    requires LowReached(e, t, x, low) && x in t.stack && low < t.indices[x]
    ensures g in gray && g in t.indices && t.indices[g] < t.indices[x] && Reach(e, x, g)
  {
    hide Reach;
    var y0 :| y0 in t.stack && t.indices[y0] == low && Reach(e, x, y0);
    assert Covered(e, t, gray + {x}, y0);
    g :| g in gray + {x} && t.indices[g] <= low && Reach(e, y0, g);
    ReachTrans(e, x, y0, g);
  }

  lemma CoveredWithout(e: Edges, t: Search, x: Dir, gray: set<Dir>, g0: Dir, y: Dir)
    requires y in t.indices && x in t.indices && Covered(e, t, gray + {x}, y)
    requires g0 in gray && g0 in t.indices && t.indices[g0] < t.indices[x] && Reach(e, x, g0)
    ensures Covered(e, t, gray, y)
  {
    hide Reach;
    if !Covered(e, t, gray, y) {
      ReachTrans(e, y, x, g0);
    }
  }

  /** The state after the entries above s.stack are popped into one component. */
  function Closed(s: Search, t: Search, scc: seq<Dir>): Search {
    Search(t.index, t.indices, s.stack, t.sccs + [scc])
  }

  ghost predicate SameElements(xs: seq<Dir>, ys: seq<Dir>) {
    forall d :: d in xs <==> d in ys
  }

  ghost predicate NoRepeats(xs: seq<Dir>) {
    forall i, j :: 0 <= i < j < |xs| ==> xs[i] != xs[j]
  }

  /** An edge that leaves an entry above s.stack ends at such an entry or in a finished component. */
  lemma EdgeStaysAbove(e: Edges, s: Search, t: Search, x: Dir, gray: set<Dir>, low: nat, done: seq<Dir>, u: Dir, v: Dir)
    requires Scanned(e, s, t, x, gray, low, done) && low == t.indices[x]
    requires u in t.stack[|s.stack|..] && (u, v) in e
    ensures v in t.stack[|s.stack|..] || IsPopped(t.sccs, v)
  {
    LeaveInnerBounds(e, s, t, x, gray, low, done);
    TargetIsVisited(e, s, t, x, gray, low, done, u, v);
    assert t.stack[|s.stack|] == x;
    if v in t.stack {
      NoEdgeBelow(e, t, |s.stack|, low, u, v);
    }
  }

  lemma NoEdgeBelow(e: Edges, t: Search, k: nat, low: nat, u: Dir, v: Dir)
    requires Numbered(t) && k < |t.stack| && low == t.indices[t.stack[k]]
    requires LowBounds(e, t, k, k, low)
    requires u in t.stack[k..] && v in t.stack && (u, v) in e
    ensures v in t.stack[k..]
  {
    var i :| k <= i < |t.stack| && t.stack[i] == u;
    var j :| 0 <= j < |t.stack| && t.stack[j] == v;
    if j >= k {
      assert v == t.stack[k..][j - k];
    }
  }

  lemma TargetIsVisited(e: Edges, s: Search, t: Search, x: Dir, gray: set<Dir>, low: nat, done: seq<Dir>, u: Dir,
      v: Dir)
    requires Scanned(e, s, t, x, gray, low, done)
    requires u in t.stack[|s.stack|..] && (u, v) in e
    ensures v in t.indices
  {
    hide Reach, Finished, Split, Covered, LowReached, LowBounds;
    if u in gray {
      AboveOrBelow(s, t, u);
    }
  }

  /** Every entry above s.stack reaches x. */
  lemma ReachesRoot(e: Edges, s: Search, t: Search, x: Dir, gray: set<Dir>, low: nat, done: seq<Dir>, y: Dir)
    requires Scanned(e, s, t, x, gray, low, done) && low == t.indices[x]
    requires y in t.stack[|s.stack|..]
    ensures Reach(e, y, x)
  {
    hide Reach;
    var above := set d | d in t.indices && (d in t.stack[|s.stack|..] || IsPopped(t.sccs, d));
    assert Covered(e, t, gray + {x}, y);
    var g :| g in gray + {x} && t.indices[g] <= t.indices[y] && Reach(e, y, g);
    AboveIsClosed(e, s, t, x, gray, low, done, above);
    ReachStaysIn(e, above, y, g);
    if g != x {
      assert g in s.stack && g in t.stack;
      AboveOrBelow(s, t, g);
    }
  }

  lemma AboveOrBelow(s: Search, t: Search, d: Dir)
    requires Numbered(t) && s.stack <= t.stack && d in s.stack
    ensures d !in t.stack[|s.stack|..]
  {
    var j :| 0 <= j < |s.stack| && s.stack[j] == d;
    assert t.stack[j] == d;
  }

  lemma AboveIsClosed(e: Edges, s: Search, t: Search, x: Dir, gray: set<Dir>, low: nat, done: seq<Dir>, above: set<Dir>)
    requires Scanned(e, s, t, x, gray, low, done) && low == t.indices[x]
    requires forall d :: d in above <==> d in t.indices && (d in t.stack[|s.stack|..] || IsPopped(t.sccs, d))
    ensures forall u, v :: u in above && (u, v) in e ==> v in above
  {
    forall u, v | u in above && (u, v) in e
      ensures v in above
    {
      if u in t.stack[|s.stack|..] {
        EdgeStaysAbove(e, s, t, x, gray, low, done, u, v);
      } else {
        PoppedIsClosed(e, t.sccs, u, v);
      }
    }
  }

  lemma PoppedIsClosed(e: Edges, sccs: seq<seq<Dir>>, u: Dir, v: Dir)
    requires Finished(e, sccs) && IsPopped(sccs, u) && (u, v) in e
    ensures IsPopped(sccs, v)
  {
    var i :| 0 <= i < |sccs| && u in sccs[i];
    assert IsPopped(sccs[..i + 1], v);
  }

  /** x is the root of its component: the entries above s.stack are exactly that component. */
  lemma LeaveRoot(e: Edges, s: Search, t: Search, x: Dir, gray: set<Dir>, low: nat, done: seq<Dir>, scc: seq<Dir>)
    requires Scanned(e, s, t, x, gray, low, done) && low == t.indices[x]
    requires NoRepeats(scc) && SameElements(scc, t.stack[|s.stack|..])
    ensures Inv(e, Closed(s, t, scc), gray) && Explored(e, s, Closed(s, t, scc), x, low)
  {
    var c := Closed(s, t, scc);
    assert x in scc && t.stack[|s.stack|] == x;
    ClosedIsNumbered(s, t, scc);
    ClosedIsSplit(s, t, scc);
    ClosedIsFinished(e, s, t, x, gray, low, done, scc);
    ClosedRuns(e, s, t, x, gray, scc);
    assert x !in c.stack;
  }

  lemma ClosedIsNumbered(s: Search, t: Search, scc: seq<Dir>)
    requires Numbered(t) && s.stack <= t.stack
    ensures Numbered(Closed(s, t, scc))
  {
    assert forall i :: 0 <= i < |s.stack| ==> s.stack[i] == t.stack[i];
    forall d | d in s.stack
      ensures d in t.indices
    {
      assert d in t.stack;
    }
  }

  lemma ClosedIsSplit(s: Search, t: Search, scc: seq<Dir>)
    requires Numbered(t) && Split(t) && s.stack <= t.stack
    requires SameElements(scc, t.stack[|s.stack|..])
    ensures Split(Closed(s, t, scc))
  {
    var c := Closed(s, t, scc);
    forall d
      ensures IsPopped(c.sccs, d) <==> IsPopped(t.sccs, d) || d in scc
    {
      PoppedAppend(t.sccs, scc, d);
    }
    forall d
      ensures d in t.stack <==> d in s.stack || d in scc
      ensures !(d in s.stack && d in scc)
    {
      assert t.stack == s.stack + t.stack[|s.stack|..];
      if d in s.stack {
        AboveOrBelow(s, t, d);
      }
    }
  }

  lemma PoppedAppend(sccs: seq<seq<Dir>>, scc: seq<Dir>, d: Dir)
    ensures IsPopped(sccs + [scc], d) <==> IsPopped(sccs, d) || d in scc
  {
    var all := sccs + [scc];
    if d in scc {
      assert all[|sccs|] == scc;
    }
    if IsPopped(sccs, d) {
      var i :| 0 <= i < |sccs| && d in sccs[i];
      assert all[i] == sccs[i];
    }
  }

  lemma ClosedRuns(e: Edges, s: Search, t: Search, x: Dir, gray: set<Dir>, scc: seq<Dir>)
    requires Numbered(s) && Running(e, s, gray) && Numbered(t) && Running(e, t, gray + {x}) && Extends(s, t)
    requires x !in s.indices && Numbered(Closed(s, t, scc))
    requires forall y :: (x, y) in e ==> y in t.indices
    ensures Running(e, Closed(s, t, scc), gray)
  {
    hide Reach;
    var c := Closed(s, t, scc);
    forall y | y in c.stack
      ensures Covered(e, c, gray, y)
    {
      assert Covered(e, s, gray, y);
    }
  }

  lemma ClosedIsFinished(e: Edges, s: Search, t: Search, x: Dir, gray: set<Dir>, low: nat, done: seq<Dir>,
      scc: seq<Dir>)
    requires Scanned(e, s, t, x, gray, low, done) && low == t.indices[x]
    requires NoRepeats(scc) && SameElements(scc, t.stack[|s.stack|..])
    ensures Finished(e, t.sccs + [scc])
  {
    hide Reach, Finished;
    forall u, v | u in scc && v in scc
      ensures Reach(e, u, v)
    {
      AboveIsConnected(e, s, t, x, gray, low, done, u, v);
    }
    forall u, v | u in scc && (u, v) in e
      ensures IsPopped(t.sccs + [scc], v)
    {
      EdgeStaysAbove(e, s, t, x, gray, low, done, u, v);
      PoppedAppend(t.sccs, scc, v);
    }
    assert x in scc by {
      assert x == t.stack[|s.stack|];
    }
    AppendFinished(e, t.sccs, scc);
  }

  lemma AboveIsConnected(e: Edges, s: Search, t: Search, x: Dir, gray: set<Dir>, low: nat, done: seq<Dir>, u: Dir,
      v: Dir)
    requires Scanned(e, s, t, x, gray, low, done) && low == t.indices[x]
    requires u in t.stack[|s.stack|..] && v in t.stack[|s.stack|..]
    ensures Reach(e, u, v)
  {
    ReachesRoot(e, s, t, x, gray, low, done, u);
    hide Reach, Finished, Split, LowBounds, LowReached, Covered;
    assert t.stack[|s.stack|] == x;
    assert Reach(e, x, v);
    ReachTrans(e, u, x, v);
  }

  lemma AppendFinished(e: Edges, sccs: seq<seq<Dir>>, scc: seq<Dir>)
    requires Finished(e, sccs)
    requires scc != [] && NoRepeats(scc) && forall d :: d in scc ==> !IsPopped(sccs, d)
    requires forall u, v :: u in scc && v in scc ==> Reach(e, u, v)
    requires forall u, v :: u in scc && (u, v) in e ==> IsPopped(sccs + [scc], v)
    ensures Finished(e, sccs + [scc])
  {
    hide Reach;
    var all := sccs + [scc];
    forall i, u, v | 0 <= i < |all| && u in all[i] && (u, v) in e
      ensures IsPopped(all[..i + 1], v)
    {
      if i < |sccs| {
        assert IsPopped(sccs[..i + 1], v);
        assert all[..i + 1] == sccs[..i + 1];
      } else {
        assert all[..i + 1] == all;
      }
    }
  }

  /** When no call is running, the components cover every visited directory. */
  lemma NothingLeft(e: Edges, s: Search)
    requires Inv(e, s, {})
    ensures s.stack == []
    ensures forall d :: d in s.indices <==> IsPopped(s.sccs, d)
  {
    assert s.stack != [] ==> Covered(e, s, {}, s.stack[0]);
  }

  /** In a finished list of components, sharing one is the same as reaching each other. */
  lemma ComponentsAreMutual(e: Edges, sccs: seq<seq<Dir>>, i: nat, u: Dir, v: Dir)
    requires Finished(e, sccs)
    requires i < |sccs| && u in sccs[i]
    ensures v in sccs[i] <==> Mutual(e, u, v)
  {
    hide Reach;
    if Reach(e, u, v) && Reach(e, v, u) {
      ReachesEarlier(e, sccs, i, u, v);
      var j :| 0 <= j <= i && v in sccs[j];
      ReachesEarlier(e, sccs, j, v, u);
    }
  }

  lemma ReachesEarlier(e: Edges, sccs: seq<seq<Dir>>, i: nat, u: Dir, v: Dir)
    requires Finished(e, sccs)
    requires i < |sccs| && u in sccs[i] && Reach(e, u, v)
    ensures exists j :: 0 <= j <= i && v in sccs[j]
  {
    hide Reach;
    var early := set j, d | 0 <= j <= i && d in sccs[j] :: d;
    forall a, b | a in early && (a, b) in e
      ensures b in early
    {
      var j :| 0 <= j <= i && a in sccs[j];
      assert IsPopped(sccs[..j + 1], b);
    }
    ReachStaysIn(e, early, u, v);
  }
}
