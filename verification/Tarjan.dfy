/**
 The recursive search for strongly connected components: the dictionaries, the stack and the
 counter that the nested function updates are the fields of a class.
 */
module Tarjan {
  import opened Reachability
  import opened SccInvariant

  type Matrix = map<(Dir, Dir), bool>

  /** The entry for a pair, or false when the matrix has none. */
  predicate Depends(adj: Matrix, u: Dir, v: Dir) {
    (u, v) in adj && adj[(u, v)]
  }

  function Min(a: nat, b: nat): (m: nat)
    ensures m <= a && m <= b && (m == a || m == b)
  {
    if b < a then b else a
  }

  /** The dependencies between two different listed directories. */
  ghost function EdgesOf(adj: Matrix, dirs: seq<Dir>): Edges {
    set p | p in adj.Keys && adj[p] && p.0 in dirs && p.1 in dirs && p.0 != p.1
  }

  class SccFinder {
    const adj: Matrix
    const dirs: seq<Dir>
    var index: nat
    var indices: map<Dir, nat>
    var lowlink: map<Dir, nat>
    var stack: seq<Dir>
    var onStack: set<Dir>
    var sccs: seq<seq<Dir>>

    constructor (adj: Matrix, dirs: seq<Dir>)
      ensures this.adj == adj && this.dirs == dirs
      ensures View() == Search(0, map[], [], []) && lowlink == map[] && onStack == {}
    {
      this.adj, this.dirs := adj, dirs;
      index, indices, lowlink, stack, onStack, sccs := 0, map[], map[], [], {}, [];
    }

    function View(): Search
      reads this
    {
      Search(index, indices, stack, sccs)
    }

    /** on_stack is the set of stack entries, and every visited directory has a lowlink. */
    ghost predicate Valid()
      reads this
    {
      && (forall d :: d in onStack <==> d in stack)
      && lowlink.Keys == indices.Keys
      && (forall d :: d in indices ==> d in dirs)
    }

    ghost function E(): Edges {
      EdgesOf(adj, dirs)
    }

    /** The entries from position k up, popped one by one into a new component that ends with the root. */
    method PopComponent(root: Dir, ghost k: nat)
      requires k < |stack| && stack[k] == root
      requires forall d :: d in onStack <==> d in stack
      requires NoRepeats(stack)
      modifies this`stack, this`onStack, this`sccs
      ensures stack == old(stack)[..k] && (forall d :: d in onStack <==> d in stack)
      ensures |sccs| == |old(sccs)| + 1 && sccs[..|old(sccs)|] == old(sccs)
      ensures var scc := sccs[|old(sccs)|];
              |scc| == |old(stack)| - k && forall i :: 0 <= i < |scc| ==> scc[i] == old(stack)[|old(stack)| - 1 - i]
    {
      var scc := [];
      ghost var all := stack;
      while true
        invariant k < |stack| <= |all| && stack == all[..|stack|]
        invariant forall d :: d in onStack <==> d in stack
        invariant |scc| == |all| - |stack|
        invariant forall i :: 0 <= i < |scc| ==> scc[i] == all[|all| - 1 - i]
        invariant sccs == old(sccs)
        decreases |stack|
      {
        var w := stack[|stack| - 1];
        ghost var before := stack;
        stack := stack[..|stack| - 1];
        assert forall d :: d in before <==> d in stack || d == w;
        onStack := onStack - {w};
        scc := scc + [w];
        if w == root {
          break;
        }
      }
      sccs := sccs + [scc];
    }

    ghost function Unvisited(): set<Dir>
      reads this
    {
      set d | d in dirs && d !in indices
    }

    /** The lowlinks recorded in before are still there. */
    ghost predicate KeepsLowlinks(before: map<Dir, nat>)
      reads this
    {
      forall d :: d in before ==> d in lowlink && lowlink[d] == before[d]
    }

    /** Numbers curr and pushes it. */
    method Enter(curr: Dir)
      requires Valid() && curr in dirs && curr !in indices
      modifies this
      ensures Valid() && View() == Entered(old(View()), curr)
      ensures lowlink == old(lowlink)[curr := old(index)] && KeepsLowlinks(old(lowlink))
      ensures curr !in old(lowlink)
      ensures indices == old(indices)[curr := old(index)] && index == old(index) + 1
      ensures stack == old(stack) + [curr] && onStack == old(onStack) + {curr} && sccs == old(sccs)
    {
      indices := indices[curr := index];
      lowlink := lowlink[curr := index];
      index := index + 1;
      stack := stack + [curr];
      onStack := onStack + {curr};
    }

    /** Visits curr; gray are the directories whose calls are running. */
    method StrongConnect(curr: Dir, ghost gray: set<Dir>)
      requires Valid() && Inv(E(), View(), gray)
      requires curr in dirs && curr !in indices
      requires forall g :: g in gray ==> Reach(E(), g, curr)
      modifies this
      ensures Valid() && Inv(E(), View(), gray)
      ensures curr in lowlink && Explored(E(), old(View()), View(), curr, lowlink[curr])
      ensures KeepsLowlinks(old(lowlink))
      decreases Unvisited(), 0
    {
      hide Reach, Inv, Explored, Scanning, Scanned, EdgesOf, Depends, Valid;
      ghost var s := View();
      EnterScans(E(), s, curr, gray);
      Enter(curr);
      assert dirs[..0] == [];
      for i := 0 to |dirs|
        invariant Valid() && curr in lowlink && KeepsLowlinks(old(lowlink))
        invariant Scanning(E(), s, View(), curr, gray, lowlink[curr], dirs[..i])
      {
        UnvisitedShrinks(s, curr, gray, dirs[..i]);
        LookAt(curr, dirs[i], s, gray, dirs[..i]);
        assert dirs[..i + 1] == dirs[..i] + [dirs[i]];
      }
      assert dirs[..|dirs|] == dirs;
      AllAreScanned(curr, s, gray);
      Leave(curr, s, gray);
    }

    /** One step of the loop over the directories in the call on curr, which was entered in state s. */
    method LookAt(curr: Dir, neighbor: Dir, ghost s: Search, ghost gray: set<Dir>, ghost done: seq<Dir>)
      requires Valid() && curr in lowlink && curr in dirs && neighbor in dirs
      requires Inv(E(), s, gray) && Scanning(E(), s, View(), curr, gray, lowlink[curr], done)
      requires forall g :: g in gray ==> Reach(E(), g, curr)
      modifies this
      ensures Valid() && curr in lowlink
      ensures Scanning(E(), s, View(), curr, gray, lowlink[curr], done + [neighbor])
      ensures forall d :: d in old(lowlink) && d != curr ==> d in lowlink && lowlink[d] == old(lowlink[d])
      ensures lowlink[curr] ==
        if curr == neighbor || !Depends(adj, curr, neighbor) then old(lowlink)[curr]
        else if neighbor !in old(indices) then
          (if neighbor in lowlink then Min(old(lowlink)[curr], lowlink[neighbor]) else old(lowlink)[curr])
        else if neighbor in old(onStack) then Min(old(lowlink)[curr], old(indices)[neighbor])
        else old(lowlink)[curr]
      decreases Unvisited(), 1
    {
      hide Reach, Numbered, Split, Finished, Running, LowReached, LowBounds;
      ghost var t, low := View(), lowlink[curr];
      if curr == neighbor || !Depends(adj, curr, neighbor) {
        SkipScans(E(), s, t, curr, gray, low, done, neighbor);
      } else if neighbor !in indices {
        GrayReachesNeighbour(t, curr, gray, neighbor);
        StrongConnect(neighbor, gray + {curr});
        if lowlink[neighbor] < lowlink[curr] {
          lowlink := lowlink[curr := lowlink[neighbor]];
        }
        RecurseScans(E(), s, t, View(), curr, gray, low, done, neighbor, lowlink[neighbor], lowlink[curr]);
      } else if neighbor in onStack {
        if indices[neighbor] < lowlink[curr] {
          lowlink := lowlink[curr := indices[neighbor]];
        }
        SeenScans(E(), s, t, curr, gray, low, done, neighbor, lowlink[curr]);
      } else {
        OffStackIsPopped(t, neighbor);
        SkipScans(E(), s, t, curr, gray, low, done, neighbor);
      }
    }

    /** The end of the call on curr: a root pops its component. */
    method Leave(curr: Dir, ghost s: Search, ghost gray: set<Dir>)
      requires Valid() && curr in lowlink && Scanned(E(), s, View(), curr, gray, lowlink[curr], dirs)
      modifies this`stack, this`onStack, this`sccs
      ensures Valid() && Inv(E(), View(), gray) && Explored(E(), s, View(), curr, lowlink[curr])
      ensures old(lowlink[curr] != indices[curr]) ==> stack == old(stack) && sccs == old(sccs)
      ensures old(lowlink[curr] == indices[curr]) ==>
        && stack == s.stack && |sccs| == |old(sccs)| + 1 && sccs[..|old(sccs)|] == old(sccs)
        && SameElements(sccs[|old(sccs)|], old(stack)[|s.stack|..])
    {
      hide Reach, Scanned, Inv, Explored, NoRepeats, SameElements;
      ghost var t, low := View(), lowlink[curr];
      ScannedStack(s, t, curr, gray, low);
      if lowlink[curr] == indices[curr] {
        PopComponent(curr, |s.stack|);
        PoppedComponent(t.stack, |s.stack|, sccs[|t.sccs|]);
        LeaveRoot(E(), s, t, curr, gray, low, dirs, sccs[|t.sccs|]);
        assert View() == Closed(s, t, sccs[|t.sccs|]);
      } else {
        LeaveInner(E(), s, t, curr, gray, low, dirs);
      }
    }

    lemma AllAreScanned(curr: Dir, s: Search, gray: set<Dir>)
      requires curr in lowlink && Inv(E(), s, gray) && Scanning(E(), s, View(), curr, gray, lowlink[curr], dirs)
      ensures Scanned(E(), s, View(), curr, gray, lowlink[curr], dirs)
    {
      hide Reach, Inv, Scanning;
    }

    lemma UnvisitedShrinks(s: Search, curr: Dir, gray: set<Dir>, done: seq<Dir>)
      requires curr in lowlink && Scanning(E(), s, View(), curr, gray, lowlink[curr], done)
      requires curr in dirs
      ensures Unvisited() < set d | d in dirs && d !in s.indices
    {
      hide Reach, Split, Finished, Running, LowReached, LowBounds;
      assert View().stack[|s.stack|] == curr;
      assert curr !in Unvisited();
    }

    lemma OffStackIsPopped(t: Search, d: Dir)
      requires Split(t) && d in t.indices && d !in t.stack
      ensures IsPopped(t.sccs, d)
    {}

    lemma ScannedStack(s: Search, t: Search, curr: Dir, gray: set<Dir>, low: nat)
      requires Scanned(E(), s, t, curr, gray, low, dirs)
      ensures NoRepeats(t.stack) && s.stack + [curr] <= t.stack && t.stack[|s.stack|] == curr
      ensures curr in t.indices && low <= t.indices[curr]
    {
      hide Reach, Split, Finished, Running, LowReached, LowBounds;
    }

    /** A stack segment read backwards has the same elements, each once. */
    lemma PoppedComponent(stack: seq<Dir>, k: nat, scc: seq<Dir>)
      requires NoRepeats(stack) && k <= |stack| && |scc| == |stack| - k
      requires forall i :: 0 <= i < |scc| ==> scc[i] == stack[|stack| - 1 - i]
      ensures NoRepeats(scc) && SameElements(scc, stack[k..])
    {
      forall d | d in stack[k..]
        ensures d in scc
      {
        var j :| 0 <= j < |stack[k..]| && stack[k..][j] == d;
        assert scc[|scc| - 1 - j] == d;
      }
    }

    lemma GrayReachesNeighbour(t: Search, curr: Dir, gray: set<Dir>, n: Dir)
      requires forall g :: g in gray ==> Reach(E(), g, curr)
      requires (curr, n) in E()
      ensures forall g :: g in gray + {curr} ==> Reach(E(), g, n)
    {
      ReachEdge(E(), curr, n);
      forall g | g in gray
        ensures Reach(E(), g, n)
      {
        ReachTrans(E(), g, curr, n);
      }
    }
  }

  /** The lists are non-empty, together hold every listed directory once and nothing else, two
      directories share a list exactly when each reaches the other, and every edge stays in its
      list or leads to an earlier one. */
  ghost predicate SccDecomposition(e: Edges, dirs: seq<Dir>, sccs: seq<seq<Dir>>) {
    && Disjoint(sccs)
    && (forall i :: 0 <= i < |sccs| ==> sccs[i] != [])
    && (forall d :: d in dirs <==> IsPopped(sccs, d))
    && (forall i, u, v :: 0 <= i < |sccs| && u in sccs[i] ==> (v in sccs[i] <==> Mutual(e, u, v)))
    && (forall i, j, u, v :: 0 <= i < |sccs| && 0 <= j < |sccs| && u in sccs[i] && v in sccs[j] && (u, v) in e ==>
      j <= i)
  }

  method FindStronglyConnectedComponents(adj: Matrix, dirs: seq<Dir>) returns (sccs: seq<seq<Dir>>)
    ensures SccDecomposition(EdgesOf(adj, dirs), dirs, sccs)
  {
    hide Reach, Finished, Running;
    var finder := new SccFinder(adj, dirs);
    NothingVisited(finder.E());
    for i := 0 to |dirs|
      invariant finder.adj == adj && finder.dirs == dirs
      invariant finder.Valid() && Inv(finder.E(), finder.View(), {})
      invariant forall d :: d in dirs[..i] ==> d in finder.indices
    {
      var node := dirs[i];
      if node !in finder.indices {
        finder.StrongConnect(node, {});
      }
      assert dirs[..i + 1] == dirs[..i] + [node];
    }
    assert dirs[..|dirs|] == dirs;
    sccs := finder.sccs;
    NothingLeft(finder.E(), finder.View());
    FinishedDecomposes(finder.E(), dirs, sccs);
  }

  /** The decomposition, spelled out on the matrix and the lists. */
  lemma DecompositionInFull(adj: Matrix, dirs: seq<Dir>, sccs: seq<seq<Dir>>)
    requires SccDecomposition(EdgesOf(adj, dirs), dirs, sccs)
    ensures forall i, a, b :: 0 <= i < |sccs| && 0 <= a < b < |sccs[i]| ==> sccs[i][a] != sccs[i][b]
    ensures forall i, j, d :: 0 <= i < j < |sccs| && d in sccs[i] ==> d !in sccs[j]
    ensures forall i :: 0 <= i < |sccs| ==> sccs[i] != []
    ensures forall d :: d in dirs <==> exists i :: 0 <= i < |sccs| && d in sccs[i]
    ensures forall i, u, v :: 0 <= i < |sccs| && u in sccs[i] ==>
      (v in sccs[i] <==> Reach(EdgesOf(adj, dirs), u, v) && Reach(EdgesOf(adj, dirs), v, u))
    ensures forall i, j, u, v :: (0 <= i < j < |sccs| && u in sccs[i] && v in sccs[j]) ==>
      !((u, v) in adj && adj[(u, v)])
  {
    hide Reach;
    forall d
      ensures d in dirs <==> exists i :: 0 <= i < |sccs| && d in sccs[i]
    {
      assert IsPopped(sccs, d) <==> exists i :: 0 <= i < |sccs| && d in sccs[i];
    }
    forall i, u, v | 0 <= i < |sccs| && u in sccs[i]
      ensures v in sccs[i] <==> Reach(EdgesOf(adj, dirs), u, v) && Reach(EdgesOf(adj, dirs), v, u)
    {
      assert v in sccs[i] <==> Mutual(EdgesOf(adj, dirs), u, v);
    }
    forall i, j, u, v | 0 <= i < j < |sccs| && u in sccs[i] && v in sccs[j]
      ensures !((u, v) in adj && adj[(u, v)])
    {
      assert IsPopped(sccs, u) && IsPopped(sccs, v);
      EdgeMeans(adj, dirs, u, v);
    }
  }

  lemma EdgeMeans(adj: Matrix, dirs: seq<Dir>, u: Dir, v: Dir)
    ensures (u, v) in EdgesOf(adj, dirs) <==> (u, v) in adj && adj[(u, v)] && u in dirs && v in dirs && u != v
  {}

  lemma NothingVisited(e: Edges)
    ensures Inv(e, Search(0, map[], [], []), {})
  {}

  lemma FinishedDecomposes(e: Edges, dirs: seq<Dir>, sccs: seq<seq<Dir>>)
    requires Finished(e, sccs) && forall d :: d in dirs <==> IsPopped(sccs, d)
    ensures SccDecomposition(e, dirs, sccs)
  {
    hide Reach, Mutual;
    forall i, u, v | 0 <= i < |sccs| && u in sccs[i]
      ensures v in sccs[i] <==> Mutual(e, u, v)
    {
      ComponentsAreMutual(e, sccs, i, u, v);
    }
    forall i, j, u, v | 0 <= i < |sccs| && 0 <= j < |sccs| && u in sccs[i] && v in sccs[j] && (u, v) in e
      ensures j <= i
    {
      assert IsPopped(sccs[..i + 1], v);
    }
  }
}
