/** The graph of components: numbering of the directories by component, and the edges between components. */
module Condensation {
  import opened Reachability
  import opened SccInvariant
  import opened Tarjan

  /** A missing directory stands for the KeyError that looking it up raises. */
  datatype Result = Built(ids: map<Dir, nat>, edges: set<(nat, nat)>) | MissingDirectory

  /** Directories are numbered by the last component that lists them, counting from 1. */
  ghost predicate NumbersComponents(ids: map<Dir, nat>, sccs: seq<seq<Dir>>) {
    && (forall d :: d in ids <==> IsPopped(sccs, d))
    && (forall d :: d in ids ==> 1 <= ids[d] <= |sccs| && d in sccs[ids[d] - 1])
    && (forall d, j :: d in ids && ids[d] <= j < |sccs| ==> d !in sccs[j])
  }

  /** The edges between the components of dependent directories, self loops left out. */
  ghost predicate JoinsComponents(edges: set<(nat, nat)>, ids: map<Dir, nat>, pairs: set<(Dir, Dir)>) {
    && (forall p :: p in pairs && p.0 in ids && p.1 in ids && ids[p.0] != ids[p.1] ==> (ids[p.0], ids[p.1]) in edges)
    && (forall c :: c in edges ==> exists p :: p in pairs && Joins(c, ids, p))
  }

  ghost predicate Joins(c: (nat, nat), ids: map<Dir, nat>, p: (Dir, Dir)) {
    p.0 in ids && p.1 in ids && c == (ids[p.0], ids[p.1]) && ids[p.0] != ids[p.1]
  }

  ghost function DependentPairs(adj: Matrix): set<(Dir, Dir)> {
    set p | p in adj.Keys && adj[p]
  }

  method NumberComponents(sccs: seq<seq<Dir>>) returns (ids: map<Dir, nat>)
    ensures NumbersComponents(ids, sccs)
  {
    ids := map[];
    for i := 0 to |sccs|
      invariant NumbersComponents(ids, sccs[..i])
    {
      ghost var before := ids;
      var scc := sccs[i];
      for k := 0 to |scc|
        invariant forall d :: d in ids <==> d in before || d in scc[..k]
        invariant forall d :: d in ids ==> ids[d] == if d in scc[..k] then i + 1 else before[d]
      {
        assert scc[..k + 1] == scc[..k] + [scc[k]];
        ids := ids[scc[k] := i + 1];
      }
      assert scc[..|scc|] == scc;
      assert sccs[..i + 1] == sccs[..i] + [scc];
      forall d
        ensures d in ids <==> IsPopped(sccs[..i + 1], d)
      {
        PoppedAppend(sccs[..i], scc, d);
      }
    }
    assert sccs[..|sccs|] == sccs;
  }

  /** The numbering, spelled out: the number of a directory is the last place, from 1, of a list that has it. */
  lemma NumberingInFull(ids: map<Dir, nat>, sccs: seq<seq<Dir>>, d: Dir)
    requires NumbersComponents(ids, sccs)
    ensures d in ids ==> 1 <= ids[d] <= |sccs| && d in sccs[ids[d] - 1]
    ensures forall i :: 0 <= i < |sccs| && d in sccs[i] ==> d in ids && i + 1 <= ids[d]
  {
    if d !in ids {
      assert !IsPopped(sccs, d);
    }
  }

  method BuildCondensation(adj: Matrix, sccs: seq<seq<Dir>>) returns (r: Result)
    ensures r.MissingDirectory? <==>
              exists p :: p in DependentPairs(adj) && !(IsPopped(sccs, p.0) && IsPopped(sccs, p.1))
    ensures r.Built? ==> NumbersComponents(r.ids, sccs) && JoinsComponents(r.edges, r.ids, DependentPairs(adj))
  {
    var ids := NumberComponents(sccs);
    var edges: set<(nat, nat)> := {};
    var todo := adj.Keys;
    ghost var done: set<(Dir, Dir)> := {};
    while todo != {}
      invariant todo <= adj.Keys && done == DependentPairs(adj) - todo
      invariant forall p :: p in done ==> p.0 in ids && p.1 in ids
      invariant JoinsComponents(edges, ids, done)
      decreases todo
    {
      var p :| p in todo;
      ghost var before := done;
      todo := todo - {p};
      if adj[p] {
        if p.0 !in ids || p.1 !in ids {
          assert p in DependentPairs(adj);
          return MissingDirectory;
        }
        done := done + {p};
        ghost var oldEdges := edges;
        if ids[p.0] != ids[p.1] {
          edges := edges + {(ids[p.0], ids[p.1])};
        }
        AddPair(oldEdges, edges, ids, before, p);
      }
    }
    r := Built(ids, edges);
  }

  ghost predicate IsDependency(adj: Matrix, ids: map<Dir, nat>, u: Dir, v: Dir, a: nat, b: nat) {
    (u, v) in adj && adj[(u, v)] && u in ids && v in ids && ids[u] == a && ids[v] == b
  }

  /** Which edges the condensation has, spelled out on the matrix and the numbering. */
  lemma EdgesInFull(adj: Matrix, ids: map<Dir, nat>, edges: set<(nat, nat)>, a: nat, b: nat)
    requires JoinsComponents(edges, ids, DependentPairs(adj))
    ensures (a, b) in edges <==> a != b && exists u, v :: IsDependency(adj, ids, u, v, a, b)
  {
    if (a, b) in edges {
      var p :| p in DependentPairs(adj) && Joins((a, b), ids, p);
      assert p == (p.0, p.1) && IsDependency(adj, ids, p.0, p.1, a, b);
    }
    if u, v :| a != b && IsDependency(adj, ids, u, v, a, b) {
      assert (u, v) in DependentPairs(adj);
    }
  }

  lemma AddPair(oldEdges: set<(nat, nat)>, edges: set<(nat, nat)>, ids: map<Dir, nat>, pairs: set<(Dir, Dir)>,
      p: (Dir, Dir))
    requires JoinsComponents(oldEdges, ids, pairs) && p.0 in ids && p.1 in ids
    requires edges == if ids[p.0] != ids[p.1] then oldEdges + {(ids[p.0], ids[p.1])} else oldEdges
    ensures JoinsComponents(edges, ids, pairs + {p})
  {
    forall c | c in edges
      ensures exists q :: q in pairs + {p} && Joins(c, ids, q)
    {
      if c in oldEdges {
        var q :| q in pairs && Joins(c, ids, q);
        assert q in pairs + {p};
      } else {
        assert Joins(c, ids, p);
      }
    }
  }

  /** The decomposition, the numbering and the edges belong together, and no dependency leaves the list. */
  ghost predicate Condenses(adj: Matrix, dirs: seq<Dir>, sccs: seq<seq<Dir>>, ids: map<Dir, nat>, edges: set<(nat,
      nat)>) {
    && SccDecomposition(EdgesOf(adj, dirs), dirs, sccs)
    && NumbersComponents(ids, sccs)
    && JoinsComponents(edges, ids, DependentPairs(adj))
    && (forall p :: p in DependentPairs(adj) ==> p.0 in dirs && p.1 in dirs)
  }

  /** The two analyses chained: the condensation is built exactly when every dependency is between listed
      directories. */
  method Condense(adj: Matrix, dirs: seq<Dir>) returns (sccs: seq<seq<Dir>>, r: Result)
    ensures r.Built? <==> forall p :: p in DependentPairs(adj) ==> p.0 in dirs && p.1 in dirs
    ensures r.Built? ==> Condenses(adj, dirs, sccs, r.ids, r.edges)
  {
    hide Mutual;
    sccs := FindStronglyConnectedComponents(adj, dirs);
    r := BuildCondensation(adj, sccs);
  }

  /** An edge of the condensation comes from an edge of the graph. */
  lemma WitnessOf(adj: Matrix, dirs: seq<Dir>, sccs: seq<seq<Dir>>, ids: map<Dir, nat>, edges: set<(nat, nat)>,
      a: nat, b: nat)
      returns (u: Dir, v: Dir)
    requires Condenses(adj, dirs, sccs, ids, edges) && (a, b) in edges
    ensures u in ids && v in ids && ids[u] == a && ids[v] == b && a != b
    ensures (u, v) in EdgesOf(adj, dirs)
  {
    hide SccDecomposition, Reach;
    var p :| p in DependentPairs(adj) && Joins((a, b), ids, p);
    u, v := p.0, p.1;
    assert (u, v) == p;
  }

  /** Components are emitted in reverse topological order: every edge leads to a smaller number. */
  lemma EdgesGoDown(adj: Matrix, dirs: seq<Dir>, sccs: seq<seq<Dir>>, ids: map<Dir, nat>, edges: set<(nat, nat)>,
      a: nat, b: nat)
    requires Condenses(adj, dirs, sccs, ids, edges) && (a, b) in edges
    ensures b < a
  {
    hide Reach, JoinsComponents;
    var u, v := WitnessOf(adj, dirs, sccs, ids, edges, a, b);
    assert u in sccs[a - 1] && v in sccs[b - 1];
  }

  lemma {:induction false} PathsGoDown(adj: Matrix, dirs: seq<Dir>, sccs: seq<seq<Dir>>, ids: map<Dir, nat>,
      edges: set<(nat, nat)>, p: seq<nat>)
    requires Condenses(adj, dirs, sccs, ids, edges) && IsPath(edges, p)
    ensures p[|p| - 1] <= p[0] && (|p| > 1 ==> p[|p| - 1] < p[0])
  {
    hide Condenses;
    if |p| > 1 {
      assert Hop(edges, p, 0);
      EdgesGoDown(adj, dirs, sccs, ids, edges, p[0], p[1]);
      TailIsPath(edges, p);
      PathsGoDown(adj, dirs, sccs, ids, edges, p[1..]);
    }
  }

  /** The condensation has no cycle. */
  lemma CondensationIsAcyclic(adj: Matrix, dirs: seq<Dir>, sccs: seq<seq<Dir>>, ids: map<Dir, nat>, edges: set<(nat,
      nat)>, p: seq<nat>)
    requires Condenses(adj, dirs, sccs, ids, edges) && IsPath(edges, p) && |p| > 1
    ensures p[0] != p[|p| - 1]
  {
    hide Condenses, IsPath;
    PathsGoDown(adj, dirs, sccs, ids, edges, p);
  }

  /** One directory reaches another exactly when its component reaches the other's in the condensation. */
  lemma CondensationKeepsReach(adj: Matrix, dirs: seq<Dir>, sccs: seq<seq<Dir>>, ids: map<Dir, nat>, edges: set<(nat,
      nat)>, u: Dir, v: Dir)
    requires Condenses(adj, dirs, sccs, ids, edges)
    requires u in dirs && v in dirs
    ensures u in ids && v in ids
    ensures Reach(EdgesOf(adj, dirs), u, v) <==> Reach(edges, ids[u], ids[v])
  {
    hide JoinsComponents;
    var e := EdgesOf(adj, dirs);
    assert IsPopped(sccs, u) && IsPopped(sccs, v);
    if Reach(e, u, v) {
      var p :| PathFromTo(e, p, u, v);
      ProjectPath(adj, dirs, sccs, ids, edges, p);
    }
    if Reach(edges, ids[u], ids[v]) {
      var p :| PathFromTo(edges, p, ids[u], ids[v]);
      LiftPath(adj, dirs, sccs, ids, edges, p, u, v);
    }
  }

  lemma {:induction false} ProjectPath(adj: Matrix, dirs: seq<Dir>, sccs: seq<seq<Dir>>, ids: map<Dir, nat>,
      edges: set<(nat, nat)>, p: seq<Dir>)
    requires Condenses(adj, dirs, sccs, ids, edges)
    requires IsPath(EdgesOf(adj, dirs), p) && p[0] in ids && p[|p| - 1] in ids
    ensures Reach(edges, ids[p[0]], ids[p[|p| - 1]])
  {
    hide Reach, SccDecomposition;
    if |p| == 1 {
      ReachRefl(edges, ids[p[0]]);
    } else {
      assert Hop(EdgesOf(adj, dirs), p, 0);
      EdgeIsNumbered(adj, dirs, sccs, ids, edges, p[0], p[1]);
      if ids[p[0]] == ids[p[1]] {
        ReachRefl(edges, ids[p[0]]);
      } else {
        ReachEdge(edges, ids[p[0]], ids[p[1]]);
      }
      TailIsPath(EdgesOf(adj, dirs), p);
      ProjectPath(adj, dirs, sccs, ids, edges, p[1..]);
      ReachTrans(edges, ids[p[0]], ids[p[1]], ids[p[|p| - 1]]);
    }
  }

  lemma EdgeIsNumbered(adj: Matrix, dirs: seq<Dir>, sccs: seq<seq<Dir>>, ids: map<Dir, nat>, edges: set<(nat, nat)>,
      u: Dir, v: Dir)
    requires Condenses(adj, dirs, sccs, ids, edges) && (u, v) in EdgesOf(adj, dirs)
    ensures u in ids && v in ids
    ensures ids[u] != ids[v] ==> (ids[u], ids[v]) in edges
  {
    hide Reach;
    assert IsPopped(sccs, u) && IsPopped(sccs, v);
    assert (u, v) in DependentPairs(adj);
  }

  lemma SameNumberReaches(adj: Matrix, dirs: seq<Dir>, sccs: seq<seq<Dir>>, ids: map<Dir, nat>, edges: set<(nat,
      nat)>, u: Dir, v: Dir)
    requires Condenses(adj, dirs, sccs, ids, edges)
    requires u in ids && v in ids && ids[u] == ids[v]
    ensures Reach(EdgesOf(adj, dirs), u, v)
  {
    hide Reach, JoinsComponents;
    var i := ids[u] - 1;
    assert u in sccs[i] && v in sccs[i];
    assert Mutual(EdgesOf(adj, dirs), u, v);
  }

  lemma {:induction false} LiftPath(adj: Matrix, dirs: seq<Dir>, sccs: seq<seq<Dir>>, ids: map<Dir, nat>,
      edges: set<(nat, nat)>, p: seq<nat>, u: Dir, v: Dir)
    requires Condenses(adj, dirs, sccs, ids, edges)
    requires u in ids && v in ids && PathFromTo(edges, p, ids[u], ids[v])
    ensures Reach(EdgesOf(adj, dirs), u, v)
    decreases |p|
  {
    hide Reach, Condenses;
    var e := EdgesOf(adj, dirs);
    if |p| == 1 {
      SameNumberReaches(adj, dirs, sccs, ids, edges, u, v);
    } else {
      assert Hop(edges, p, 0);
      var a, b := WitnessOf(adj, dirs, sccs, ids, edges, p[0], p[1]);
      SameNumberReaches(adj, dirs, sccs, ids, edges, u, a);
      ReachEdge(e, a, b);
      ReachTrans(e, u, a, b);
      TailIsPath(edges, p);
      LiftPath(adj, dirs, sccs, ids, edges, p[1..], b, v);
      ReachTrans(e, u, b, v);
    }
  }
}
