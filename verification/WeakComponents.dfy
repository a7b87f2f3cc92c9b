/** Weakly connected components, found by a breadth-first search of the undirected view of the graph. */
module WeakComponents {
  import opened Reachability
  import opened SccInvariant
  import opened Tarjan

  /** Every dependency in both directions; its ends need not be listed directories. */
  ghost function Undirected(adj: Matrix): Edges {
    set p | p in adj.Keys + Swapped(adj.Keys) && (Depends(adj, p.0, p.1) || Depends(adj, p.1, p.0))
  }

  ghost function Swapped(pairs: Edges): Edges {
    set p | p in pairs :: (p.1, p.0)
  }

  lemma InUndirected(adj: Matrix, u: Dir, v: Dir)
    ensures (u, v) in Undirected(adj) <==> ((u, v) in adj && adj[(u, v)]) || ((v, u) in adj && adj[(v, u)])
    ensures (u, v) in Undirected(adj) <==> (v, u) in Undirected(adj)
  {
    if Depends(adj, v, u) {
      assert (v, u) in adj.Keys;
      assert (u, v) in Swapped(adj.Keys);
    }
    if Depends(adj, u, v) {
      assert (u, v) in adj.Keys;
      assert (v, u) in Swapped(adj.Keys);
    }
  }

  function Neighbours(view: map<Dir, set<Dir>>, u: Dir): set<Dir> {
    if u in view then view[u] else {}
  }

  ghost predicate IsUndirectedView(adj: Matrix, pairs: set<(Dir, Dir)>, view: map<Dir, set<Dir>>) {
    forall u, v :: v in Neighbours(view, u) <==>
      ((u, v) in pairs && Depends(adj, u, v)) || ((v, u) in pairs && Depends(adj, v, u))
  }

  method BuildUndirected(adj: Matrix) returns (view: map<Dir, set<Dir>>)
    ensures forall u, v :: v in Neighbours(view, u) <==> (u, v) in Undirected(adj)
  {
    view := map[];
    var todo := adj.Keys;
    while todo != {}
      invariant todo <= adj.Keys
      invariant IsUndirectedView(adj, adj.Keys - todo, view)
      decreases todo
    {
      var p :| p in todo;
      ghost var before, pairs := view, adj.Keys - todo;
      todo := todo - {p};
      if adj[p] {
        view := view[p.0 := Neighbours(view, p.0) + {p.1}];
        view := view[p.1 := Neighbours(view, p.1) + {p.0}];
      }
      AddUndirected(adj, pairs, before, p, view);
      assert adj.Keys - todo == pairs + {p};
    }
    forall u, v
      ensures v in Neighbours(view, u) <==> (u, v) in Undirected(adj)
    {
      InUndirected(adj, u, v);
      assert adj.Keys - todo == adj.Keys;
    }
  }

  lemma AddUndirected(adj: Matrix, pairs: set<(Dir, Dir)>, before: map<Dir, set<Dir>>, p: (Dir, Dir), view: map<Dir,
      set<Dir>>)
    requires IsUndirectedView(adj, pairs, before) && p in adj
    requires !adj[p] ==> view == before
    requires adj[p] ==> var mid := before[p.0 := Neighbours(before, p.0) + {p.1}];
                        view == mid[p.1 := Neighbours(mid, p.1) + {p.0}]
    ensures IsUndirectedView(adj, pairs + {p}, view)
  {
    assert p == (p.0, p.1);
    forall u, v
      ensures v in Neighbours(view, u) <==>
                ((u, v) in pairs + {p} && Depends(adj, u, v)) || ((v, u) in pairs + {p} && Depends(adj, v, u))
    {
      assert v in Neighbours(before, u) <==>
          ((u, v) in pairs && Depends(adj, u, v)) || ((v, u) in pairs && Depends(adj, v, u));
      if adj[p] {
        assert v in Neighbours(view, u) <==> v in Neighbours(before, u) || (u, v) == p || (v, u) == p;
      }
    }
  }

  /** No edge leaves the set. */
  ghost predicate IsClosed(e: Edges, s: set<Dir>) {
    forall u, v :: u in s && (u, v) in e ==> v in s
  }

  /** The state of one search from root: queue and component hold what the search has visited,
      and the neighbours of the component are visited, except those of curr that are still to do. */
  ghost predicate Searching(e: Edges, before: set<Dir>, visited: set<Dir>, root: Dir, component: seq<Dir>,
      queue: seq<Dir>,
                            curr: Dir, todo: set<Dir>) {
    && (forall d :: d in visited <==> d in before || d in component + queue)
    && NoRepeats(component + queue)
    && (forall d :: d in component + queue ==> d !in before && Reach(e, root, d))
    && (forall u, v :: u in component && (u, v) in e ==> v in visited || (u == curr && v in todo))
    && component + queue != [] && (component + queue)[0] == root
  }

  lemma StartSearch(e: Edges, before: set<Dir>, root: Dir)
    requires root !in before
    ensures Searching(e, before, before + {root}, root, [], [root], root, {})
  {
    ReachRefl(e, root);
  }

  lemma TakeFromQueue(e: Edges, before: set<Dir>, visited: set<Dir>, root: Dir, component: seq<Dir>, queue: seq<Dir>,
                      curr: Dir, todo: set<Dir>)
    requires Searching(e, before, visited, root, component, queue, curr, {}) && queue != []
    requires forall v :: v in todo <==> (queue[0], v) in e
    ensures Searching(e, before, visited, root, component + [queue[0]], queue[1..], queue[0], todo)
    ensures queue[0] !in component
  {
    hide Reach;
    assert component + [queue[0]] + queue[1..] == component + queue;
    assert (component + queue)[|component|] == queue[0];
    forall u, v | u in component + [queue[0]] && (u, v) in e
      ensures v in visited || (u == queue[0] && v in todo)
    {}
    forall i | 0 <= i < |component|
      ensures component[i] != queue[0]
    {
      assert (component + queue)[i] != (component + queue)[|component|];
    }
  }

  lemma Enqueue(e: Edges, before: set<Dir>, visited: set<Dir>, root: Dir, component: seq<Dir>, queue: seq<Dir>,
                curr: Dir, todo: set<Dir>, n: Dir)
    requires Searching(e, before, visited, root, component, queue, curr, todo)
    requires n in todo && n !in visited && curr in component && (curr, n) in e
    ensures Searching(e, before, visited + {n}, root, component, queue + [n], curr, todo - {n})
  {
    hide Reach;
    ReachEdge(e, curr, n);
    assert curr in component + queue;
    ReachTrans(e, root, curr, n);
    var oldAll, all := component + queue, component + (queue + [n]);
    assert all == oldAll + [n];
    assert forall d :: d in all <==> d in oldAll || d == n;
  }

  /** Every directory that dirs or the matrix mentions. */
  ghost function Universe(adj: Matrix, dirs: seq<Dir>): set<Dir> {
    (set d | d in dirs) + (set p | p in adj.Keys :: p.0) + (set p | p in adj.Keys :: p.1)
  }

  lemma InUniverse(adj: Matrix, dirs: seq<Dir>, root: Dir, d: Dir)
    requires root in dirs && Reach(Undirected(adj), root, d)
    ensures d in Universe(adj, dirs)
  {
    hide Reach;
    forall u, v | (u, v) in Undirected(adj)
      ensures v in Universe(adj, dirs)
    {
      assert (u, v) in adj.Keys || (v, u) in adj.Keys by {
        InUndirected(adj, u, v);
      }
      assert (u, v).1 == v && (v, u).0 == v;
    }
    ReachStaysIn(Undirected(adj), Universe(adj, dirs), root, d);
  }

  /** When the queue is empty, the component is everything that root reaches. */
  lemma ComponentIsComplete(adj: Matrix, before: set<Dir>, visited: set<Dir>, root: Dir, component: seq<Dir>, curr: Dir)
    requires Searching(Undirected(adj), before, visited, root, component, [], curr, {})
    requires IsClosed(Undirected(adj), before)
    ensures forall d :: d in component <==> Reach(Undirected(adj), root, d)
    ensures IsClosed(Undirected(adj), visited)
  {
    hide Reach, Undirected;
    var e := Undirected(adj);
    assert component + [] == component;
    var all := set d | d in component;
    forall u, v | u in all && (u, v) in e
      ensures v in all
    {
      InUndirected(adj, u, v);
      assert v !in before;
    }
    forall d | Reach(e, root, d)
      ensures d in component
    {
      ReachStaysIn(e, all, root, d);
    }
  }

  /** Everything reachable from a component is in it, and everything in it is mutually reachable. */
  ghost predicate WeakDecomposition(e: Edges, dirs: seq<Dir>, wccs: seq<seq<Dir>>) {
    && Disjoint(wccs)
    && (forall i :: 0 <= i < |wccs| ==> wccs[i] != [] && wccs[i][0] in dirs)
    && (forall d :: d in dirs ==> IsPopped(wccs, d))
    && (forall i, u, v :: 0 <= i < |wccs| && u in wccs[i] ==> (v in wccs[i] <==> Reach(e, u, v)))
  }

  /** The breadth-first search from root, a directory that is not visited yet. */
  method Explore(adj: Matrix, view: map<Dir, set<Dir>>, dirs: seq<Dir>, root: Dir, visited: set<Dir>)
      returns (component: seq<Dir>, visited': set<Dir>)
    requires forall u, v :: v in Neighbours(view, u) <==> (u, v) in Undirected(adj)
    requires root in dirs && root !in visited && IsClosed(Undirected(adj), visited)
    ensures component != [] && component[0] == root && NoRepeats(component)
    ensures forall d :: d in component <==> Reach(Undirected(adj), root, d)
    ensures forall d :: d in visited' <==> d in visited || d in component
    ensures forall d :: d in component ==> d !in visited
    ensures IsClosed(Undirected(adj), visited')
  {
    hide Reach, Undirected, NoRepeats, Searching, Universe;
    component := [];
    var queue := [root];
    visited' := visited + {root};
    ghost var curr := root;
    StartSearch(Undirected(adj), visited, root);
    while queue != []
      invariant Searching(Undirected(adj), visited, visited', root, component, queue, curr, {})
      decreases Universe(adj, dirs) - (set d | d in component)
    {
      ghost var taken := set d | d in component;
      var next := queue[0];
      var todo := Neighbours(view, next);
      NextIsNew(adj, dirs, visited, visited', root, component, queue, curr);
      TakeFromQueue(Undirected(adj), visited, visited', root, component, queue, curr, todo);
      curr := next;
      queue := queue[1..];
      component := component + [next];
      ghost var grown := component;
      assert next in grown;
      while todo != {}
        invariant Searching(Undirected(adj), visited, visited', root, component, queue, curr, todo)
        invariant component == grown
        invariant forall v :: v in todo ==> (curr, v) in Undirected(adj)
        decreases todo
      {
        var neighbor :| neighbor in todo;
        if neighbor !in visited' {
          Enqueue(Undirected(adj), visited, visited', root, component, queue, curr, todo, neighbor);
          visited' := visited' + {neighbor};
          queue := queue + [neighbor];
        } else {
          SkipVisited(Undirected(adj), visited, visited', root, component, queue, curr, todo, neighbor);
        }
        todo := todo - {neighbor};
      }
      assert (set d | d in component) == taken + {next};
    }
    ComponentIsComplete(adj, visited, visited', root, component, curr);
    SearchIsOver(Undirected(adj), visited, visited', root, component, curr);
  }

  lemma SkipVisited(e: Edges, before: set<Dir>, visited: set<Dir>, root: Dir, component: seq<Dir>, queue: seq<Dir>,
                    curr: Dir, todo: set<Dir>, n: Dir)
    requires Searching(e, before, visited, root, component, queue, curr, todo) && n in visited
    ensures Searching(e, before, visited, root, component, queue, curr, todo - {n})
  {
    hide Reach, NoRepeats;
  }

  lemma NextIsNew(adj: Matrix, dirs: seq<Dir>, before: set<Dir>, visited: set<Dir>, root: Dir, component: seq<Dir>,
      queue: seq<Dir>, curr: Dir)
    requires Searching(Undirected(adj), before, visited, root, component, queue, curr, {}) && queue != []
    requires root in dirs
    ensures queue[0] in Universe(adj, dirs)
  {
    hide Reach, NoRepeats;
    assert (component + queue)[|component|] == queue[0];
    InUniverse(adj, dirs, root, queue[0]);
  }

  lemma SearchIsOver(e: Edges, before: set<Dir>, visited: set<Dir>, root: Dir, component: seq<Dir>, curr: Dir)
    requires Searching(e, before, visited, root, component, [], curr, {})
    ensures component != [] && component[0] == root && NoRepeats(component)
    ensures forall d :: d in visited <==> d in before || d in component
    ensures forall d :: d in component ==> d !in before
  {
    hide Reach;
    assert component + [] == component;
  }

  method FindWeaklyConnectedComponents(adj: Matrix, dirs: seq<Dir>) returns (wccs: seq<seq<Dir>>)
    ensures WeakDecomposition(Undirected(adj), dirs, wccs)
  {
    hide Reach, Undirected;
    var view := BuildUndirected(adj);
    var visited: set<Dir> := {};
    wccs := [];
    for i := 0 to |dirs|
      invariant WeakDecomposition(Undirected(adj), dirs[..i], wccs)
      invariant forall d :: d in visited <==> IsPopped(wccs, d)
      invariant IsClosed(Undirected(adj), visited)
    {
      var node := dirs[i];
      assert dirs[..i + 1] == dirs[..i] + [node];
      if node !in visited {
        var component;
        ghost var before := visited;
        component, visited := Explore(adj, view, dirs, node, visited);
        AppendComponent(adj, dirs[..i], node, wccs, component);
        wccs := wccs + [component];
      }
    }
    assert dirs[..|dirs|] == dirs;
  }

  /** The decomposition, spelled out on the lists. */
  lemma WeakDecompositionInFull(e: Edges, dirs: seq<Dir>, wccs: seq<seq<Dir>>)
    requires WeakDecomposition(e, dirs, wccs)
    ensures forall i, a, b :: 0 <= i < |wccs| && 0 <= a < b < |wccs[i]| ==> wccs[i][a] != wccs[i][b]
    ensures forall i, j, d :: 0 <= i < j < |wccs| && d in wccs[i] ==> d !in wccs[j]
    ensures forall i :: 0 <= i < |wccs| ==> wccs[i] != [] && wccs[i][0] in dirs
    ensures forall d :: d in dirs ==> exists i :: 0 <= i < |wccs| && d in wccs[i]
    ensures forall i, u, v :: 0 <= i < |wccs| && u in wccs[i] ==> (v in wccs[i] <==> Reach(e, u, v))
  {
    hide Reach;
    forall d | d in dirs
      ensures exists i :: 0 <= i < |wccs| && d in wccs[i]
    {
      assert IsPopped(wccs, d);
    }
  }

  lemma AppendComponent(adj: Matrix, dirs: seq<Dir>, root: Dir, wccs: seq<seq<Dir>>, component: seq<Dir>)
    requires WeakDecomposition(Undirected(adj), dirs, wccs)
    requires component != [] && component[0] == root && NoRepeats(component)
    requires forall d :: d in component <==> Reach(Undirected(adj), root, d)
    requires forall d :: d in component ==> !IsPopped(wccs, d)
    ensures WeakDecomposition(Undirected(adj), dirs + [root], wccs + [component])
    ensures forall d :: IsPopped(wccs + [component], d) <==> IsPopped(wccs, d) || d in component
  {
    hide Reach, Undirected;
    var e, all := Undirected(adj), wccs + [component];
    forall d
      ensures IsPopped(all, d) <==> IsPopped(wccs, d) || d in component
    {
      PoppedAppend(wccs, component, d);
    }
    forall u, v | u in component
      ensures v in component <==> Reach(e, u, v)
    {
      ReachIsSymmetric(adj, root, u);
      if Reach(e, root, v) {
        ReachTrans(e, u, root, v);
      }
      if Reach(e, u, v) {
        ReachTrans(e, root, u, v);
      }
    }
  }

  lemma ReachIsSymmetric(adj: Matrix, u: Dir, v: Dir)
    requires Reach(Undirected(adj), u, v)
    ensures Reach(Undirected(adj), v, u)
  {
    hide Undirected;
    var p :| PathFromTo(Undirected(adj), p, u, v);
    ReversePath(adj, p);
  }

  lemma {:induction false} ReversePath(adj: Matrix, p: seq<Dir>)
    requires IsPath(Undirected(adj), p)
    ensures Reach(Undirected(adj), p[|p| - 1], p[0])
  {
    hide Reach, Undirected;
    var e := Undirected(adj);
    if |p| == 1 {
      ReachRefl(e, p[0]);
    } else {
      assert Hop(e, p, 0);
      InUndirected(adj, p[0], p[1]);
      ReachEdge(e, p[1], p[0]);
      TailIsPath(e, p);
      ReversePath(adj, p[1..]);
      ReachTrans(e, p[|p| - 1], p[1], p[0]);
    }
  }
}
