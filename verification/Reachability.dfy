/** Paths and reachability in a finite directed graph given by its set of edges. */
module Reachability {

  /** The i-th step of p follows an edge. */
  ghost predicate Hop<T>(e: set<(T, T)>, p: seq<T>, i: int) {
    0 <= i < |p| - 1 && (p[i], p[i + 1]) in e
  }

  /** A non-empty walk along edges of e. */
  ghost predicate IsPath<T>(e: set<(T, T)>, p: seq<T>) {
    |p| > 0 && forall i :: 0 <= i < |p| - 1 ==> Hop(e, p, i)
  }

  ghost predicate PathFromTo<T>(e: set<(T, T)>, p: seq<T>, u: T, v: T) {
    IsPath(e, p) && p[0] == u && p[|p| - 1] == v
  }

  ghost predicate Reach<T(!new)>(e: set<(T, T)>, u: T, v: T) {
    exists p: seq<T> :: PathFromTo(e, p, u, v)
  }

  /** Each of u and v reaches the other. */
  ghost predicate Mutual<T(!new)>(e: set<(T, T)>, u: T, v: T) {
    Reach(e, u, v) && Reach(e, v, u)
  }

  lemma ReachRefl<T(!new)>(e: set<(T, T)>, u: T)
    ensures Reach(e, u, u)
  {
    assert PathFromTo(e, [u], u, u);
  }

  lemma ReachEdge<T(!new)>(e: set<(T, T)>, u: T, v: T)
    requires (u, v) in e
    ensures Reach(e, u, v)
  {
    assert PathFromTo(e, [u, v], u, v);
  }

  lemma ReachTrans<T(!new)>(e: set<(T, T)>, u: T, v: T, w: T)
    requires Reach(e, u, v) && Reach(e, v, w)
    ensures Reach(e, u, w)
  {
    var p :| PathFromTo(e, p, u, v);
    var q :| PathFromTo(e, q, v, w);
    var r := p + q[1..];
    forall i | 0 <= i < |r| - 1
      ensures Hop(e, r, i)
    {
      if i < |p| - 1 {
        assert Hop(e, p, i);
      } else {
        assert Hop(e, q, i - (|p| - 1));
      }
    }
    assert PathFromTo(e, r, u, w);
  }

  /** A set that no edge leaves contains everything reachable from its members. */
  lemma ReachStaysIn<T(!new)>(e: set<(T, T)>, s: set<T>, u: T, v: T)
    requires u in s && Reach(e, u, v)
    requires forall a, b :: a in s && (a, b) in e ==> b in s
    ensures v in s
  {
    var p :| PathFromTo(e, p, u, v);
    PathStaysIn(e, s, p);
  }

  lemma TailIsPath<T>(e: set<(T, T)>, p: seq<T>)
    requires IsPath(e, p) && |p| > 1
    ensures IsPath(e, p[1..])
  {
    forall i | 0 <= i < |p[1..]| - 1
      ensures Hop(e, p[1..], i)
    {
      assert Hop(e, p, i + 1);
    }
  }

  lemma {:induction false} PathStaysIn<T(!new)>(e: set<(T, T)>, s: set<T>, p: seq<T>)
    requires IsPath(e, p) && p[0] in s
    requires forall a, b :: a in s && (a, b) in e ==> b in s
    ensures p[|p| - 1] in s
  {
    if |p| > 1 {
      assert Hop(e, p, 0);
      TailIsPath(e, p);
      PathStaysIn(e, s, p[1..]);
    }
  }
}
