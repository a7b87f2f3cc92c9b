/**
 The constraints that the models post, and what it means for an assignment to satisfy them.
 Expressions and constraints are built over a type V of decision variables.
 */
module Cp {
  import opened Sums

  datatype Expr<V> =
    | Const(c: int)
    | Var(v: V)
    | Plus(a: Expr<V>, b: Expr<V>)
    | Minus(a: Expr<V>, b: Expr<V>)
    | Times(a: Expr<V>, b: Expr<V>)
    | Abs(a: Expr<V>)
    | IsLessOrEqual(a: Expr<V>, c: int)
    | IsGreater(a: Expr<V>, c: int)

  function Eval<V>(e: Expr<V>, s: V -> int): int {
    match e
    case Const(c) => c
    case Var(v) => s(v)
    case Plus(a, b) => Eval(a, s) + Eval(b, s)
    case Minus(a, b) => Eval(a, s) - Eval(b, s)
    case Times(a, b) => Eval(a, s) * Eval(b, s)
    case Abs(a) => if Eval(a, s) < 0 then -Eval(a, s) else Eval(a, s)
    case IsLessOrEqual(a, c) => if Eval(a, s) <= c then 1 else 0
    case IsGreater(a, c) => if Eval(a, s) > c then 1 else 0
  }

  lemma EvalPlus<V>(a: Expr<V>, b: Expr<V>, s: V -> int)
    ensures Eval(Plus(a, b), s) == Eval(a, s) + Eval(b, s)
  {}

  lemma EvalMinus<V>(a: Expr<V>, b: Expr<V>, s: V -> int)
    ensures Eval(Minus(a, b), s) == Eval(a, s) - Eval(b, s)
  {}

  lemma EvalTimes<V>(a: Expr<V>, b: Expr<V>, s: V -> int)
    ensures Eval(Times(a, b), s) == Eval(a, s) * Eval(b, s)
  {}

  lemma EvalAbs<V>(a: Expr<V>, s: V -> int)
    ensures Eval(Abs(a), s) == if Eval(a, s) < 0 then -Eval(a, s) else Eval(a, s)
  {}

  lemma EvalVar<V>(v: V, s: V -> int)
    ensures Eval(Var(v), s) == s(v)
  {}

  lemma EvalConst<V>(c: int, s: V -> int)
    ensures Eval<V>(Const(c), s) == c
  {}

  function Values<V>(es: seq<Expr<V>>, s: V -> int): (r: seq<int>)
    ensures |r| == |es| && forall i :: 0 <= i < |es| ==> r[i] == Eval(es[i], s)
  {
    if es == [] then [] else Values(es[..|es| - 1], s) + [Eval(es[|es| - 1], s)]
  }

  /** The sum of a list of expressions, built from left to right. */
  function SumOf<V>(es: seq<Expr<V>>): Expr<V> {
    if es == [] then Const(0) else Plus(SumOf(es[..|es| - 1]), es[|es| - 1])
  }

  lemma {:induction false} SumOfValues<V>(es: seq<Expr<V>>, s: V -> int)
    ensures Eval(SumOf(es), s) == Sum(Values(es, s))
  {
    if es != [] {
      SumOfValues(es[..|es| - 1], s);
      assert Values(es, s)[..|es| - 1] == Values(es[..|es| - 1], s);
    }
  }

  function Vars<V>(vs: seq<V>): (es: seq<Expr<V>>)
    ensures |es| == |vs| && forall i :: 0 <= i < |vs| ==> es[i] == Var(vs[i])
  {
    seq(|vs|, i requires 0 <= i < |vs| => Var(vs[i]))
  }

  /** The values of a list of variables. */
  function At<V>(vs: seq<V>, s: V -> int): (r: seq<int>)
    ensures |r| == |vs| && forall i :: 0 <= i < |vs| ==> r[i] == s(vs[i])
  {
    seq(|vs|, i requires 0 <= i < |vs| => s(vs[i]))
  }

  lemma ValuesOfVars<V>(vs: seq<V>, s: V -> int)
    ensures Values(Vars(vs), s) == At(vs, s)
  {}

  datatype Op = Eq | Neq | Less | LessOrEqual

  predicate Related(x: int, op: Op, y: int) {
    match op
    case Eq => x == y
    case Neq => x != y
    case Less => x < y
    case LessOrEqual => x <= y
  }

  datatype Constraint<V> =
    | Domain(v: V, lo: int, hi: int)
    | Compare(l: Expr<V>, op: Op, r: Expr<V>)
    | EnforcedIf(literal: V, truth: int, l: Expr<V>, op: Op, r: Expr<V>)
    | AllDifferent(es: seq<Expr<V>>)
    | ElementOf(table: seq<Expr<V>>, index: Expr<V>, result: Expr<V>)
    | MemberOf(e: Expr<V>, values: seq<int>)
    | AllowedTuples(es: seq<Expr<V>>, tuples: seq<seq<int>>)
    | Transition(es: seq<Expr<V>>, steps: seq<(int, int, int)>, initial: int, finals: seq<int>)
    | Distribute(es: seq<Expr<V>>, cards: seq<Expr<V>>)
    | IsMinimum(e: Expr<V>, es: seq<Expr<V>>)

  ghost predicate Distinct(xs: seq<int>) {
    forall i, j :: 0 <= i < j < |xs| ==> xs[i] != xs[j]
  }

  function Count(xs: seq<int>, v: int): (r: nat)
    ensures r <= |xs|
  {
    if xs == [] then 0 else Count(xs[..|xs| - 1], v) + (if xs[|xs| - 1] == v then 1 else 0)
  }

  /** states is a run of the automaton over the word. */
  ghost predicate IsTrace(states: seq<int>, word: seq<int>, tuples: seq<(int, int, int)>, initial: int,
      finals: seq<int>) {
    && |states| == |word| + 1 && states[0] == initial && states[|word|] in finals
    && forall i :: 0 <= i < |word| ==> (states[i], word[i], states[i + 1]) in tuples
  }

  ghost predicate Holds<V>(c: Constraint<V>, s: V -> int) {
    match c
    case Domain(v, lo, hi) => lo <= s(v) <= hi
    case Compare(l, op, r) => Related(Eval(l, s), op, Eval(r, s))
    case EnforcedIf(literal, truth, l, op, r) => s(literal) == truth ==> Related(Eval(l, s), op, Eval(r, s))
    case AllDifferent(es) => Distinct(Values(es, s))
    case ElementOf(table, index, result) =>
      0 <= Eval(index, s) < |table| && Eval(table[Eval(index, s)], s) == Eval(result, s)
    case MemberOf(e, values) => Eval(e, s) in values
    case AllowedTuples(es, tuples) => Values(es, s) in tuples
    case Transition(es, steps, initial, finals) =>
      exists states :: IsTrace(states, Values(es, s), steps, initial, finals)
    case Distribute(es, cards) =>
      forall i :: 0 <= i < |cards| ==> Values(cards, s)[i] == Count(Values(es, s), i)
    case IsMinimum(e, es) =>
      Eval(e, s) in Values(es, s) && forall i :: 0 <= i < |es| ==> Eval(e, s) <= Values(es, s)[i]
  }

  ghost predicate Satisfies<V>(cs: seq<Constraint<V>>, s: V -> int) {
    forall i :: 0 <= i < |cs| ==> Holds(cs[i], s)
  }

  lemma SatisfiesConcat<V>(cs: seq<Constraint<V>>, ds: seq<Constraint<V>>, s: V -> int)
    ensures Satisfies(cs + ds, s) <==> Satisfies(cs, s) && Satisfies(ds, s)
  {
    if Satisfies(cs + ds, s) {
      forall i | 0 <= i < |cs|
        ensures Holds(cs[i], s)
      {
        assert (cs + ds)[i] == cs[i];
      }
      forall i | 0 <= i < |ds|
        ensures Holds(ds[i], s)
      {
        assert (cs + ds)[|cs| + i] == ds[i];
      }
    }
  }

  lemma NothingToSatisfy<V>(s: V -> int)
    ensures Satisfies([], s)
  {}

  lemma SatisfiesOne<V>(c: Constraint<V>, s: V -> int)
    ensures Satisfies([c], s) <==> Holds(c, s)
  {
    assert Satisfies([c], s) ==> Holds([c][0], s);
  }

  lemma SatisfiesThree<V>(cs: seq<Constraint<V>>, s: V -> int)
    requires |cs| == 3
    ensures Satisfies(cs, s) <==> Holds(cs[0], s) && Holds(cs[1], s) && Holds(cs[2], s)
  {}

  /** The range constraints of an array of variables. */
  function Domains<V>(vs: seq<V>, lo: int, hi: int): seq<Constraint<V>> {
    seq(|vs|, i requires 0 <= i < |vs| => Domain(vs[i], lo, hi))
  }

  lemma DomainsHold<V>(vs: seq<V>, lo: int, hi: int, s: V -> int)
    ensures Satisfies(Domains(vs, lo, hi), s) <==> forall i :: 0 <= i < |vs| ==> lo <= s(vs[i]) <= hi
  {
    var ds := Domains(vs, lo, hi);
    assert forall i :: 0 <= i < |vs| ==> ds[i] == Domain(vs[i], lo, hi);
    if Satisfies(ds, s) {
      forall i | 0 <= i < |vs|
        ensures lo <= s(vs[i]) <= hi
      {
        assert Holds(ds[i], s);
      }
    }
  }
}
