/** Numbers written in a base, and the constraint that channels an array of digits into its number. */
module Digits {
  import opened Cp
  import opened Permutations
  import opened Sums

  function Pow(b: nat, e: nat): (r: nat)
    ensures b > 0 ==> r > 0
  {
    if e == 0 then 1 else Positive(b, Pow(b, e - 1)); b * Pow(b, e - 1)
  }

  lemma Positive(a: nat, b: nat)
    ensures a > 0 && b > 0 ==> a * b > 0
  {}

  function Terms<V>(a: seq<V>, base: nat): (es: seq<Expr<V>>)
    ensures |es| == |a|
    ensures forall i :: 0 <= i < |a| ==> es[i] == Times(Var(a[i]), Const(Pow(base, |a| - i - 1)))
  {
    seq(|a|, i requires 0 <= i < |a| => Times(Var(a[i]), Const(Pow(base, |a| - i - 1))))
  }

  function ToNum<V>(a: seq<V>, num: V, base: nat): Constraint<V> {
    Compare(SumOf(Terms(a, base)), Eq, Var(num))
  }

  method PostToNum<V>(a: seq<V>, num: V, base: nat) returns (c: Constraint<V>)
    ensures c == ToNum(a, num, base)
  {
    hide SumOf, Pow;
    var len := |a|;
    var tmp := new Expr<V>[len](_ => Const(0));
    for i := 0 to len
      invariant forall k :: 0 <= k < i ==> tmp[k] == Times(Var(a[k]), Const(Pow(base, len - k - 1)))
    {
      tmp[i] := Times(Var(a[i]), Const(Pow(base, len - i - 1)));
    }
    assert tmp[..] == Terms(a, base);
    c := Compare(SumOf(tmp[..]), Eq, Var(num));
  }

  /** The number that the digits stand for, the most significant digit first. */
  function Value(base: nat, ds: seq<int>): int {
    if ds == [] then 0 else base * Value(base, ds[..|ds| - 1]) + ds[|ds| - 1]
  }

  lemma Regroup(d: int, b: int, p: int, c: int)
    ensures d * (b * p) * c == d * p * (b * c)
  {
    assert d * (b * p) * c == d * (b * p * c) == d * (p * (b * c));
  }

  lemma {:induction false} WeightedSum(base: nat, ds: seq<int>, zs: seq<int>, c: int)
    requires |zs| == |ds| && forall i :: 0 <= i < |ds| ==> zs[i] == ds[i] * Pow(base, |ds| - i - 1) * c
    ensures Sum(zs) == Value(base, ds) * c
  {
    if ds != [] {
      var k := |ds| - 1;
      forall i | 0 <= i < k
        ensures zs[..k][i] == ds[..k][i] * Pow(base, k - i - 1) * (base * c)
      {
        Regroup(ds[i], base, Pow(base, k - i - 1), c);
      }
      WeightedSum(base, ds[..k], zs[..k], base * c);
      Collect(Value(base, ds[..k]), base, c, ds[k]);
      assert Pow(base, 0) == 1;
    }
  }

  lemma Collect(v: int, b: int, c: int, d: int)
    ensures v * (b * c) + d * c == (b * v + d) * c
  {
    assert v * (b * c) == b * v * c;
  }

  /** The channelling constraint makes num the value of the digits. */
  lemma ToNumMeans<V>(a: seq<V>, num: V, base: nat, s: V -> int)
    ensures Holds(ToNum(a, num, base), s) <==> s(num) == Value(base, At(a, s))
  {
    hide Sum, SumOf, Value, Pow;
    var es, ds := Terms(a, base), At(a, s);
    SumOfValues(es, s);
    forall i | 0 <= i < |a|
      ensures Values(es, s)[i] == ds[i] * Pow(base, |a| - i - 1) * 1
    {
      assert Eval(es[i], s) == s(a[i]) * Pow(base, |a| - i - 1);
    }
    WeightedSum(base, ds, Values(es, s), 1);
  }

  lemma {:induction false} ValueInRange(base: nat, ds: seq<int>)
    requires InRange(ds, 0, base)
    ensures 0 <= Value(base, ds) < Pow(base, |ds|)
  {
    if ds != [] {
      var k := |ds| - 1;
      ValueInRange(base, ds[..k]);
      Below(base, Value(base, ds[..k]), Pow(base, k), ds[k]);
    }
  }

  lemma Below(b: nat, v: nat, p: nat, d: int)
    requires v < p && 0 <= d < b
    ensures 0 <= b * v + d < b * p
  {
    assert b * (v + 1) <= b * p;
  }

  /** Two lists of as many digits that stand for the same number are equal. */
  lemma {:induction false} ValueIsInjective(base: nat, ds: seq<int>, es: seq<int>)
    requires InRange(ds, 0, base) && InRange(es, 0, base) && |ds| == |es| && Value(base, ds) == Value(base, es)
    ensures ds == es
  {
    if ds != [] {
      var k := |ds| - 1;
      SameQuotient(base, Value(base, ds[..k]), Value(base, es[..k]), ds[k], es[k]);
      ValueIsInjective(base, ds[..k], es[..k]);
      assert ds == ds[..k] + [ds[k]] && es == es[..k] + [es[k]];
    }
  }

  lemma SameQuotient(b: nat, u: int, v: int, d: int, e: int)
    requires 0 <= d < b && 0 <= e < b && b * u + d == b * v + e
    ensures u == v && d == e
  {
    Exceeds(b, u, v, d, e);
    Exceeds(b, v, u, e, d);
  }

  lemma Exceeds(b: nat, u: int, v: int, d: int, e: int)
    requires 0 <= d < b && 0 <= e < b
    ensures u > v ==> b * u + d > b * v + e
  {
    if u > v {
      Multiply(b, v + 1, u);
    }
  }

  lemma Multiply(b: nat, u: int, v: int)
    requires u <= v
    ensures b * u <= b * v
  {}

  /** Splitting off the most significant digit. */
  lemma {:induction false} LeadingDigit(base: nat, ds: seq<int>)
    requires ds != []
    ensures Value(base, ds) == ds[0] * Pow(base, |ds| - 1) + Value(base, ds[1..])
  {
    var k := |ds| - 1;
    if k > 0 {
      LeadingDigit(base, ds[..k]);
      assert ds[..k][1..] == ds[1..][..k - 1];
      Spread(base, ds[0], Pow(base, k - 1), Value(base, ds[1..][..k - 1]));
    } else {
      assert ds[..0] == [] && ds[1..] == [];
    }
  }

  lemma Spread(b: int, d: int, p: int, v: int)
    ensures b * (d * p + v) == d * (b * p) + b * v
  {
    assert b * (d * p + v) == b * (d * p) + b * v;
  }
}
