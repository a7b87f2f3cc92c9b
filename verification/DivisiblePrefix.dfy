/** The divisible by 9 through 1 model: a number of distinct digits, each prefix divisible by its length. */
module DivisiblePrefix {
  import opened Cp
  import opened Digits
  import opened Permutations
  import opened Sums

  datatype Var = X(j: nat) | T(i: nat) | D(i: nat)

  function Xs(n: nat): (vs: seq<Var>)
    ensures |vs| == n && forall j :: 0 <= j < n ==> vs[j] == X(j)
  {
    seq(n, j requires 0 <= j => X(j))
  }

  function Ts(n: nat): (vs: seq<Var>)
    ensures |vs| == n && forall i :: 0 <= i < n ==> vs[i] == T(i)
  {
    seq(n, i requires 0 <= i => T(i))
  }

  function Max(a: int, b: int): int {
    if a < b then b else a
  }

  function Min(a: int, b: int): int {
    if a < b then a else b
  }

  /** r is x modulo y, with the bounds of x and a quotient d of its own. */
  function MyMod(x: Var, lbx: int, ubx: int, y: Expr<Var>, r: Expr<Var>, d: Var): seq<Constraint<Var>> {
    [Domain(d, Min(lbx, -ubx), Max(ubx, -lbx)),
     Compare(Const(0), LessOrEqual, r),
     Compare(Const(0), LessOrEqual, Times(Var(x), r)),
     Compare(Minus(Const(0), Abs(y)), Less, r),
     Compare(r, Less, Abs(y)),
     Compare(Const(Min(lbx, -ubx)), Less, Var(d)),
     Compare(Var(d), LessOrEqual, Const(Max(ubx, -lbx))),
     Compare(Minus(Var(x), Plus(Times(y, Var(d)), r)), Eq, Const(0))]
  }

  /** The largest number of base - 1 digits. */
  function Largest(base: nat): int
    requires base > 0
  {
    Pow(base, base - 1) - 1
  }

  function Prefix(base: nat, i: nat): seq<Constraint<Var>>
    requires i < base
  {
    [ToNum(Xs(base - i - 1), T(i), base)] + MyMod(T(i), 0, Largest(base), Const(base - i - 1), Const(0), D(i))
  }

  function Prefixes(base: nat, k: nat): seq<Constraint<Var>>
    requires k <= base
  {
    if k == 0 then [] else Prefixes(base, k - 1) + Prefix(base, k - 1)
  }

  function PrefixConstraints(base: nat): seq<Constraint<Var>>
    requires base > 0
  {
    Domains(Xs(base - 1), 1, base - 1) + Domains(Ts(base - 1), 0, Largest(base))
    + [AllDifferent(Vars(Xs(base - 1)))] + Prefixes(base, base - 1)
  }

  method PostPrefixes(base: nat) returns (cs: seq<Constraint<Var>>)
    requires base > 0
    ensures cs == PrefixConstraints(base)
    ensures forall s: Var -> int :: Satisfies(cs, s) <==>
      IsSolution(base, At(Xs(base - 1), s), At(Ts(base - 1), s), At(Ds(base - 1), s))
  {
    hide Domains, Pow, ToNum, MyMod, Satisfies, IsSolution;
    var m := Pow(base, base - 1) - 1;
    var n := base - 1;
    var x, t := Xs(n), Ts(n);
    cs := Domains(x, 1, base - 1) + Domains(t, 0, m);
    cs := cs + [AllDifferent(Vars(x))];
    ghost var before := cs;
    for i := 0 to n
      invariant cs == before + Prefixes(base, i)
    {
      var mm := base - i - 1;
      var tt := TakeDigits(x, mm);
      var channel := PostToNum(tt, t[i], base);
      var modulo := PostMyMod(t[i], 0, m, Const(mm), Const(0), D(i));
      cs := cs + ([channel] + modulo);
    }
    assert cs == PrefixConstraints(base);
    forall s: Var -> int
      ensures Satisfies(cs, s) <==> IsSolution(base, At(Xs(base - 1), s), At(Ts(base - 1), s), At(Ds(base - 1), s))
    {
      ModelMeans(base, s);
    }
  }

  method TakeDigits(x: seq<Var>, mm: nat) returns (r: seq<Var>)
    requires mm <= |x| && x == Xs(|x|)
    ensures r == Xs(mm)
  {
    var tt := new Var[mm](_ => X(0));
    for j := 0 to mm
      invariant forall k :: 0 <= k < j ==> tt[k] == X(k)
    {
      tt[j] := x[j];
    }
    r := tt[..];
  }

  method PostMyMod(x: Var, lbx: int, ubx: int, y: Expr<Var>, r: Expr<Var>, d: Var) returns (cs: seq<Constraint<Var>>)
    ensures cs == MyMod(x, lbx, ubx, y, r, d)
    ensures forall s: Var -> int :: Satisfies(cs, s) <==>
      IsModulo(Max(ubx, -lbx), s(x), Eval(y, s), Eval(r, s), s(d))
  {
    hide Satisfies, IsModulo, Eval;
    var minX := if lbx < -ubx then lbx else -ubx;
    var maxX := if ubx < -lbx then -lbx else ubx;
    cs := [Domain(d, minX, maxX)];
    cs := cs + [Compare(Const(0), LessOrEqual, r), Compare(Const(0), LessOrEqual, Times(Var(x), r))];
    cs := cs + [Compare(Minus(Const(0), Abs(y)), Less, r), Compare(r, Less, Abs(y))];
    cs := cs + [Compare(Const(minX), Less, Var(d)), Compare(Var(d), LessOrEqual, Const(maxX))];
    cs := cs + [Compare(Minus(Var(x), Plus(Times(y, Var(d)), r)), Eq, Const(0))];
    assert cs == MyMod(x, lbx, ubx, y, r, d);
    forall s: Var -> int
      ensures Satisfies(cs, s) <==> IsModulo(Max(ubx, -lbx), s(x), Eval(y, s), Eval(r, s), s(d))
    {
      MyModMeans(x, lbx, ubx, y, r, d, s);
    }
  }

  // ---------- The modulo constraint ----------

  /** What the eight constraints say of the values, with l the largest absolute value x may take. */
  predicate IsModulo(l: int, x: int, y: int, r: int, d: int) {
    0 <= r && 0 <= x * r && r < (if y < 0 then -y else y) && -l < d <= l && x == y * d + r
  }

  lemma SatisfiesEight(cs: seq<Constraint<Var>>, s: Var -> int)
    requires |cs| == 8
    ensures Satisfies(cs, s) <==>
      (Holds(cs[0], s) && Holds(cs[1], s) && Holds(cs[2], s) && Holds(cs[3], s)
      && Holds(cs[4], s) && Holds(cs[5], s) && Holds(cs[6], s) && Holds(cs[7], s))
  {}

  lemma QuotientMeans(x: Var, y: Expr<Var>, r: Expr<Var>, d: Var, s: Var -> int)
    ensures Holds(Compare(Minus(Var(x), Plus(Times(y, Var(d)), r)), Eq, Const(0)), s) <==>
      s(x) == Eval(y, s) * s(d) + Eval(r, s)
  {
    hide Eval;
    EvalVar(d, s);
    EvalTimes(y, Var(d), s);
    EvalPlus(Times(y, Var(d)), r, s);
    EvalVar(x, s);
    EvalMinus(Var(x), Plus(Times(y, Var(d)), r), s);
    EvalConst<Var>(0, s);
  }

  lemma BoundsMean(y: Expr<Var>, r: Expr<Var>, s: Var -> int)
    ensures Holds(Compare(Minus(Const(0), Abs(y)), Less, r), s) && Holds(Compare(r, Less, Abs(y)), s) <==>
      (var a := if Eval(y, s) < 0 then -Eval(y, s) else Eval(y, s); -a < Eval(r, s) < a)
  {
    hide Eval;
    EvalAbs(y, s);
    EvalConst<Var>(0, s);
    EvalMinus(Const(0), Abs(y), s);
  }

  lemma MyModMeans(x: Var, lbx: int, ubx: int, y: Expr<Var>, r: Expr<Var>, d: Var, s: Var -> int)
    ensures Satisfies(MyMod(x, lbx, ubx, y, r, d), s) <==>
      IsModulo(Max(ubx, -lbx), s(x), Eval(y, s), Eval(r, s), s(d))
  {
    var cs := MyMod(x, lbx, ubx, y, r, d);
    SatisfiesEight(cs, s);
    QuotientMeans(x, y, r, d, s);
    BoundsMean(y, r, s);
    assert Eval(Times(Var(x), r), s) == s(x) * Eval(r, s);
  }

  /**
   The inputs whose quotient is -l. The lower bound on d is strict where the comment in the source
   asks for <=, so these are lost: a y of 1 or -1 at one end of the range, and an x fixed at 0.
   */
  predicate IsLost(l: int, x: int, y: int) {
    l == 0 || (y == -1 && x == l) || (y == 1 && x == -l)
  }

  ghost predicate IsAccepted(l: int, x: int, y: int, r: int) {
    exists d :: IsModulo(l, x, y, r, d)
  }

  /** A quotient exists exactly when r is x modulo y, is 0 for a negative x, and the input is not lost. */
  lemma ModuloMeans(l: int, x: int, y: int, r: int)
    requires -l <= x <= l
    ensures IsAccepted(l, x, y, r) <==> y != 0 && r == x % y && (x < 0 ==> r == 0) && !IsLost(l, x, y)
  {
    forall d | IsModulo(l, x, y, r, d)
      ensures y != 0 && r == x % y && (x < 0 ==> r == 0) && !IsLost(l, x, y)
    {
      Quotient(x, y, r, d);
      NegativeTimes(x, r);
      DifferentProducts(y, d, -l);
      LostInputs(l, x, y);
    }
    if y != 0 && r == x % y && (x < 0 ==> r == 0) && !IsLost(l, x, y) {
      var d := x / y;
      LostInputs(l, x, y);
      SmallQuotient(l, x, y, r, d);
      NegativeTimes(x, r);
      assert IsModulo(l, x, y, r, d);
    }
  }

  lemma LostInputs(l: int, x: int, y: int)
    requires -l <= x <= l && y != 0 && (x < 0 ==> x % y == 0)
    ensures x - x % y == y * -l <==> IsLost(l, x, y)
  {
    RemainderFits(x, y);
    if l == 0 {
      NoRemainder(y);
    } else if y == 1 || y == -1 {
      UnitRemainder(x);
    } else {
      LargeProduct(y, l);
    }
  }

  lemma NoRemainder(y: int)
    requires y != 0
    ensures 0 % y == 0
  {
    Quotient(0, y, 0, 0);
  }

  lemma UnitRemainder(x: int)
    ensures x % 1 == 0 && x % -1 == 0
  {}

  lemma LargeProduct(y: int, l: int)
    requires l > 0 && y != 0 && y != 1 && y != -1
    ensures y * -l > l || y * -l < -l
  {
    if y >= 2 {
      Multiply(l, 2, y);
    } else {
      Multiply(l, 2, -y);
      assert y * -l == l * -y;
    }
  }

  /** The propagator accepts the remainder and nothing else exactly for these inputs. */
  lemma ModuloIsExact(l: int, x: int, y: int)
    requires -l <= x <= l && y != 0
    ensures (forall r :: IsAccepted(l, x, y, r) <==> r == x % y) <==>
      (x >= 0 || x % y == 0) && !IsLost(l, x, y)
  {
    hide IsAccepted, IsLost;
    forall r
      ensures IsAccepted(l, x, y, r) <==> r == x % y && (x < 0 ==> r == 0) && !IsLost(l, x, y)
    {
      ModuloMeans(l, x, y, r);
    }
    var r := x % y;
    assert IsAccepted(l, x, y, r) <==> (x < 0 ==> r == 0) && !IsLost(l, x, y);
  }

  /** An assignment with another value for one variable. */
  function With(s: Var -> int, v: Var, q: int): Var -> int {
    (w: Var) => if w == v then q else s(w)
  }

  /** The same for the posted constraints: which values of x, y and r extend to the quotient variable d. */
  lemma PostedModuloMeans(x: Var, lbx: int, ubx: int, y: Expr<Var>, r: Expr<Var>, d: Var, s: Var -> int)
    requires x != d && lbx <= s(x) <= ubx
    requires forall q :: Eval(y, With(s, d, q)) == Eval(y, s) && Eval(r, With(s, d, q)) == Eval(r, s)
    ensures (exists q :: Satisfies(MyMod(x, lbx, ubx, y, r, d), With(s, d, q))) <==>
      (var l, a, b, c := Max(ubx, -lbx), s(x), Eval(y, s), Eval(r, s);
       b != 0 && c == a % b && (a < 0 ==> c == 0) &&
       l != 0 && !(b == -1 && a == l) && !(b == 1 && a == -l))
  {
    hide Satisfies, MyMod, Eval, IsModulo;
    var l := Max(ubx, -lbx);
    forall q
      ensures Satisfies(MyMod(x, lbx, ubx, y, r, d), With(s, d, q)) <==> IsModulo(l, s(x), Eval(y, s), Eval(r, s), q)
    {
      MyModMeans(x, lbx, ubx, y, r, d, With(s, d, q));
    }
    ModuloMeans(l, s(x), Eval(y, s), Eval(r, s));
  }

  lemma NegativeTimes(x: int, r: int)
    requires r >= 0
    ensures 0 <= x * r <==> x >= 0 || r == 0
  {
    if x < 0 && r > 0 {
      assert -x * r > 0;
    }
  }

  lemma DifferentProducts(y: int, d: int, e: int)
    requires y != 0 && d != e
    ensures y * d != y * e
  {
    assert y * (d - e) != 0;
  }

  lemma Quotient(x: int, y: int, r: int, d: int)
    requires x == y * d + r && 0 <= r < (if y < 0 then -y else y)
    ensures y != 0 && r == x % y
  {
    if y > 0 {
      SameQuotient(y, x / y, d, x % y, r);
    } else {
      assert x == -y * -(x / y) + x % y && x == -y * -d + r;
      SameQuotient(-y, -(x / y), -d, x % y, r);
    }
  }

  lemma SmallQuotient(l: int, x: int, y: int, r: int, d: int)
    requires -l <= x <= l && y != 0 && r == x % y && d == x / y && (x < 0 ==> r == 0) && x - r != y * -l
    ensures x == y * d + r && -l < d <= l
  {
    RemainderFits(x, y);
    QuotientFits(l, x, y, r, d);
  }

  lemma RemainderFits(x: int, y: int)
    requires y != 0
    ensures x == y * (x / y) + x % y && x % y >= 0 && (x >= 0 ==> x % y <= x)
  {
    NoMultipleBetween(y, x / y);
  }

  lemma NoMultipleBetween(y: int, d: int)
    requires y != 0
    ensures y * d >= 0 || y * d <= (if y < 0 then y else -y)
  {
    if y > 0 && d < 0 {
      Multiply(y, d, -1);
    } else if y < 0 && d > 0 {
      Multiply(-y, 1, d);
    }
  }

  lemma QuotientFits(l: int, x: int, y: int, r: int, d: int)
    requires -l <= x <= l && y != 0 && x == y * d + r && 0 <= r && (x < 0 ==> r == 0) && (x >= 0 ==> r <= x)
    requires x - r != y * -l
    ensures -l < d <= l
  {
    if d > l {
      ProductGrows(y, d, l);
    } else if d < -l {
      ProductGrows(y, -d, l);
    }
  }

  lemma ProductGrows(y: int, d: int, l: int)
    requires y != 0 && d > l >= 0
    ensures y * d > l || y * d < -l
  {
    if y > 0 {
      AtLeastFactor(y, d);
    } else {
      AtLeastFactor(-y, d);
      assert -y * d == -(y * d);
    }
  }

  lemma AtLeastFactor(y: nat, d: nat)
    requires y > 0
    ensures y * d >= d
  {
    Multiply(d, 1, y);
  }

  /** The strict bound loses a solution: 5 modulo -1 is 0, but is rejected when 5 is the largest value of x. */
  lemma StrictBoundIsTooStrict(x: Var, d: Var, s: Var -> int)
    requires s(x) == 5
    ensures 5 % -1 == 0 && !Satisfies(MyMod(x, 0, 5, Const(-1), Const(0), d), s)
  {
    hide Eval;
    MyModMeans(x, 0, 5, Const(-1), Const(0), d, s);
    EvalConst<Var>(-1, s);
    EvalConst<Var>(0, s);
  }

  /** An x fixed at 0 satisfies the constraint for no y and no r, although 0 modulo y is 0. */
  lemma FixedZeroIsRejected(x: Var, y: Expr<Var>, r: Expr<Var>, d: Var, s: Var -> int)
    requires s(x) == 0
    ensures !Satisfies(MyMod(x, 0, 0, y, r, d), s)
  {
    hide Eval;
    MyModMeans(x, 0, 0, y, r, d, s);
  }

  // ---------- Prefix divisibility ----------

  /** Every prefix of the digits x is divisible by its length. */
  ghost predicate IsDivisible(base: nat, x: seq<int>) {
    && base > 0 && |x| == base - 1 && InRange(x, 1, base) && Distinct(x)
    && forall j :: 1 <= j < base ==> PrefixDivides(base, x, j)
  }

  predicate PrefixDivides(base: nat, x: seq<int>, j: nat)
    requires 0 < j <= |x|
  {
    Value(base, x[..j]) % j == 0
  }

  /** The number t[i] is the prefix that leaves out the last i digits. */
  predicate ArePrefixes(base: nat, x: seq<int>, t: seq<int>)
    requires |x| == |t|
  {
    forall i :: 0 <= i < |t| ==> t[i] == Value(base, x[..|x| - i])
  }

  /** Each number is the one before it without its last digit. */
  lemma PrefixesShrink(base: nat, x: seq<int>, t: seq<int>, i: nat)
    requires base > 0 && InRange(x, 1, base) && |x| == |t| && ArePrefixes(base, x, t) && i + 1 < |t|
    ensures t[i + 1] == t[i] / base
  {
    var j := |x| - i;
    assert x[..j][..j - 1] == x[..j - 1];
    assert t[i] == Value(base, x[..j]) == base * Value(base, x[..j - 1]) + x[j - 1];
    SameQuotient(base, t[i] / base, t[i + 1], t[i] % base, x[j - 1]);
  }

  lemma {:induction false} DigitSum(base: nat, ds: seq<int>) returns (q: int)
    requires base > 0
    ensures Value(base, ds) == Sum(ds) + (base - 1) * q
  {
    if ds == [] {
      q := 0;
    } else {
      var v := Value(base, ds[..|ds| - 1]);
      var p := DigitSum(base, ds[..|ds| - 1]);
      q := p + v;
      CastOutOne(base, v, Sum(ds[..|ds| - 1]), p);
    }
  }

  lemma CastOutOne(base: nat, v: int, sum: int, p: int)
    requires v == sum + (base - 1) * p
    ensures base * v == sum + (base - 1) * (p + v)
  {
    assert base * v == (base - 1) * v + v;
    assert (base - 1) * (p + v) == (base - 1) * p + (base - 1) * v;
  }

  /** The digits are a permutation of 1..base - 1, so the whole number is known modulo base - 1. */
  lemma WholeNumber(base: nat, x: seq<int>) returns (q: int)
    requires base > 0 && |x| == base - 1 && InRange(x, 1, base) && Distinct(x)
    ensures 2 * Value(base, x) == (base - 1) * (base + 2 * q)
  {
    hide Value, Distinct, InRange;
    PermutationSum(v => v, x, 1, base);
    SumIsSumOver(x);
    SumToN(base - 1);
    q := DigitSum(base, x);
    TwoProducts(base - 1, base, q);
  }

  lemma TwoProducts(a: int, b: int, q: int)
    ensures a * (b + 2 * q) == a * b + 2 * (a * q)
  {}

  /** In an even base the last constraint, on the whole number, follows from the digits alone. */
  lemma WholeNumberIsRedundant(base: nat, x: seq<int>)
    requires base > 1 && base % 2 == 0 && |x| == base - 1 && InRange(x, 1, base) && Distinct(x)
    ensures PrefixDivides(base, x, base - 1)
  {
    var q := WholeNumber(base, x);
    var h := base / 2;
    assert base + 2 * q == 2 * (h + q);
    HalfProduct(base - 1, h + q);
    assert x[..base - 1] == x;
    Quotient(Value(base, x), base - 1, 0, h + q);
  }

  lemma HalfProduct(a: int, b: int)
    ensures a * (2 * b) == 2 * (a * b)
  {}

  /** In an odd base from 3 on there is no solution. */
  lemma OddBaseHasNone(base: nat, x: seq<int>)
    requires base >= 3 && base % 2 == 1
    ensures !IsDivisible(base, x)
  {
    hide Value;
    if |x| == base - 1 && InRange(x, 1, base) && Distinct(x) {
      var q := WholeNumber(base, x);
      OddNotDivisible(base, Value(base, x), q);
      assert x[..base - 1] == x;
      assert !PrefixDivides(base, x, base - 1);
    }
  }

  lemma OddNotDivisible(base: nat, v: int, q: int)
    requires base >= 3 && base % 2 == 1 && 2 * v == (base - 1) * (base + 2 * q)
    ensures v % (base - 1) != 0
  {
    var p := v / (base - 1);
    HalfProduct(base - 1, p);
    DifferentProducts(base - 1, 2 * p, base + 2 * q);
  }

  ghost predicate Divides(g: nat, v: int) {
    exists k :: v == g * k
  }

  lemma DividesSum(g: nat, u: int, v: int, k: int)
    requires Divides(g, u + k * v) && Divides(g, v)
    ensures Divides(g, u)
  {
    var a :| u + k * v == g * a;
    var b :| v == g * b;
    assert k * (g * b) == g * (k * b) && g * (a - k * b) == g * a - g * (k * b);
  }

  lemma DividesTimes(g: nat, v: int, k: int)
    requires Divides(g, v)
    ensures Divides(g, v * k)
  {
    var a :| v == g * a;
    assert v * k == g * (a * k);
  }

  /** A common divisor of the base and of a prefix length divides the digit that ends the prefix. */
  lemma DigitIsDivisible(base: nat, x: seq<int>, j: nat, g: nat)
    requires IsDivisible(base, x) && 1 <= j < base && Divides(g, base) && Divides(g, j)
    ensures Divides(g, x[j - 1])
  {
    assert PrefixDivides(base, x, j);
    var v, w := Value(base, x[..j]), Value(base, x[..j - 1]);
    assert x[..j][..j - 1] == x[..j - 1];
    DividesTimes(g, j, v / j);
    assert v == j * (v / j) == x[j - 1] + w * base;
    DividesSum(g, x[j - 1], base, w);
  }

  /** In an even base the digit in the middle is half the base. */
  lemma MiddleDigit(base: nat, x: seq<int>)
    requires IsDivisible(base, x) && base % 2 == 0
    ensures x[base / 2 - 1] == base / 2
  {
    var h := base / 2;
    assert base == h * 2 && h == h * 1;
    DigitIsDivisible(base, x, h, h);
    var k :| x[h - 1] == h * k;
    OnlyMultiple(h, k);
  }

  lemma OnlyMultiple(h: nat, k: int)
    requires 0 < h * k < 2 * h
    ensures k == 1
  {
    MultipleBounds(h, k);
  }

  lemma MultipleBounds(h: nat, k: int)
    ensures k >= 2 ==> h * k >= 2 * h
    ensures k <= 0 ==> h * k <= 0
  {
    if k >= 2 {
      Multiply(h, 2, k);
    } else if k <= 0 {
      Multiply(h, k, 0);
    }
  }

  // ---------- The posted model ----------

  lemma PrefixMeans(base: nat, i: nat, s: Var -> int)
    requires i < base - 1
    ensures Satisfies(Prefix(base, i), s) <==>
      (s(T(i)) == Value(base, At(Xs(base - i - 1), s)) && IsModulo(Largest(base), s(T(i)), base - i - 1, 0, s(D(i))))
  {
    hide ToNum, MyMod, Value, Satisfies, IsModulo, Pow;
    var channel := ToNum(Xs(base - i - 1), T(i), base);
    var modulo := MyMod(T(i), 0, Largest(base), Const(base - i - 1), Const(0), D(i));
    SatisfiesConcat([channel], modulo, s);
    SatisfiesOne(channel, s);
    ToNumMeans(Xs(base - i - 1), T(i), base, s);
    MyModMeans(T(i), 0, Largest(base), Const(base - i - 1), Const(0), D(i), s);
  }

  predicate PrefixHolds(base: nat, i: nat, s: Var -> int)
    requires i < base
  {
    s(T(i)) == Value(base, At(Xs(base - i - 1), s)) && IsModulo(Largest(base), s(T(i)), base - i - 1, 0, s(D(i)))
  }

  lemma {:induction false} PrefixesMean(base: nat, k: nat, s: Var -> int)
    requires k < base
    ensures Satisfies(Prefixes(base, k), s) <==> forall i: nat :: i < k ==> PrefixHolds(base, i, s)
  {
    hide Satisfies, Prefix, Value, IsModulo, Pow;
    if k == 0 {
      NothingToSatisfy(s);
    } else {
      PrefixesMean(base, k - 1, s);
      SatisfiesConcat(Prefixes(base, k - 1), Prefix(base, k - 1), s);
      PrefixMeans(base, k - 1, s);
      assert Satisfies(Prefix(base, k - 1), s) <==> PrefixHolds(base, k - 1, s);
    }
  }

  /** The quotient that the modulo constraint gives a number. */
  lemma DivisibleQuotient(l: int, v: int, j: nat, d: int)
    requires j > 0 && 0 <= v <= l && l > 0
    ensures IsModulo(l, v, j, 0, d) <==> v % j == 0 && d == v / j
  {
    if IsModulo(l, v, j, 0, d) {
      SameQuotient(j, v / j, d, v % j, 0);
    }
    if v % j == 0 && d == v / j {
      NoLargerThan(v, j);
    }
  }

  lemma NoLargerThan(v: nat, j: nat)
    requires j > 0
    ensures 0 <= v / j <= v && v == j * (v / j) + v % j
  {
    AtLeastFactor(j, v / j);
  }

  lemma {:induction false} PowGrows(b: nat, e: nat, f: nat)
    requires b > 0 && e <= f
    ensures Pow(b, e) <= Pow(b, f)
  {
    if e < f {
      PowGrows(b, e, f - 1);
      Multiply(Pow(b, f - 1), 1, b);
    }
  }

  lemma PrefixFits(base: nat, x: seq<int>, j: nat)
    requires base > 1 && |x| == base - 1 && InRange(x, 1, base) && j < base
    ensures 0 <= Value(base, x[..j]) <= Largest(base) && Largest(base) > 0
  {
    ValueInRange(base, x[..j]);
    PowGrows(base, j, base - 1);
    PowGrows(base, 1, base - 1);
    assert Pow(base, 1) == base * Pow(base, 0) == base;
  }

  /** A solution: the digits, the prefixes and the quotients. */
  ghost predicate IsSolution(base: nat, x: seq<int>, t: seq<int>, d: seq<int>) {
    && IsDivisible(base, x) && |t| == |d| == base - 1 && ArePrefixes(base, x, t)
    && forall i :: 0 <= i < base - 1 ==> d[i] == t[i] / (base - i - 1)
  }

  function Ds(n: nat): (vs: seq<Var>)
    ensures |vs| == n && forall i :: 0 <= i < n ==> vs[i] == D(i)
  {
    seq(n, i requires 0 <= i => D(i))
  }

  lemma PrefixOfDigits(base: nat, i: nat, s: Var -> int)
    requires i < base
    ensures At(Xs(base - 1), s)[..base - i - 1] == At(Xs(base - i - 1), s)
  {}

  lemma PrefixSolved(base: nat, i: nat, s: Var -> int)
    requires i < base - 1 && InRange(At(Xs(base - 1), s), 1, base)
    ensures PrefixHolds(base, i, s) <==>
      (var x, j := At(Xs(base - 1), s), base - i - 1;
       s(T(i)) == Value(base, x[..j]) && PrefixDivides(base, x, j) && s(D(i)) == s(T(i)) / j)
  {
    hide Value, IsModulo, Pow;
    var x, j := At(Xs(base - 1), s), base - i - 1;
    PrefixOfDigits(base, i, s);
    PrefixFits(base, x, j);
    DivisibleQuotient(Largest(base), Value(base, x[..j]), j, s(D(i)));
  }

  lemma AllPrefixesSolved(base: nat, s: Var -> int)
    requires base > 0 && InRange(At(Xs(base - 1), s), 1, base) && Distinct(At(Xs(base - 1), s))
    ensures (forall i: nat :: i < base - 1 ==> PrefixHolds(base, i, s)) <==>
      IsSolution(base, At(Xs(base - 1), s), At(Ts(base - 1), s), At(Ds(base - 1), s))
  {
    hide Value, PrefixHolds, PrefixDivides;
    var n, x, t, d := base - 1, At(Xs(base - 1), s), At(Ts(base - 1), s), At(Ds(base - 1), s);
    forall i: nat | i < n
      ensures PrefixHolds(base, i, s) <==>
        (t[i] == Value(base, x[..n - i]) && PrefixDivides(base, x, n - i) && d[i] == t[i] / (base - i - 1))
    {
      PrefixSolved(base, i, s);
    }
    if forall i: nat :: i < n ==> PrefixHolds(base, i, s) {
      forall j | 1 <= j < base
        ensures PrefixDivides(base, x, j)
      {
        assert PrefixHolds(base, n - j, s);
      }
    }
  }

  lemma NumbersFit(base: nat, x: seq<int>, t: seq<int>, d: seq<int>)
    requires IsSolution(base, x, t, d)
    ensures forall i :: 0 <= i < base - 1 ==> 0 <= t[i] <= Largest(base)
  {
    forall i | 0 <= i < base - 1
      ensures 0 <= t[i] <= Largest(base)
    {
      PrefixFits(base, x, base - 1 - i);
    }
  }

  /** The posted constraints: digits whose prefixes are divisible, with their numbers and quotients. */
  lemma ModelMeans(base: nat, s: Var -> int)
    requires base > 0
    ensures Satisfies(PrefixConstraints(base), s) <==>
      IsSolution(base, At(Xs(base - 1), s), At(Ts(base - 1), s), At(Ds(base - 1), s))
  {
    hide Domains, Prefixes, Satisfies, IsSolution, PrefixHolds, Pow;
    var xs, ts := Xs(base - 1), Ts(base - 1);
    var a, b := Domains(xs, 1, base - 1), Domains(ts, 0, Largest(base));
    var c, d := AllDifferent(Vars(xs)), Prefixes(base, base - 1);
    SatisfiesConcat(a, b, s);
    SatisfiesConcat(a + b, [c], s);
    SatisfiesConcat(a + b + [c], d, s);
    DomainsHold(xs, 1, base - 1, s);
    DomainsHold(ts, 0, Largest(base), s);
    SatisfiesOne(c, s);
    ValuesOfVars(xs, s);
    PrefixesMean(base, base - 1, s);
    SolutionDigits(base, At(xs, s), At(ts, s), At(Ds(base - 1), s));
    if InRange(At(xs, s), 1, base) && Distinct(At(xs, s)) {
      AllPrefixesSolved(base, s);
    }
    if IsSolution(base, At(xs, s), At(ts, s), At(Ds(base - 1), s)) {
      NumbersFit(base, At(xs, s), At(ts, s), At(Ds(base - 1), s));
    }
  }

  lemma SolutionDigits(base: nat, x: seq<int>, t: seq<int>, d: seq<int>)
    ensures IsSolution(base, x, t, d) ==> InRange(x, 1, base) && Distinct(x)
  {}

  /** The model has a solution exactly when some digits are divisible, and never in an odd base from 3 on. */
  lemma ModelFeasible(base: nat)
    requires base > 0
    ensures (exists s :: Satisfies(PrefixConstraints(base), s)) <==> exists x :: IsDivisible(base, x)
    ensures base >= 3 && base % 2 == 1 ==> !exists s :: Satisfies(PrefixConstraints(base), s)
  {
    hide Satisfies, PrefixConstraints, IsDivisible, Value;
    forall s | Satisfies(PrefixConstraints(base), s)
      ensures exists x :: IsDivisible(base, x)
    {
      ModelMeans(base, s);
    }
    forall x | IsDivisible(base, x)
      ensures exists s :: Satisfies(PrefixConstraints(base), s)
    {
      var s := SolutionFor(base, x);
    }
    if base >= 3 && base % 2 == 1 {
      forall x
        ensures !IsDivisible(base, x)
      {
        OddBaseHasNone(base, x);
      }
    }
  }

  lemma SolutionFor(base: nat, x: seq<int>) returns (s: Var -> int)
    requires IsDivisible(base, x)
    ensures Satisfies(PrefixConstraints(base), s)
  {
    hide Satisfies, PrefixConstraints, Value;
    var n := base - 1;
    s := (v: Var) => match v
      case X(j) => if j < n then x[j] else 0
      case T(i) => if i < n then Value(base, x[..n - i]) else 0
      case D(i) => if i < n then Value(base, x[..n - i]) / (n - i) else 0;
    assert At(Xs(n), s) == x;
    ModelMeans(base, s);
  }

  // ---------- The posted constraints in full ----------

  /** What the modulo propagator posts, spelled out; the bounds of the quotient d come from those of x. */
  lemma MyModInFull(x: Var, lbx: int, ubx: int, y: Expr<Var>, r: Expr<Var>, d: Var, s: Var -> int)
    ensures var a, b, c, q := s(x), Eval(y, s), Eval(r, s), s(d);
      Satisfies(MyMod(x, lbx, ubx, y, r, d), s) <==>
        && c >= 0 && a * c >= 0 && (c < b || c < -b)
        && (if lbx < -ubx then lbx else -ubx) < q <= (if ubx < -lbx then -lbx else ubx)
        && a == b * q + c
  {
    hide Satisfies, MyMod, Eval;
    MyModMeans(x, lbx, ubx, y, r, d, s);
  }

  /** The posted constraints, spelled out: t[i] is the number of the first base - 1 - i digits, that number of digits
      divides it, and d[i] is the quotient. */
  lemma PrefixesInFull(base: nat, s: Var -> int)
    requires base > 0
    ensures var n, x := base - 1, At(Xs(base - 1), s);
      Satisfies(PrefixConstraints(base), s) <==>
        && (forall j :: 0 <= j < n ==> 1 <= x[j] <= base - 1) && Distinct(x)
        && (forall i: nat :: i < n ==> s(T(i)) == Value(base, x[..n - i]))
        && (forall i: nat :: i < n ==> s(T(i)) == (n - i) * s(D(i)))
  {
    hide Satisfies, PrefixConstraints, Value;
    ModelMeans(base, s);
    var n, x, t, d := base - 1, At(Xs(base - 1), s), At(Ts(base - 1), s), At(Ds(base - 1), s);
    forall i: nat | i < n
      ensures t[i] == s(T(i)) && d[i] == s(D(i))
      ensures t[i] == (n - i) * d[i] <==> t[i] % (n - i) == 0 && d[i] == t[i] / (n - i)
    {
      ExactQuotient(t[i], n - i, d[i]);
    }
    if forall i: nat :: i < n ==> t[i] == Value(base, x[..n - i]) {
      DividesByIndex(base, x, t);
    }
  }

  lemma ExactQuotient(a: int, b: int, q: int)
    requires b > 0
    ensures a == b * q <==> a % b == 0 && q == a / b
  {
    if a == b * q {
      SameQuotient(b, a / b, q, a % b, 0);
    }
  }

  lemma DividesByIndex(base: nat, x: seq<int>, t: seq<int>)
    requires base > 0 && |x| == |t| == base - 1
    requires forall i: nat :: i < base - 1 ==> t[i] == Value(base, x[..base - 1 - i])
    ensures (forall j :: 1 <= j < base ==> PrefixDivides(base, x, j)) <==>
      forall i: nat :: i < base - 1 ==> t[i] % (base - 1 - i) == 0
  {
    hide Value;
    var n := base - 1;
    if forall i: nat :: i < n ==> t[i] % (n - i) == 0 {
      forall j | 1 <= j < base
        ensures PrefixDivides(base, x, j)
      {
        assert t[n - j] % (n - (n - j)) == 0;
      }
    }
    if forall j :: 1 <= j < base ==> PrefixDivides(base, x, j) {
      forall i: nat | i < n
        ensures t[i] % (n - i) == 0
      {
        assert PrefixDivides(base, x, n - i);
      }
    }
  }
}
