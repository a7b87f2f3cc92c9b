/** The de Bruijn model: a cyclic code of length m whose windows of length n all differ. */
module DeBruijn {
  import opened Cp
  import opened Digits
  import opened Permutations

  datatype Var = X(i: nat) | Binary(i: nat, j: nat) | Code(i: nat) | Gcc(d: nat)

  function Xs(m: nat): (vs: seq<Var>)
    ensures |vs| == m && forall i :: 0 <= i < m ==> vs[i] == X(i)
  {
    seq(m, i requires 0 <= i => X(i))
  }

  function BinaryRow(i: nat, n: nat): (vs: seq<Var>)
    ensures |vs| == n && forall j :: 0 <= j < n ==> vs[j] == Binary(i, j)
  {
    seq(n, j requires 0 <= j => Binary(i, j))
  }

  function CodeVars(m: nat): (vs: seq<Var>)
    ensures |vs| == m && forall i :: 0 <= i < m ==> vs[i] == Code(i)
  {
    seq(m, i requires 0 <= i => Code(i))
  }

  function Gccs(base: nat): (vs: seq<Var>)
    ensures |vs| == base && forall d :: 0 <= d < base ==> vs[d] == Gcc(d)
  {
    seq(base, d requires 0 <= d => Gcc(d))
  }

  function BinaryDomains(base: nat, n: nat, k: nat): seq<Constraint<Var>> {
    if k == 0 then [] else BinaryDomains(base, n, k - 1) + Domains(BinaryRow(k - 1, n), 0, base - 1)
  }

  function Channels(base: nat, n: nat, k: nat): seq<Constraint<Var>> {
    if k == 0 then [] else Channels(base, n, k - 1) + [ToNum(BinaryRow(k - 1, n), X(k - 1), base)]
  }

  /** Row q is row p moved by one place, in its first k - 1 places. */
  function Overlap(p: nat, q: nat, k: nat): seq<Constraint<Var>>
    requires k > 0
  {
    if k == 1 then [] else Overlap(p, q, k - 1) + [Compare(Var(Binary(p, k - 1)), Eq, Var(Binary(q, k - 2)))]
  }

  function Overlaps(n: nat, k: nat): seq<Constraint<Var>>
    requires n > 0 && k > 0
  {
    if k == 1 then [] else Overlaps(n, k - 1) + Overlap(k - 2, k - 1, n)
  }

  function Codes(k: nat): seq<Constraint<Var>> {
    if k == 0 then [] else Codes(k - 1) + [Compare(Var(Code(k - 1)), Eq, Var(Binary(k - 1, 0)))]
  }

  function SameCounts(k: nat): seq<Constraint<Var>>
    requires k > 0
  {
    if k == 1 then [] else SameCounts(k - 1) + [Compare(Var(Gcc(k - 1)), Eq, Var(Gcc(k - 2)))]
  }

  function Declarations(base: nat, n: nat, m: nat): seq<Constraint<Var>> {
    Domains(Xs(m), 0, Pow(base, n) - 1) + BinaryDomains(base, n, m)
    + Domains(CodeVars(m), 0, base - 1) + Domains(Gccs(base), 0, m)
  }

  function Windows(base: nat, n: nat, m: nat): seq<Constraint<Var>>
    requires n > 0 && m > 0
  {
    [AllDifferent(Vars(Xs(m)))] + Channels(base, n, m) + Overlaps(n, m) + Overlap(m - 1, 0, n)
  }

  function Counting(base: nat, m: nat, checkSameGcc: bool): seq<Constraint<Var>>
    requires base > 0
  {
    Codes(m) + [Distribute(Vars(CodeVars(m)), Vars(Gccs(base)))]
    + if checkSameGcc && m % base == 0 then SameCounts(base) else []
  }

  /** The constraint that puts the smallest number first. */
  function MinFirst(m: nat): Constraint<Var> {
    IsMinimum(Var(X(0)), Vars(Xs(m)))
  }

  function SequenceConstraints(base: nat, n: nat, m: nat, checkSameGcc: bool): seq<Constraint<Var>>
    requires base > 0 && n > 0 && m > 0
  {
    Declarations(base, n, m) + Windows(base, n, m) + Counting(base, m, checkSameGcc)
  }

  /** The model, with the flag of the source and with or without the symmetry break. */
  method PostSequence(base: nat, n: nat, m: nat, checkSameGcc: bool, symmetryBreak: bool)
      returns (cs: seq<Constraint<Var>>)
    requires base > 0 && n > 0 && m > 0
    ensures cs == SequenceConstraints(base, n, m, checkSameGcc) + if symmetryBreak then [MinFirst(m)] else []
    ensures forall s: Var -> int :: Satisfies(cs, s) <==>
      IsSolution(base, n, m, checkSameGcc, s) && (symmetryBreak ==> StartsSmallest(base, n, At(CodeVars(m), s)))
  {
    hide BinaryDomains, Domains, Windows, Counting, Pow, Satisfies, IsSolution, StartsSmallest;
    var x := Xs(m);
    cs := Domains(x, 0, Pow(base, n) - 1);
    var binary, rows := DeclareBinary(base, n, m);
    cs := cs + rows;
    var binCode := CodeVars(m);
    cs := cs + Domains(binCode, 0, base - 1);
    var gcc := Gccs(base);
    cs := cs + Domains(gcc, 0, m);
    assert cs == Declarations(base, n, m);
    var windows := PostWindows(base, n, m, x, binary);
    cs := cs + windows;
    var counting := PostCounting(base, n, m, checkSameGcc, binary, binCode, gcc);
    cs := cs + counting;
    if symmetryBreak {
      cs := cs + [IsMinimum(Var(x[0]), Vars(x))];
    }
    assert cs == SequenceConstraints(base, n, m, checkSameGcc) + if symmetryBreak then [MinFirst(m)] else [];
    forall s: Var -> int
      ensures Satisfies(cs, s) <==>
        IsSolution(base, n, m, checkSameGcc, s) && (symmetryBreak ==> StartsSmallest(base, n, At(CodeVars(m), s)))
    {
      PostedMeans(base, n, m, checkSameGcc, symmetryBreak, s);
    }
  }

  predicate AreRows(binary: seq<seq<Var>>, n: nat) {
    forall i :: 0 <= i < |binary| ==> binary[i] == BinaryRow(i, n)
  }

  method DeclareBinary(base: nat, n: nat, m: nat) returns (binary: seq<seq<Var>>, cs: seq<Constraint<Var>>)
    ensures |binary| == m && AreRows(binary, n)
    ensures cs == BinaryDomains(base, n, m)
  {
    binary, cs := [], [];
    for i := 0 to m
      invariant |binary| == i && AreRows(binary, n)
      invariant cs == BinaryDomains(base, n, i)
    {
      var row, domains := [], [];
      for j := 0 to n
        invariant row == BinaryRow(i, j) && domains == Domains(BinaryRow(i, j), 0, base - 1)
      {
        row := row + [Binary(i, j)];
        domains := domains + [Domain(Binary(i, j), 0, base - 1)];
      }
      binary := binary + [row];
      cs := cs + domains;
    }
  }

  method PostWindows(base: nat, n: nat, m: nat, x: seq<Var>, binary: seq<seq<Var>>) returns (cs: seq<Constraint<Var>>)
    requires n > 0 && m > 0
    requires x == Xs(m) && |binary| == m && AreRows(binary, n)
    ensures cs == Windows(base, n, m)
  {
    hide ToNum;
    cs := [AllDifferent(Vars(x))];
    ghost var before := cs;
    for i := 0 to m
      invariant cs == before + Channels(base, n, i)
    {
      var t := new Var[n];
      for j := 0 to n
        invariant forall k :: 0 <= k < j ==> t[k] == Binary(i, k)
      {
        t[j] := binary[i][j];
      }
      assert t[..] == BinaryRow(i, n);
      var c := PostToNum(t[..], x[i], base);
      cs := cs + [c];
    }
    var overlaps := PostOverlaps(n, m, binary);
    cs := cs + overlaps;
    var corner := PostOverlap(m - 1, 0, n, binary);
    cs := cs + corner;
  }

  method PostOverlaps(n: nat, m: nat, binary: seq<seq<Var>>) returns (cs: seq<Constraint<Var>>)
    requires n > 0 && m > 0 && |binary| == m && AreRows(binary, n)
    ensures cs == Overlaps(n, m)
  {
    cs := [];
    for i := 1 to m
      invariant cs == Overlaps(n, i)
    {
      var shift := PostOverlap(i - 1, i, n, binary);
      cs := cs + shift;
    }
  }

  method PostOverlap(p: nat, q: nat, n: nat, binary: seq<seq<Var>>) returns (cs: seq<Constraint<Var>>)
    requires n > 0 && p < |binary| && q < |binary| && AreRows(binary, n)
    ensures cs == Overlap(p, q, n)
  {
    cs := [];
    for j := 1 to n
      invariant cs == Overlap(p, q, j)
    {
      cs := cs + [Compare(Var(binary[p][j]), Eq, Var(binary[q][j - 1]))];
    }
  }

  method PostCounting(base: nat, n: nat, m: nat, checkSameGcc: bool, binary: seq<seq<Var>>, binCode: seq<Var>,
      gcc: seq<Var>)
    returns (cs: seq<Constraint<Var>>)
    requires base > 0 && n > 0 && |binary| == m && AreRows(binary, n)
    requires binCode == CodeVars(m) && gcc == Gccs(base)
    ensures cs == Counting(base, m, checkSameGcc)
  {
    cs := [];
    for i := 0 to m
      invariant cs == Codes(i)
    {
      cs := cs + [Compare(Var(binCode[i]), Eq, Var(binary[i][0]))];
    }
    cs := cs + [Distribute(Vars(binCode), Vars(gcc))];
    if checkSameGcc && m % base == 0 {
      ghost var before := cs;
      for i := 1 to base
        invariant cs == before + SameCounts(i)
      {
        cs := cs + [Compare(Var(gcc[i]), Eq, Var(gcc[i - 1]))];
      }
    }
  }

  // ---------- Cyclic codes ----------

  function Window(code: seq<int>, i: nat, n: nat): (w: seq<int>)
    requires |code| > 0
    ensures |w| == n && forall j :: 0 <= j < n ==> w[j] == code[(i + j) % |code|]
  {
    seq(n, j requires 0 <= j => code[(i + j) % |code|])
  }

  ghost predicate SameWindow(code: seq<int>, n: nat, i: nat, k: nat)
    requires |code| > 0
  {
    Window(code, i, n) == Window(code, k, n)
  }

  /** A cyclic code in which no window of length n occurs twice. */
  ghost predicate IsCode(base: nat, n: nat, m: nat, code: seq<int>) {
    && base > 0 && n > 0 && m > 0 && |code| == m && InRange(code, 0, base)
    && forall i: nat, k: nat :: i < k < m ==> !SameWindow(code, n, i, k)
  }

  function Numbers(base: nat, n: nat, code: seq<int>): (r: seq<int>)
    requires |code| > 0
    ensures |r| == |code| && forall i :: 0 <= i < |code| ==> r[i] == Value(base, Window(code, i, n))
  {
    seq(|code|, i requires 0 <= i < |code| => Value(base, Window(code, i, n)))
  }

  function Counts(base: nat, code: seq<int>): (r: seq<int>)
    ensures |r| == base && forall d :: 0 <= d < base ==> r[d] == Count(code, d)
  {
    seq(base, d requires 0 <= d => Count(code, d))
  }

  lemma WindowDigits(base: nat, n: nat, code: seq<int>, i: nat)
    requires |code| > 0 && InRange(code, 0, base)
    ensures InRange(Window(code, i, n), 0, base)
  {}

  /** The windows differ exactly when their numbers do. */
  lemma NumbersDiffer(base: nat, n: nat, code: seq<int>)
    requires base > 0 && n > 0 && |code| > 0 && InRange(code, 0, base)
    ensures Distinct(Numbers(base, n, code)) <==> IsCode(base, n, |code|, code)
    ensures InRange(Numbers(base, n, code), 0, Pow(base, n))
  {
    hide Value, Pow;
    var xs := Numbers(base, n, code);
    forall i | 0 <= i < |code|
      ensures 0 <= xs[i] < Pow(base, n)
    {
      WindowDigits(base, n, code, i);
      ValueInRange(base, Window(code, i, n));
    }
    forall i: nat, k: nat | i < k < |code|
      ensures xs[i] == xs[k] <==> SameWindow(code, n, i, k)
    {
      WindowDigits(base, n, code, i);
      WindowDigits(base, n, code, k);
      if xs[i] == xs[k] {
        ValueIsInjective(base, Window(code, i, n), Window(code, k, n));
      }
    }
  }

  /** There is no code longer than the number of words. */
  lemma LengthIsLimited(base: nat, n: nat, m: nat, code: seq<int>)
    requires IsCode(base, n, m, code)
    ensures m <= Pow(base, n)
  {
    hide IsCode, Pow;
    CodeShape(base, n, m, code);
    NumbersDiffer(base, n, code);
    Pigeonhole(Numbers(base, n, code), 0, Pow(base, n));
  }

  lemma CodeShape(base: nat, n: nat, m: nat, code: seq<int>)
    requires IsCode(base, n, m, code)
    ensures base > 0 && n > 0 && m > 0 && |code| == m && InRange(code, 0, base)
  {}

  // ---------- Full length: a de Bruijn sequence ----------

  /** At full length every word is the window of exactly one place. */
  lemma EveryWordOnce(base: nat, n: nat, m: nat, code: seq<int>, w: seq<int>) returns (i: nat)
    requires IsCode(base, n, m, code) && m == Pow(base, n) && |w| == n && InRange(w, 0, base)
    ensures i < m && Window(code, i, n) == w
    ensures forall k: nat :: k < m && k != i ==> Window(code, k, n) != w
  {
    hide Pow, Value;
    NumbersDiffer(base, n, code);
    var xs := Numbers(base, n, code);
    Pigeonhole(xs, 0, m);
    ValueInRange(base, w);
    assert Value(base, w) in xs;
    i :| 0 <= i < m && xs[i] == Value(base, w);
    WindowDigits(base, n, code, i);
    ValueIsInjective(base, Window(code, i, n), w);
    forall k: nat | k < m && k != i
      ensures Window(code, k, n) != w
    {
      assert !SameWindow(code, n, if i < k then i else k, if i < k then k else i);
    }
  }

  /** 1 for the numbers whose leading digit is d. */
  function Leads(p: nat, d: int, v: int): int {
    if d * p <= v < (d + 1) * p then 1 else 0
  }

  lemma {:induction false} CountLeading(p: nat, d: nat, hi: nat)
    ensures SumRange(v => Leads(p, d, v), 0, hi) ==
      (if hi <= d * p then 0 else if hi <= (d + 1) * p then hi - d * p else p)
  {
    if hi > 0 {
      CountLeading(p, d, hi - 1);
      assert d * p <= (d + 1) * p == d * p + p;
    }
  }

  lemma {:induction false} CountIsSum(p: nat, d: int, code: seq<int>, xs: seq<int>)
    requires |code| == |xs| && forall i :: 0 <= i < |code| ==> Leads(p, d, xs[i]) == if code[i] == d then 1 else 0
    ensures Count(code, d) == SumOver(v => Leads(p, d, v), xs)
  {
    hide Leads;
    if code != [] {
      CountIsSum(p, d, code[..|code| - 1], xs[..|xs| - 1]);
    }
  }

  lemma CodeLeads(base: nat, n: nat, code: seq<int>, i: nat, d: nat)
    requires n > 0 && i < |code| && InRange(code, 0, base)
    ensures Leads(Pow(base, n - 1), d, Numbers(base, n, code)[i]) == if code[i] == d then 1 else 0
  {
    hide Pow, Value;
    var w := Window(code, i, n);
    WindowDigits(base, n, code, i);
    LeadingDigit(base, w);
    ValueInRange(base, w[1..]);
    assert w[0] == code[i];
    OneLeads(Pow(base, n - 1), d, code[i], Value(base, w[1..]));
  }

  lemma OneLeads(p: nat, d: int, e: int, v: int)
    requires 0 <= v < p
    ensures Leads(p, d, e * p + v) == if e == d then 1 else 0
  {
    if e < d {
      Multiply(p, e + 1, d);
    } else if e > d {
      Multiply(p, d + 1, e);
    }
  }

  /** At full length every digit occurs equally often, so asking for equal counts adds nothing. */
  lemma EveryDigitEquallyOften(base: nat, n: nat, m: nat, code: seq<int>, d: nat)
    requires IsCode(base, n, m, code) && m == Pow(base, n) && d < base
    ensures Count(code, d) == Pow(base, n - 1)
  {
    hide Leads, Value, IsCode;
    CodeShape(base, n, m, code);
    var p, xs := Pow(base, n - 1), Numbers(base, n, code);
    NumbersDiffer(base, n, code);
    forall i | 0 <= i < m
      ensures Leads(p, d, xs[i]) == if code[i] == d then 1 else 0
    {
      CodeLeads(base, n, code, i, d);
    }
    CountIsSum(p, d, code, xs);
    PermutationSum(v => Leads(p, d, v), xs, 0, m);
    CountLeading(p, d, m);
    Multiply(p, d + 1, base);
  }

  // ---------- Rotations ----------

  function Rotated(code: seq<int>, r: nat): (c: seq<int>)
    requires |code| > 0
    ensures |c| == |code| && forall i :: 0 <= i < |code| ==> c[i] == code[(i + r) % |code|]
  {
    seq(|code|, i requires 0 <= i => code[(i + r) % |code|])
  }

  lemma ModIs(a: nat, m: nat, q: int, r: int)
    requires a == m * q + r && 0 <= r < m
    ensures a % m == r
  {
    SameQuotient(m, a / m, q, a % m, r);
  }

  lemma ModPlus(a: nat, r: nat, sum: nat, m: nat)
    requires m > 0 && sum == a + r
    ensures (a % m + r) % m == sum % m
  {
    var x := a % m + r;
    Distribute3(m, a / m, x / m);
    ModIs(sum, m, a / m + x / m, x % m);
  }

  lemma Distribute3(m: int, p: int, q: int)
    ensures m * (p + q) == m * p + m * q
  {}

  function Mod(a: nat, m: nat): (r: nat)
    requires m > 0
  {
    a % m
  }

  lemma ModSwap(i: nat, j: nat, r: nat, m: nat)
    requires m > 0
    ensures Mod(Mod(i + j, m) + r, m) == Mod(Mod(i + r, m) + j, m)
  {
    hide Mod;
    ModSum(i + j, r, i + j + r, m);
    ModSum(i + r, j, i + j + r, m);
  }

  lemma ModSum(a: nat, r: nat, sum: nat, m: nat)
    requires m > 0 && sum == a + r
    ensures Mod(Mod(a, m) + r, m) == Mod(sum, m)
  {
    ModPlus(a, r, sum, m);
  }

  lemma RotatedWindow(code: seq<int>, r: nat, i: nat, n: nat)
    requires i < |code|
    ensures Window(Rotated(code, r), i, n) == Window(code, (i + r) % |code|, n)
  {
    hide Rotated;
    var c, m := Rotated(code, r), |code|;
    forall j | 0 <= j < n
      ensures Window(c, i, n)[j] == Window(code, (i + r) % m, n)[j]
    {
      ModSwap(i, j, r, m);
      RotatedAt(code, r, Mod(i + j, m), Mod(Mod(i + r, m) + j, m));
    }
  }

  lemma RotatedAt(code: seq<int>, r: nat, k: nat, l: nat)
    requires k < |code| && Mod(k + r, |code|) == l
    ensures l < |code| && Rotated(code, r)[k] == code[l]
  {}

  /** A rotation of a code is a code. */
  lemma RotationIsCode(base: nat, n: nat, m: nat, code: seq<int>, r: nat)
    requires IsCode(base, n, m, code) && r < m
    ensures IsCode(base, n, m, Rotated(code, r))
  {
    hide Window;
    var c := Rotated(code, r);
    forall i: nat, k: nat | i < k < m
      ensures !SameWindow(c, n, i, k)
    {
      RotatedWindow(code, r, i, n);
      RotatedWindow(code, r, k, n);
      var a, b := (i + r) % m, (k + r) % m;
      Shifted(i, k, r, m);
      assert !SameWindow(code, n, if a < b then a else b, if a < b then b else a);
    }
  }

  lemma Shifted(i: nat, k: nat, r: nat, m: nat)
    requires i < k < m && r < m
    ensures (i + r) % m != (k + r) % m
  {
    Wrap(i + r, m);
    Wrap(k + r, m);
  }

  lemma Wrap(a: nat, m: nat)
    requires a < 2 * m
    ensures a % m == if a < m then a else a - m
  {}

  ghost predicate IsSmallest(xs: seq<int>, r: nat)
    requires r < |xs|
  {
    forall i :: 0 <= i < |xs| ==> xs[r] <= xs[i]
  }

  ghost predicate StartsSmallest(base: nat, n: nat, code: seq<int>)
    requires |code| > 0
  {
    IsSmallest(Numbers(base, n, code), 0)
  }

  lemma RotatedNumber(base: nat, n: nat, code: seq<int>, r: nat, i: nat)
    requires i < |code|
    ensures Numbers(base, n, Rotated(code, r))[i] == Numbers(base, n, code)[(i + r) % |code|]
  {
    RotatedWindow(code, r, i, n);
  }

  lemma RotatedSmallest(xs: seq<int>, ys: seq<int>, r: nat)
    requires r < |xs| == |ys| && forall i :: 0 <= i < |xs| ==> ys[i] == xs[(i + r) % |xs|]
    ensures IsSmallest(ys, 0) <==> IsSmallest(xs, r)
  {
    var m := |xs|;
    Wrap(r, m);
    assert ys[0] == xs[(0 + r) % m];
    if IsSmallest(ys, 0) {
      forall i | 0 <= i < m
        ensures xs[r] <= xs[i]
      {
        var k := if i >= r then i - r else i - r + m;
        Wrap(k + r, m);
        assert ys[0] <= ys[k];
      }
    }
  }

  /** A rotation starts with the smallest number exactly when it starts where that number is. */
  lemma StartOfRotation(base: nat, n: nat, code: seq<int>, r: nat)
    requires r < |code|
    ensures StartsSmallest(base, n, Rotated(code, r)) <==> IsSmallest(Numbers(base, n, code), r)
  {
    hide Value, Window, IsSmallest;
    forall i | 0 <= i < |code|
      ensures Numbers(base, n, Rotated(code, r))[i] == Numbers(base, n, code)[(i + r) % |code|]
    {
      RotatedNumber(base, n, code, r, i);
    }
    RotatedSmallest(Numbers(base, n, code), Numbers(base, n, Rotated(code, r)), r);
  }

  lemma {:induction false} Smallest(xs: seq<int>) returns (r: nat)
    requires xs != []
    ensures r < |xs| && forall i :: 0 <= i < |xs| ==> xs[r] <= xs[i]
  {
    r := 0;
    if |xs| > 1 {
      r := Smallest(xs[..|xs| - 1]);
      if xs[|xs| - 1] < xs[r] {
        r := |xs| - 1;
      }
    }
  }

  /** The symmetry break keeps exactly one rotation of each code. */
  lemma OneRotationPasses(base: nat, n: nat, m: nat, code: seq<int>) returns (r: nat)
    requires IsCode(base, n, m, code)
    ensures r < m && IsCode(base, n, m, Rotated(code, r)) && StartsSmallest(base, n, Rotated(code, r))
    ensures forall k: nat :: k < m && k != r ==> !StartsSmallest(base, n, Rotated(code, k))
  {
    hide IsCode, StartsSmallest, Window, Value;
    CodeShape(base, n, m, code);
    NumbersDiffer(base, n, code);
    var xs := Numbers(base, n, code);
    r := Smallest(xs);
    RotationIsCode(base, n, m, code, r);
    StartOfRotation(base, n, code, r);
    forall k: nat | k < m && k != r
      ensures !StartsSmallest(base, n, Rotated(code, k))
    {
      StartOfRotation(base, n, code, k);
      assert xs[r] != xs[k] && xs[r] <= xs[k];
    }
  }

  // ---------- The posted model ----------

  lemma {:induction false} BinaryDomainsMean(base: nat, n: nat, k: nat, s: Var -> int)
    ensures Satisfies(BinaryDomains(base, n, k), s) <==>
      forall i :: 0 <= i < k ==> InRange(At(BinaryRow(i, n), s), 0, base)
  {
    if k == 0 {
      NothingToSatisfy(s);
    } else {
      BinaryDomainsMean(base, n, k - 1, s);
      SatisfiesConcat(BinaryDomains(base, n, k - 1), Domains(BinaryRow(k - 1, n), 0, base - 1), s);
      RangeMeans(BinaryRow(k - 1, n), base, s);
    }
  }

  lemma RangeMeans(vs: seq<Var>, hi: nat, s: Var -> int)
    ensures Satisfies(Domains(vs, 0, hi - 1), s) <==> InRange(At(vs, s), 0, hi)
  {
    hide Domains, Satisfies;
    DomainsHold(vs, 0, hi - 1, s);
  }

  lemma {:induction false} ChannelsMean(base: nat, n: nat, k: nat, s: Var -> int)
    ensures Satisfies(Channels(base, n, k), s) <==>
      forall i :: 0 <= i < k ==> s(X(i)) == Value(base, At(BinaryRow(i, n), s))
  {
    hide Value, ToNum, Satisfies;
    if k == 0 {
      NothingToSatisfy(s);
    } else {
      ChannelsMean(base, n, k - 1, s);
      var c := ToNum(BinaryRow(k - 1, n), X(k - 1), base);
      SatisfiesConcat(Channels(base, n, k - 1), [c], s);
      SatisfiesOne(c, s);
      ToNumMeans(BinaryRow(k - 1, n), X(k - 1), base, s);
    }
  }

  /** Row q of binary is row p moved by one place. */
  ghost predicate Follows(s: Var -> int, p: nat, q: nat, k: nat) {
    forall j: nat :: j + 1 < k ==> s(Binary(q, j)) == s(Binary(p, j + 1))
  }

  lemma {:induction false} OverlapMeans(p: nat, q: nat, k: nat, s: Var -> int)
    requires k > 0
    ensures Satisfies(Overlap(p, q, k), s) <==> Follows(s, p, q, k)
  {
    if k == 1 {
      NothingToSatisfy(s);
    } else {
      OverlapMeans(p, q, k - 1, s);
      var c := Compare(Var(Binary(p, k - 1)), Eq, Var(Binary(q, k - 2)));
      SatisfiesConcat(Overlap(p, q, k - 1), [c], s);
      SatisfiesOne(c, s);
      assert Holds(c, s) <==> s(Binary(q, k - 2)) == s(Binary(p, k - 2 + 1));
    }
  }

  ghost predicate NextFollows(s: Var -> int, i: nat, n: nat) {
    Follows(s, i, i + 1, n)
  }

  lemma {:induction false} OverlapsMean(n: nat, k: nat, s: Var -> int)
    requires n > 0 && k > 0
    ensures Satisfies(Overlaps(n, k), s) <==> forall i: nat :: i < k - 1 ==> NextFollows(s, i, n)
  {
    hide Follows, Satisfies, Overlap;
    if k == 1 {
      NothingToSatisfy(s);
    } else {
      OverlapsMean(n, k - 1, s);
      SatisfiesConcat(Overlaps(n, k - 1), Overlap(k - 2, k - 1, n), s);
      OverlapMeans(k - 2, k - 1, n, s);
      assert Follows(s, k - 2, k - 1, n) <==> NextFollows(s, k - 2, n);
    }
  }

  lemma {:induction false} CodesMean(k: nat, s: Var -> int)
    ensures Satisfies(Codes(k), s) <==> forall i: nat :: i < k ==> s(Code(i)) == s(Binary(i, 0))
  {
    if k == 0 {
      NothingToSatisfy(s);
    } else {
      CodesMean(k - 1, s);
      var c := Compare(Var(Code(k - 1)), Eq, Var(Binary(k - 1, 0)));
      SatisfiesConcat(Codes(k - 1), [c], s);
      SatisfiesOne(c, s);
    }
  }

  lemma {:induction false} SameCountsMean(k: nat, s: Var -> int)
    requires k > 0
    ensures Satisfies(SameCounts(k), s) <==> forall d: nat :: d < k ==> s(Gcc(d)) == s(Gcc(0))
  {
    if k == 1 {
      NothingToSatisfy(s);
    } else {
      SameCountsMean(k - 1, s);
      var c := Compare(Var(Gcc(k - 1)), Eq, Var(Gcc(k - 2)));
      SatisfiesConcat(SameCounts(k - 1), [c], s);
      SatisfiesOne(c, s);
    }
  }

  ghost predicate RowIsWindow(n: nat, m: nat, i: nat, s: Var -> int)
    requires m > 0
  {
    At(BinaryRow(i, n), s) == Window(At(CodeVars(m), s), i, n)
  }

  ghost predicate RowsOverlap(n: nat, m: nat, s: Var -> int)
    requires m > 0
  {
    (forall i: nat :: i < m - 1 ==> NextFollows(s, i, n)) && Follows(s, m - 1, 0, n)
  }

  function NextRow(i: nat, m: nat): (q: nat)
    requires i < m
    ensures q < m && q == (i + 1) % m
  {
    Wrap(i + 1, m);
    if i + 1 < m then i + 1 else 0
  }

  lemma RowFollows(n: nat, m: nat, s: Var -> int, i: nat)
    requires m > 0 && RowsOverlap(n, m, s) && i < m
    ensures Follows(s, i, NextRow(i, m), n)
  {
    assert i < m - 1 ==> NextFollows(s, i, n);
  }

  lemma {:induction false} BinaryIsCode(n: nat, m: nat, s: Var -> int, i: nat, j: nat)
    requires i < m && j < n && RowsOverlap(n, m, s) && forall i: nat :: i < m ==> s(Code(i)) == s(Binary(i, 0))
    ensures s(Binary(i, j)) == s(Code((i + j) % m))
    decreases j
  {
    hide RowsOverlap;
    if j == 0 {
      Wrap(i, m);
    } else {
      var q := NextRow(i, m);
      RowFollows(n, m, s, i);
      BinaryIsCode(n, m, s, q, j - 1);
      ModPlus(i + 1, j - 1, i + j, m);
      assert s(Binary(q, j - 1)) == s(Binary(i, j - 1 + 1));
    }
  }

  lemma RowsFollow(n: nat, m: nat, s: Var -> int, i: nat)
    requires i < m && RowIsWindow(n, m, i, s) && RowIsWindow(n, m, NextRow(i, m), s)
    ensures Follows(s, i, NextRow(i, m), n)
  {
    var q, code := NextRow(i, m), At(CodeVars(m), s);
    forall j: nat | j + 1 < n
      ensures s(Binary(q, j)) == s(Binary(i, j + 1))
    {
      ModPlus(i + 1, j, i + (j + 1), m);
      assert At(BinaryRow(q, n), s)[j] == Window(code, q, n)[j];
      assert At(BinaryRow(i, n), s)[j + 1] == Window(code, i, n)[j + 1];
    }
  }

  /** Overlapping rows that start with the code are exactly its cyclic windows. */
  lemma RowsAreWindows(n: nat, m: nat, s: Var -> int)
    requires n > 0 && m > 0
    ensures RowsOverlap(n, m, s) && (forall i: nat :: i < m ==> s(Code(i)) == s(Binary(i, 0))) <==>
      forall i: nat :: i < m ==> RowIsWindow(n, m, i, s)
  {
    hide Follows;
    var code := At(CodeVars(m), s);
    if RowsOverlap(n, m, s) && forall i: nat :: i < m ==> s(Code(i)) == s(Binary(i, 0)) {
      forall i: nat | i < m
        ensures RowIsWindow(n, m, i, s)
      {
        forall j | 0 <= j < n
          ensures At(BinaryRow(i, n), s)[j] == Window(code, i, n)[j]
        {
          BinaryIsCode(n, m, s, i, j);
        }
      }
    }
    if forall i: nat :: i < m ==> RowIsWindow(n, m, i, s) {
      forall i: nat | i < m
        ensures Follows(s, i, NextRow(i, m), n) && s(Code(i)) == s(Binary(i, 0))
      {
        RowsFollow(n, m, s, i);
        StartOfRow(n, m, s, i);
      }
      forall i: nat | i < m - 1
        ensures NextFollows(s, i, n)
      {
        assert Follows(s, i, NextRow(i, m), n);
      }
      assert Follows(s, m - 1, NextRow(m - 1, m), n);
    }
  }

  lemma StartOfRow(n: nat, m: nat, s: Var -> int, i: nat)
    requires n > 0 && i < m && RowIsWindow(n, m, i, s)
    ensures s(Code(i)) == s(Binary(i, 0))
  {
    Wrap(i, m);
    assert At(BinaryRow(i, n), s)[0] == Window(At(CodeVars(m), s), i, n)[0];
  }

  lemma DistributeMeans(base: nat, m: nat, s: Var -> int)
    ensures Holds(Distribute(Vars(CodeVars(m)), Vars(Gccs(base))), s) <==>
      At(Gccs(base), s) == Counts(base, At(CodeVars(m), s))
  {
    hide Count, Values;
    ValuesOfVars(CodeVars(m), s);
    ValuesOfVars(Gccs(base), s);
  }

  ghost predicate EqualCounts(base: nat, code: seq<int>) {
    forall d: nat :: d < base ==> Count(code, d) == Count(code, 0)
  }

  /** What the posted constraints say: everything is determined by the code. */
  ghost predicate IsSolution(base: nat, n: nat, m: nat, checkSameGcc: bool, s: Var -> int)
    requires base > 0 && m > 0
  {
    var code := At(CodeVars(m), s);
    && IsCode(base, n, m, code)
    && (forall i: nat :: i < m ==> RowIsWindow(n, m, i, s))
    && At(Xs(m), s) == Numbers(base, n, code)
    && At(Gccs(base), s) == Counts(base, code)
    && (checkSameGcc && m % base == 0 ==> EqualCounts(base, code))
  }

  ghost predicate IsDeclared(base: nat, n: nat, m: nat, s: Var -> int) {
    && InRange(At(Xs(m), s), 0, Pow(base, n)) && (forall i :: 0 <= i < m ==> InRange(At(BinaryRow(i, n), s), 0, base))
    && InRange(At(CodeVars(m), s), 0, base) && InRange(At(Gccs(base), s), 0, m + 1)
  }

  lemma DeclarationsMean(base: nat, n: nat, m: nat, s: Var -> int)
    ensures Satisfies(Declarations(base, n, m), s) <==> IsDeclared(base, n, m, s)
  {
    hide Domains, BinaryDomains, Satisfies, InRange, Pow;
    var a, b, c, d := Domains(Xs(m), 0, Pow(base, n) - 1), BinaryDomains(base, n, m),
      Domains(CodeVars(m), 0, base - 1), Domains(Gccs(base), 0, m);
    SatisfiesConcat(a, b, s);
    SatisfiesConcat(a + b, c, s);
    SatisfiesConcat(a + b + c, d, s);
    RangeMeans(Xs(m), Pow(base, n), s);
    BinaryDomainsMean(base, n, m, s);
    RangeMeans(CodeVars(m), base, s);
    RangeMeans(Gccs(base), m + 1, s);
  }

  lemma WindowsMean(base: nat, n: nat, m: nat, s: Var -> int)
    requires n > 0 && m > 0
    ensures Satisfies(Windows(base, n, m), s) <==>
      (Distinct(At(Xs(m), s)) && RowsOverlap(n, m, s)
      && forall i :: 0 <= i < m ==> s(X(i)) == Value(base, At(BinaryRow(i, n), s)))
  {
    hide Channels, Overlaps, Overlap, Satisfies, Distinct, Follows, Value;
    var first, b, c, d := AllDifferent(Vars(Xs(m))), Channels(base, n, m), Overlaps(n, m), Overlap(m - 1, 0, n);
    SatisfiesConcat([first], b, s);
    SatisfiesConcat([first] + b, c, s);
    SatisfiesConcat([first] + b + c, d, s);
    SatisfiesOne(first, s);
    ValuesOfVars(Xs(m), s);
    ChannelsMean(base, n, m, s);
    OverlapsMean(n, m, s);
    OverlapMeans(m - 1, 0, n, s);
  }

  lemma CountingMeans(base: nat, m: nat, checkSameGcc: bool, s: Var -> int)
    requires base > 0
    ensures Satisfies(Counting(base, m, checkSameGcc), s) <==>
      ((forall i: nat :: i < m ==> s(Code(i)) == s(Binary(i, 0)))
      && At(Gccs(base), s) == Counts(base, At(CodeVars(m), s))
      && (checkSameGcc && m % base == 0 ==> EqualCounts(base, At(CodeVars(m), s))))
  {
    hide Codes, SameCounts, Satisfies, Holds;
    var counts := Distribute(Vars(CodeVars(m)), Vars(Gccs(base)));
    var rest := if checkSameGcc && m % base == 0 then SameCounts(base) else [];
    SatisfiesConcat(Codes(m), [counts], s);
    SatisfiesConcat(Codes(m) + [counts], rest, s);
    CodesMean(m, s);
    SatisfiesOne(counts, s);
    DistributeMeans(base, m, s);
    SameCountsMean(base, s);
    NothingToSatisfy(s);
    var gs, code := At(Gccs(base), s), At(CodeVars(m), s);
    assert forall d: nat :: d < base ==> gs[d] == s(Gcc(d));
    assert gs == Counts(base, code) ==> forall d: nat :: d < base ==> s(Gcc(d)) == Count(code, d);
  }

  lemma CountsFit(base: nat, n: nat, m: nat, checkSameGcc: bool, s: Var -> int)
    requires base > 0 && n > 0 && m > 0 && IsSolution(base, n, m, checkSameGcc, s)
    ensures IsDeclared(base, n, m, s)
  {
    hide Value, Pow, IsCode;
    var code := At(CodeVars(m), s);
    CodeShape(base, n, m, code);
    NumbersDiffer(base, n, code);
    forall i | 0 <= i < m
      ensures InRange(At(BinaryRow(i, n), s), 0, base)
    {
      assert RowIsWindow(n, m, i, s);
      WindowDigits(base, n, code, i);
    }
  }

  lemma NumbersAreChannelled(base: nat, n: nat, m: nat, s: Var -> int)
    requires m > 0 && forall i: nat :: i < m ==> RowIsWindow(n, m, i, s)
    ensures At(Xs(m), s) == Numbers(base, n, At(CodeVars(m), s)) <==>
      forall i :: 0 <= i < m ==> s(X(i)) == Value(base, At(BinaryRow(i, n), s))
  {
    hide Value, Window;
    var xs, ns := At(Xs(m), s), Numbers(base, n, At(CodeVars(m), s));
    assert forall i: nat :: i < m ==> RowIsWindow(n, m, i, s) && ns[i] == Value(base, At(BinaryRow(i, n), s));
    assert forall i :: 0 <= i < m ==> xs[i] == s(X(i));
  }

  /** The model without its symmetry break. */
  lemma SequenceMeans(base: nat, n: nat, m: nat, checkSameGcc: bool, s: Var -> int)
    requires base > 0 && n > 0 && m > 0
    ensures Satisfies(SequenceConstraints(base, n, m, checkSameGcc), s) <==> IsSolution(base, n, m, checkSameGcc, s)
  {
    hide Declarations, Windows, Counting, Satisfies, IsCode, RowsOverlap, Value, Pow, RowIsWindow, EqualCounts;
    var a, b, c := Declarations(base, n, m), Windows(base, n, m), Counting(base, m, checkSameGcc);
    SatisfiesConcat(a, b, s);
    SatisfiesConcat(a + b, c, s);
    DeclarationsMean(base, n, m, s);
    WindowsMean(base, n, m, s);
    CountingMeans(base, m, checkSameGcc, s);
    RowsAreWindows(n, m, s);
    var code := At(CodeVars(m), s);
    if InRange(code, 0, base) {
      NumbersDiffer(base, n, code);
    }
    if forall i: nat :: i < m ==> RowIsWindow(n, m, i, s) {
      NumbersAreChannelled(base, n, m, s);
    }
    if IsSolution(base, n, m, checkSameGcc, s) {
      CodeShape(base, n, m, code);
      CountsFit(base, n, m, checkSameGcc, s);
    }
  }

  /** The symmetry break keeps the solutions whose code starts with its smallest number. */
  lemma MinFirstMeans(base: nat, n: nat, m: nat, checkSameGcc: bool, s: Var -> int)
    requires base > 0 && n > 0 && m > 0 && IsSolution(base, n, m, checkSameGcc, s)
    ensures Holds(MinFirst(m), s) <==> StartsSmallest(base, n, At(CodeVars(m), s))
  {
    hide Value, Pow, IsCode;
    ValuesOfVars(Xs(m), s);
    assert At(Xs(m), s)[0] == s(X(0));
    CodeShape(base, n, m, At(CodeVars(m), s));
  }

  /** The whole model, with or without its symmetry break. */
  lemma PostedMeans(base: nat, n: nat, m: nat, checkSameGcc: bool, symmetryBreak: bool, s: Var -> int)
    requires base > 0 && n > 0 && m > 0
    ensures var cs := SequenceConstraints(base, n, m, checkSameGcc) + if symmetryBreak then [MinFirst(m)] else [];
      Satisfies(cs, s) <==>
        IsSolution(base, n, m, checkSameGcc, s) &&
        (symmetryBreak ==> StartsSmallest(base, n, At(CodeVars(m), s)))
  {
    hide Satisfies, SequenceConstraints, IsSolution, StartsSmallest, MinFirst;
    SatisfiesConcat(SequenceConstraints(base, n, m, checkSameGcc), if symmetryBreak then [MinFirst(m)] else [], s);
    NothingToSatisfy(s);
    SatisfiesOne(MinFirst(m), s);
    SequenceMeans(base, n, m, checkSameGcc, s);
    if IsSolution(base, n, m, checkSameGcc, s) {
      MinFirstMeans(base, n, m, checkSameGcc, s);
    }
  }

  /** Each code extends to a solution, if its digits occur equally often where that is asked for. */
  lemma SolutionFor(base: nat, n: nat, m: nat, code: seq<int>, checkSameGcc: bool) returns (s: Var -> int)
    requires IsCode(base, n, m, code) && (checkSameGcc && m % base == 0 ==> EqualCounts(base, code))
    ensures At(CodeVars(m), s) == code && Satisfies(SequenceConstraints(base, n, m, checkSameGcc), s)
  {
    hide Value, Pow, IsCode, Satisfies, SequenceConstraints, Count, EqualCounts;
    CodeShape(base, n, m, code);
    s := (v: Var) => match v
      case X(i) => if i < m then Numbers(base, n, code)[i] else 0
      case Binary(i, j) => code[(i + j) % m]
      case Code(i) => if i < m then code[i] else 0
      case Gcc(d) => Count(code, d);
    assert At(CodeVars(m), s) == code;
    assert At(Xs(m), s) == Numbers(base, n, code);
    assert At(Gccs(base), s) == Counts(base, code);
    forall i: nat | i < m
      ensures RowIsWindow(n, m, i, s)
    {
      assert At(BinaryRow(i, n), s) == Window(code, i, n);
    }
    SequenceMeans(base, n, m, checkSameGcc, s);
  }

  /** The posted constraints, spelled out on the variables. */
  lemma SequenceInFull(base: nat, n: nat, m: nat, checkSameGcc: bool, symmetryBreak: bool, s: Var -> int)
    requires base > 0 && n > 0 && m > 0
    ensures
      Satisfies(SequenceConstraints(base, n, m, checkSameGcc) + if symmetryBreak then [MinFirst(m)] else [], s) <==>
        && (forall i: nat :: i < m ==> 0 <= s(Code(i)) < base)
        && (forall i: nat, j: nat :: i < m && j < n ==> s(Binary(i, j)) == s(Code((i + j) % m)))
        && (forall i: nat :: i < m ==> s(X(i)) == Value(base, At(BinaryRow(i, n), s)))
        && (forall i: nat, k: nat :: i < k < m ==> s(X(i)) != s(X(k)))
        && (forall d: nat :: d < base ==> s(Gcc(d)) == Count(At(CodeVars(m), s), d))
        && (checkSameGcc && m % base == 0 ==> forall d: nat :: d < base ==> s(Gcc(d)) == s(Gcc(0)))
        && (symmetryBreak ==> forall i: nat :: i < m ==> s(X(0)) <= s(X(i)))
  {
    hide Satisfies, SequenceConstraints, MinFirst, IsSolution, StartsSmallest, Value, Count, Numbers;
    PostedMeans(base, n, m, checkSameGcc, symmetryBreak, s);
    WindowsInFull(n, m, s);
    SolutionInFull(base, n, m, checkSameGcc, s);
    if IsSolution(base, n, m, checkSameGcc, s) {
      SmallestInFull(base, n, m, checkSameGcc, s);
    }
  }

  lemma WindowsInFull(n: nat, m: nat, s: Var -> int)
    requires m > 0
    ensures (forall i: nat :: i < m ==> RowIsWindow(n, m, i, s)) <==>
      forall i: nat, j: nat :: i < m && j < n ==> s(Binary(i, j)) == s(Code((i + j) % m))
  {
    if forall i: nat :: i < m ==> RowIsWindow(n, m, i, s) {
      forall i: nat, j: nat | i < m && j < n
        ensures s(Binary(i, j)) == s(Code((i + j) % m))
      {
        RowInFull(n, m, i, s);
      }
    } else {
      var i: nat :| i < m && !RowIsWindow(n, m, i, s);
      RowInFull(n, m, i, s);
      var j: nat :| j < n && s(Binary(i, j)) != s(Code((i + j) % m));
    }
  }

  lemma RowInFull(n: nat, m: nat, i: nat, s: Var -> int)
    requires m > 0
    ensures RowIsWindow(n, m, i, s) <==> forall j: nat :: j < n ==> s(Binary(i, j)) == s(Code((i + j) % m))
  {
    var row, window := At(BinaryRow(i, n), s), Window(At(CodeVars(m), s), i, n);
    forall j: nat | j < n
      ensures row[j] == s(Binary(i, j)) && window[j] == s(Code((i + j) % m))
    {
      assert window[j] == At(CodeVars(m), s)[(i + j) % m];
    }
  }

  lemma SolutionInFull(base: nat, n: nat, m: nat, checkSameGcc: bool, s: Var -> int)
    requires base > 0 && n > 0 && m > 0
    ensures IsSolution(base, n, m, checkSameGcc, s) <==>
      && (forall i: nat :: i < m ==> 0 <= s(Code(i)) < base)
      && (forall i: nat :: i < m ==> RowIsWindow(n, m, i, s))
      && (forall i: nat :: i < m ==> s(X(i)) == Value(base, At(BinaryRow(i, n), s)))
      && (forall i: nat, k: nat :: i < k < m ==> s(X(i)) != s(X(k)))
      && (forall d: nat :: d < base ==> s(Gcc(d)) == Count(At(CodeVars(m), s), d))
      && (checkSameGcc && m % base == 0 ==> forall d: nat :: d < base ==> s(Gcc(d)) == s(Gcc(0)))
  {
    hide Value, Count, IsCode, RowIsWindow, Window;
    var code, xs := At(CodeVars(m), s), At(Xs(m), s);
    assert InRange(code, 0, base) <==> forall i: nat :: i < m ==> 0 <= s(Code(i)) < base;
    assert Distinct(xs) <==> forall i: nat, k: nat :: i < k < m ==> s(X(i)) != s(X(k));
    assert At(Gccs(base), s) == Counts(base, code) <==> forall d: nat :: d < base ==> s(Gcc(d)) == Count(code, d) by {
      GccsInFull(base, code, s);
    }
    if InRange(code, 0, base) {
      NumbersDiffer(base, n, code);
    }
    if IsCode(base, n, m, code) {
      CodeShape(base, n, m, code);
    }
    if forall i: nat :: i < m ==> RowIsWindow(n, m, i, s) {
      NumbersAreChannelled(base, n, m, s);
    }
  }

  lemma GccsInFull(base: nat, code: seq<int>, s: Var -> int)
    ensures At(Gccs(base), s) == Counts(base, code) <==> forall d: nat :: d < base ==> s(Gcc(d)) == Count(code, d)
  {
    hide Count;
    if At(Gccs(base), s) == Counts(base, code) {
      forall d: nat | d < base
        ensures s(Gcc(d)) == Count(code, d)
      {
        assert At(Gccs(base), s)[d] == Counts(base, code)[d];
      }
    }
  }

  lemma SmallestInFull(base: nat, n: nat, m: nat, checkSameGcc: bool, s: Var -> int)
    requires base > 0 && n > 0 && m > 0 && IsSolution(base, n, m, checkSameGcc, s)
    ensures StartsSmallest(base, n, At(CodeVars(m), s)) <==> forall i: nat :: i < m ==> s(X(0)) <= s(X(i))
  {
    hide Value, IsCode, Numbers;
    var xs := At(Xs(m), s);
    assert xs == Numbers(base, n, At(CodeVars(m), s));
    assert forall i: nat :: i < m ==> xs[i] == s(X(i));
  }
}
