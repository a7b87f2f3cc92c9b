/** Codes of every length up to base^n, read off the tours of words; at full length they are de Bruijn sequences. */
module DeBruijnSequences {
  import opened Cp
  import opened DeBruijnBalance
  import opened DeBruijnTours
  import opened DeBruijnTrails
  import opened Digits
  import opened Permutations
  import D = DeBruijn

  /** v is w without its last digits, p to the power of their number. */
  predicate IsTop(v: int, w: int, p: nat) {
    v * p <= w < (v + 1) * p
  }

  function LeadingDigits(base: nat, n: nat, words: seq<int>): (code: seq<int>)
    requires base > 0 && n > 0
    ensures |code| == |words| && forall i :: 0 <= i < |words| ==> code[i] == words[i] / Pow(base, n - 1)
  {
    seq(|words|, i requires 0 <= i < |words| => words[i] / Pow(base, n - 1))
  }

  lemma LeadingBelow(base: nat, n: nat, w: nat)
    requires base > 0 && n > 0 && w < Pow(base, n)
    ensures w / Pow(base, n - 1) < base
  {
    var p := Pow(base, n - 1);
    assert p * base == base * p;
    QuotientBelow(w, p, base);
  }

  lemma CodeInRange(base: nat, n: nat, words: seq<int>)
    requires base > 0 && n > 0 && InRange(words, 0, Pow(base, n))
    ensures InRange(LeadingDigits(base, n, words), 0, base)
  {
    hide Pow;
    forall i | 0 <= i < |words|
      ensures 0 <= words[i] / Pow(base, n - 1) < base
    {
      LeadingBelow(base, n, words[i]);
    }
  }

  /** The windows of the leading digits are the leading parts of the words. */
  lemma {:induction false} WindowIsTop(base: nat, n: nat, words: seq<int>, i: nat, j: nat)
    requires IsTour(base, n, words) && i < |words| && j <= n
    ensures IsTop(Value(base, D.Window(LeadingDigits(base, n, words), i, j)), words[i], Pow(base, n - j))
    decreases j
  {
    hide Pow, Value, IsTop, Distinct, D.Window;
    var code := LeadingDigits(base, n, words);
    if j == 0 {
      NothingIsTop(base, words[i], D.Window(code, i, 0), Pow(base, n));
    } else {
      var next := D.NextRow(i, |words|);
      WindowIsTop(base, n, words, next, j - 1);
      assert Shifts(base, Pow(base, n - 1), words[i], words[next]);
      OneMoreOfWindow(base, n, words[i], words[next], code, i, j);
    }
  }

  lemma OneMoreOfWindow(base: nat, n: nat, w: nat, u: nat, code: seq<int>, i: nat, j: nat)
    requires base > 0 && i < |code| && 0 < j <= n && code[i] == w / Pow(base, n - 1) &&
      Shifts(base, Pow(base, n - 1), w, u)
    requires IsTop(Value(base, D.Window(code, D.NextRow(i, |code|), j - 1)), u, Pow(base, n - j + 1))
    ensures IsTop(Value(base, D.Window(code, i, j)), w, Pow(base, n - j))
  {
    hide Pow, Value, IsTop, Shifts;
    WindowTail(code, i, j);
    D.Wrap(i, |code|);
    assert D.Window(code, i, j)[0] == code[i];
    LeadingDigit(base, D.Window(code, i, j));
    PowSum(base, j - 1, n - j);
    PowSum(base, 1, n - j);
    PowOne(base);
    OneMoreDigit(base, w, u, Value(base, D.Window(code, D.NextRow(i, |code|), j - 1)),
      Pow(base, j - 1), Pow(base, n - j), Pow(base, n - 1));
  }

  lemma {:induction false} PowSum(base: nat, a: nat, b: nat)
    ensures Pow(base, a + b) == Pow(base, a) * Pow(base, b)
  {
    if a > 0 {
      PowSum(base, a - 1, b);
      assert base * (Pow(base, a - 1) * Pow(base, b)) == base * Pow(base, a - 1) * Pow(base, b);
    } else {
      assert Pow(base, 0) == 1;
    }
  }

  lemma NothingIsTop(base: nat, w: int, window: seq<int>, p: nat)
    requires window == [] && 0 <= w < p
    ensures IsTop(Value(base, window), w, p)
  {}

  lemma WindowTail(code: seq<int>, i: nat, j: nat)
    requires i < |code| && j > 0
    ensures D.Window(code, i, j)[1..] == D.Window(code, D.NextRow(i, |code|), j - 1)
  {
    forall k | 0 <= k < j - 1
      ensures D.Window(code, i, j)[1..][k] == D.Window(code, D.NextRow(i, |code|), j - 1)[k]
    {
      WindowTailAt(code, i, j, k);
    }
  }

  lemma WindowTailAt(code: seq<int>, i: nat, j: nat, k: nat)
    requires i < |code| && k + 1 < j
    ensures D.Window(code, i, j)[k + 1] == D.Window(code, D.NextRow(i, |code|), j - 1)[k]
  {
    D.ModPlus(i + 1, k, i + (k + 1), |code|);
  }

  /** If v is the top of the next word u, then the leading digit of w before v is the top of w. */
  lemma OneMoreDigit(base: nat, w: nat, u: nat, v: int, q: nat, t: nat, p: nat)
    requires base > 0 && p > 0 && p == q * t && Shifts(base, p, w, u) && IsTop(v, u, base * t)
    ensures IsTop((w / p) * q + v, w, t)
  {
    var a, r := w / p, w % p;
    assert u == base * r + u % base;
    CutLastDigit(base, v, t, r, u % base);
    Spread(t, a, q, v);
    Spread(t, a, q, v + 1);
    assert w == a * p + r;
    Reorder(a, q, t, p, v);
  }

  lemma CutLastDigit(base: nat, v: int, t: nat, r: int, d: int)
    requires base > 0 && 0 <= d < base && IsTop(v, base * r + d, base * t)
    ensures IsTop(v, r, t)
  {
    assert v * (base * t) == base * (v * t) && (v + 1) * (base * t) == base * ((v + 1) * t);
    if v * t > r {
      Multiply(base, r + 1, v * t);
    } else if (v + 1) * t <= r {
      Multiply(base, (v + 1) * t, r);
    }
  }

  lemma Reorder(a: int, q: int, t: int, p: int, v: int)
    requires p == q * t
    ensures (a * q + v) * t == a * p + v * t && (a * q + v + 1) * t == a * p + (v + 1) * t
  {
    assert a * q * t == a * (q * t);
  }

  /** The leading digits of a tour are a code whose windows are the words of the tour. */
  lemma TourGivesCode(base: nat, n: nat, words: seq<int>)
    requires IsTour(base, n, words)
    ensures var code := LeadingDigits(base, n, words);
      D.IsCode(base, n, |words|, code) && D.Numbers(base, n, code) == words
  {
    hide Pow, Value, Shifts;
    var code := LeadingDigits(base, n, words);
    CodeInRange(base, n, words);
    forall i | 0 <= i < |words|
      ensures D.Numbers(base, n, code)[i] == words[i]
    {
      WindowIsTop(base, n, words, i, n);
      TopOfAll(base, Value(base, D.Window(code, i, n)), words[i]);
    }
    assert D.Numbers(base, n, code) == words;
    D.NumbersDiffer(base, n, code);
  }

  lemma TopOfAll(base: nat, v: int, w: int)
    requires IsTop(v, w, Pow(base, 0))
    ensures v == w
  {
    assert Pow(base, 0) == 1;
  }

  lemma {:induction false} OneWord(n: nat)
    ensures Pow(1, n) == 1
  {
    if n > 0 {
      OneWord(n - 1);
    }
  }

  lemma SingleDigit(n: nat)
    requires n > 0
    ensures D.IsCode(1, n, 1, [0])
  {}

  /** There is a code of every length up to the number of words, with equal counts if the base divides the length. */
  lemma CodeExists(base: nat, n: nat, m: nat) returns (code: seq<int>)
    requires base > 0 && n > 0 && 0 < m <= Pow(base, n)
    ensures D.IsCode(base, n, m, code) && (m % base == 0 ==> D.EqualCounts(base, code))
  {
    hide Pow, IsTour, IsBalanced, D.IsCode;
    if base == 1 {
      OneWord(n);
      SingleDigit(n);
      code := [0];
    } else {
      var words := TourExists(base, n, m);
      TourGivesCode(base, n, words);
      code := LeadingDigits(base, n, words);
      if m % base == 0 {
        BalancedCode(base, Pow(base, n - 1), words, code);
      }
    }
  }

  /** For every base and every window length there is a code in which each word occurs: a de Bruijn sequence. */
  lemma DeBruijnSequenceExists(base: nat, n: nat) returns (code: seq<int>)
    requires base > 0 && n > 0
    ensures D.IsCode(base, n, Pow(base, n), code)
  {
    code := CodeExists(base, n, Pow(base, n));
  }

  /** The posted model, with the symmetry break. */
  function Posted(base: nat, n: nat, m: nat, checkSameGcc: bool): seq<Constraint<D.Var>>
    requires base > 0 && n > 0 && m > 0
  {
    D.SequenceConstraints(base, n, m, checkSameGcc) + [D.MinFirst(m)]
  }

  /** A code gives a solution of the posted model, if its digits occur equally often where that is asked for. */
  lemma SolutionFrom(base: nat, n: nat, m: nat, checkSameGcc: bool, code: seq<int>) returns (s: D.Var -> int)
    requires D.IsCode(base, n, m, code) && (checkSameGcc && m % base == 0 ==> D.EqualCounts(base, code))
    ensures Satisfies(Posted(base, n, m, checkSameGcc), s)
  {
    hide Pow, Satisfies, D.SequenceConstraints, D.IsCode, D.StartsSmallest, D.MinFirst, D.EqualCounts,
      D.IsSolution, D.Rotated;
    D.CodeShape(base, n, m, code);
    var r := D.OneRotationPasses(base, n, m, code);
    if checkSameGcc && m % base == 0 {
      BalancedRotation(base, code, r);
    }
    s := D.SolutionFor(base, n, m, D.Rotated(code, r), checkSameGcc);
    D.SequenceMeans(base, n, m, checkSameGcc, s);
    D.PostedMeans(base, n, m, checkSameGcc, true, s);
  }

  /** At full length the posted model has a solution for every base and window length, whatever the options. */
  lemma FullLengthFeasible(base: nat, n: nat, checkSameGcc: bool) returns (s: D.Var -> int)
    requires base > 0 && n > 0
    ensures Satisfies(D.SequenceConstraints(base, n, Pow(base, n), checkSameGcc) + [D.MinFirst(Pow(base, n))], s)
  {
    hide Pow, Satisfies;
    var code := CodeExists(base, n, Pow(base, n));
    s := SolutionFrom(base, n, Pow(base, n), checkSameGcc, code);
  }

  /** The posted model has a solution exactly when m is at most base^n, with equal counts asked for or not. */
  lemma ModelFeasible(base: nat, n: nat, m: nat, checkSameGcc: bool)
    requires base > 0 && n > 0 && m > 0
    ensures (exists s :: Satisfies(Posted(base, n, m, checkSameGcc), s)) <==> m <= Pow(base, n)
  {
    hide Pow, Satisfies, Posted, D.IsCode;
    forall s | Satisfies(Posted(base, n, m, checkSameGcc), s)
      ensures m <= Pow(base, n)
    {
      SolutionIsCode(base, n, m, checkSameGcc, s);
      D.LengthIsLimited(base, n, m, At(D.CodeVars(m), s));
    }
    if m <= Pow(base, n) {
      var code := CodeExists(base, n, m);
      var s := SolutionFrom(base, n, m, checkSameGcc, code);
    }
  }

  lemma SolutionIsCode(base: nat, n: nat, m: nat, checkSameGcc: bool, s: D.Var -> int)
    requires base > 0 && n > 0 && m > 0 && Satisfies(Posted(base, n, m, checkSameGcc), s)
    ensures D.IsCode(base, n, m, At(D.CodeVars(m), s))
  {
    hide Satisfies, D.SequenceConstraints, D.MinFirst, D.IsCode;
    SatisfiesConcat(D.SequenceConstraints(base, n, m, checkSameGcc), [D.MinFirst(m)], s);
    D.SequenceMeans(base, n, m, checkSameGcc, s);
  }
}
