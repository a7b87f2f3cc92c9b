/**
 Tours of distinct words: each word starts with the last n - 1 digits of the one before, and the last word leads
 back to the first. Words are numbers in a base. There is a tour of every length up to the number of words.
 */
module DeBruijnTours {
  import opened Cp
  import opened Circuit
  import opened Digits
  import opened JoinedCycles
  import opened Permutations
  import D = DeBruijn

  // ---------- Shifting words ----------

  predicate Shifts(base: nat, p: nat, w: int, v: int)
    requires base > 0 && p > 0
  {
    v / base == w % p
  }

  ghost predicate IsTour(base: nat, n: nat, words: seq<int>) {
    && base > 0 && n > 0 && words != [] && InRange(words, 0, Pow(base, n)) && Distinct(words)
    && forall i: nat :: i < |words| ==> Shifts(base, Pow(base, n - 1), words[i], words[D.NextRow(i, |words|)])
  }

  /** Each word is followed by one that starts with its last n - 1 digits. */
  ghost predicate IsShift(base: nat, n: nat, x: seq<int>) {
    && base > 0 && n > 0 && |x| == Pow(base, n) && IsPermutation(x)
    && forall w :: 0 <= w < |x| ==> Shifts(base, Pow(base, n - 1), w, x[w])
  }

  lemma QuotientBelow(v: nat, b: nat, p: nat)
    requires b > 0 && v < b * p
    ensures v / b < p
  {
    if v / b >= p {
      Multiply(b, p, v / b);
    }
  }

  lemma RotateOnce(base: nat, p: nat, w: nat) returns (v: nat)
    requires base > 0 && p > 0 && w < base * p
    ensures v == base * (w % p) + w / p && w / p < base && v < base * p && Shifts(base, p, w, v)
  {
    v := base * (w % p) + w / p;
    QuotientBelow(w, p, base);
    Below(base, w % p, p, w / p);
    SameQuotient(base, v / base, w % p, v % base, w / p);
  }

  lemma {:induction false} Rotations(base: nat, n: nat, k: nat) returns (x: seq<int>)
    requires base > 0 && n > 0 && k <= Pow(base, n)
    ensures |x| == k && forall w :: 0 <= w < k ==>
      Shifts(base, Pow(base, n - 1), w, x[w]) && 0 <= x[w] < Pow(base, n)
      && x[w] == base * (w % Pow(base, n - 1)) + w / Pow(base, n - 1) && w / Pow(base, n - 1) < base
  {
    if k == 0 {
      x := [];
    } else {
      x := Rotations(base, n, k - 1);
      var v := RotateOnce(base, Pow(base, n - 1), k - 1);
      x := x + [v];
    }
  }

  /** Moving the leading digit to the end is one such successor. */
  lemma RotationIsShift(base: nat, n: nat) returns (x: seq<int>)
    requires base > 0 && n > 0
    ensures IsShift(base, n, x)
  {
    var p := Pow(base, n - 1);
    x := Rotations(base, n, Pow(base, n));
    forall v, w | 0 <= v < w < |x|
      ensures x[v] != x[w]
    {
      if x[v] == x[w] {
        SameQuotient(base, v % p, w % p, v / p, w / p);
      }
    }
  }

  lemma ExchangedIsShift(base: nat, n: nat, x: seq<int>, a: nat, b: nat)
    requires IsShift(base, n, x) && a < |x| && b < |x| && a % Pow(base, n - 1) == b % Pow(base, n - 1)
    ensures IsShift(base, n, Exchanged(x, a, b))
  {
    hide Pow, IsPermutation;
    ExchangedIsPermutation(x, a, b);
    var p := Pow(base, n - 1);
    assert Shifts(base, p, a, x[a]) && Shifts(base, p, b, x[b]);
  }

  lemma ShiftIsPermutation(base: nat, n: nat, x: seq<int>)
    requires IsShift(base, n, x)
    ensures IsPermutation(x) && base > 0 && n > 0 && |x| == Pow(base, n)
  {}

  // ---------- A successor for all words that follows a tour ----------

  lemma TourShape(base: nat, n: nat, words: seq<int>)
    requires IsTour(base, n, words)
    ensures base > 0 && n > 0 && words != [] && InRange(words, 0, Pow(base, n)) && Distinct(words)
  {}

  predicate FollowsTour(x: seq<int>, words: seq<int>, i: nat)
    requires i < |words| && InRange(words, 0, |x|)
  {
    x[words[i]] == words[D.NextRow(i, |words|)]
  }

  /** Exchanging two successors makes x follow one more step of the tour and keeps the steps it follows. */
  lemma FollowOneMore(base: nat, n: nat, words: seq<int>, x: seq<int>, k: nat) returns (y: seq<int>)
    requires IsTour(base, n, words) && k < |words| && IsShift(base, n, x) && |x| == Pow(base, n)
    requires InRange(words, 0, |x|) && forall i :: 0 <= i < k ==> FollowsTour(x, words, i)
    ensures IsShift(base, n, y) && |y| == |x| && forall i :: 0 <= i <= k ==> FollowsTour(y, words, i)
  {
    hide Pow, Shifts;
    var a, v := words[k], words[D.NextRow(k, |words|)];
    Ranges(x);
    Pigeonhole(x, 0, |x|);
    assert v in x;
    var b: nat :| b < |x| && x[b] == v;
    SameSuffix(base, n, words, x, k, b);
    ExchangedIsShift(base, n, x, a, b);
    y := Exchanged(x, a, b);
    forall i | 0 <= i < k
      ensures FollowsTour(y, words, i)
    {
      assert FollowsTour(x, words, i);
      NextDiffers(i, k, |words|);
    }
  }

  lemma SameSuffix(base: nat, n: nat, words: seq<int>, x: seq<int>, k: nat, b: nat)
    requires IsTour(base, n, words) && k < |words| && IsShift(base, n, x)
    requires b < |x| && x[b] == words[D.NextRow(k, |words|)]
    ensures words[k] % Pow(base, n - 1) == b % Pow(base, n - 1)
  {
    hide Pow;
    assert Shifts(base, Pow(base, n - 1), words[k], words[D.NextRow(k, |words|)]);
    assert Shifts(base, Pow(base, n - 1), b, x[b]);
  }

  lemma NextDiffers(i: nat, k: nat, m: nat)
    requires i < k < m
    ensures D.NextRow(i, m) != D.NextRow(k, m)
  {}

  lemma {:induction false} FollowSome(base: nat, n: nat, words: seq<int>, k: nat) returns (x: seq<int>)
    requires IsTour(base, n, words) && k <= |words|
    ensures IsShift(base, n, x) && |x| == Pow(base, n) && InRange(words, 0, |x|)
    ensures forall i :: 0 <= i < k ==> FollowsTour(x, words, i)
  {
    hide IsTour, IsShift, Pow, FollowsTour;
    TourShape(base, n, words);
    if k == 0 {
      x := RotationIsShift(base, n);
      ShiftIsPermutation(base, n, x);
    } else {
      var x' := FollowSome(base, n, words, k - 1);
      x := FollowOneMore(base, n, words, x', k - 1);
    }
  }

  // ---------- Longer words ----------

  /** The word of n + 1 digits that starts with u and ends with v, its successor. */
  function Edge(base: nat, u: int, v: int): int
    requires base > 0
  {
    base * u + v % base
  }

  lemma EdgeParts(base: nat, n: nat, u: nat, v: nat)
    requires base > 0 && n > 0 && u < Pow(base, n) && v < Pow(base, n) && Shifts(base, Pow(base, n - 1), u, v)
    ensures 0 <= Edge(base, u, v) < Pow(base, n + 1)
    ensures Edge(base, u, v) / base == u && Edge(base, u, v) % base == v % base && Edge(base, u, v) % Pow(base, n) == v
  {
    hide Pow;
    PowStep(base, n);
    PowStep(base, n + 1);
    Below(base, u, Pow(base, n), v % base);
    EdgeDigits(base, Pow(base, n - 1), u, v);
  }

  lemma EdgeDigits(base: nat, p: nat, u: nat, v: nat)
    requires base > 0 && p > 0 && Shifts(base, p, u, v)
    ensures var w := Edge(base, u, v);
      base * p > 0 && w / base == u && w % base == v % base && w % (base * p) == v
  {
    var w := Edge(base, u, v);
    SameQuotient(base, w / base, u, w % base, v % base);
    LastDigits(base, p, u, v % base);
  }

  lemma PowStep(base: nat, k: nat)
    requires k > 0
    ensures Pow(base, k) == base * Pow(base, k - 1)
  {}

  lemma LastDigits(b: nat, q: nat, u: nat, d: nat)
    requires q > 0 && d < b
    ensures b * q > 0 && (b * u + d) % (b * q) == b * (u % q) + d
  {
    var t := u / q;
    Positive(b, q);
    assert u == q * t + u % q;
    Below(b, u % q, q, d);
    Split(b, q, t, u % q);
    D.ModIs(b * u + d, b * q, t, b * (u % q) + d);
  }

  lemma Split(b: nat, q: nat, t: nat, r: nat)
    ensures b * (q * t + r) == (b * q) * t + b * r
  {
    assert b * (q * t + r) == b * (q * t) + b * r;
    assert b * (q * t) == (b * q) * t;
  }

  /** A tour of words of n digits gives one of as many words of n + 1 digits. */
  lemma TourOfLongerWords(base: nat, n: nat, words: seq<int>) returns (longer: seq<int>)
    requires IsTour(base, n, words)
    ensures IsTour(base, n + 1, longer) && |longer| == |words|
    ensures forall i: nat :: i < |words| ==> longer[i] == Edge(base, words[i], words[D.NextRow(i, |words|)])
  {
    hide Pow, Shifts, Edge;
    var m := |words|;
    longer := seq(m, i requires 0 <= i < m => Edge(base, words[i], words[D.NextRow(i, m)]));
    forall i: nat | i < m
      ensures 0 <= longer[i] < Pow(base, n + 1) && longer[i] / base == words[i]
      ensures longer[i] % Pow(base, n) == words[D.NextRow(i, m)]
    {
      EdgeParts(base, n, words[i], words[D.NextRow(i, m)]);
    }
    forall i: nat | i < m
      ensures Shifts(base, Pow(base, n), longer[i], longer[D.NextRow(i, m)])
    {
      ShiftsMeans(base, Pow(base, n), longer[i], longer[D.NextRow(i, m)]);
    }
  }

  lemma ShiftsMeans(base: nat, p: nat, w: int, v: int)
    requires base > 0 && p > 0
    ensures Shifts(base, p, w, v) <==> v / base == w % p
  {}
}
