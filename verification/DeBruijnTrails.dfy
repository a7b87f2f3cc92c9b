/**
 Closed trails of words that together have a given length, and how they are joined into one. A trail is a cycle of
 next: entry i holds a word of n digits, its first n - 1 digits are its head, and the last n - 1 are the head of
 entry next[i].
 */
module DeBruijnTrails {
  import opened Cp
  import opened Circuit
  import opened DeBruijnBalance
  import opened DeBruijnTours
  import opened Digits
  import opened JoinedCycles
  import opened Permutations
  import D = DeBruijn

  ghost predicate AreTrails(base: nat, n: nat, words: seq<int>, next: seq<int>) {
    && base > 1 && n > 1 && |words| == |next| && InRange(words, 0, Pow(base, n)) && Distinct(words) &&
      IsPermutation(next)
    && forall i :: 0 <= i < |words| ==> Shifts(base, Pow(base, n - 1), words[i], words[next[i]])
  }

  /** The first entries have all heads in order. */
  ghost predicate HasAllHeads(base: nat, n: nat, words: seq<int>) {
    && base > 1 && n > 1 && Pow(base, n - 1) <= |words|
    && forall u :: 0 <= u < Pow(base, n - 1) ==> HasHead(base, words, u)
  }

  predicate HasHead(base: nat, words: seq<int>, u: nat)
    requires base > 0 && u < |words|
  {
    words[u] / base == u
  }

  // ---------- Trails of a given length in all ----------

  /** How far the last digit of w is turned against the successor that x gives its head. */
  function Offset(base: nat, x: seq<int>, w: int): int
    requires base > 0 && 0 <= w / base < |x|
  {
    (w % base - x[w / base] % base) % base
  }

  ghost predicate OffsetsUpTo(base: nat, x: seq<int>, words: seq<int>, q: int) {
    base > 0 && forall i :: 0 <= i < |words| ==> OffsetUpTo(base, x, words[i], q)
  }

  predicate OffsetUpTo(base: nat, x: seq<int>, w: int, q: int)
    requires base > 0
  {
    0 <= w / base < |x| && Offset(base, x, w) <= q
  }

  /** v with its last digit turned by c. */
  function Turn(base: nat, v: int, c: nat): int
    requires base > 0
  {
    base * (v / base) + (v % base + c) % base
  }

  function Turned(base: nat, x: seq<int>, c: nat): (y: seq<int>)
    requires base > 0
    ensures |y| == |x| && forall u :: 0 <= u < |x| ==> y[u] == Turn(base, x[u], c)
  {
    seq(|x|, u requires 0 <= u < |x| => Turn(base, x[u], c))
  }

  lemma TurnParts(base: nat, k: nat, v: nat, c: nat)
    requires base > 0 && k > 0 && v < Pow(base, k) && c < base
    ensures 0 <= Turn(base, v, c) < Pow(base, k)
    ensures Turn(base, v, c) / base == v / base && Turn(base, v, c) % base == (v % base + c) % base
    ensures (Turn(base, v, c) % base - v % base) % base == c
  {
    hide Pow, Turn;
    PowStep(base, k);
    QuotientBelow(v, base, Pow(base, k - 1));
    Below(base, v / base, Pow(base, k - 1), (v % base + c) % base);
    TurnDigits(base, v, c);
    TurnBack(base, v % base, c);
  }

  lemma TurnDigits(base: nat, v: nat, c: nat)
    requires base > 0
    ensures var w, d := Turn(base, v, c), (v % base + c) % base;
      w == base * (v / base) + d && 0 <= d < base && w / base == v / base && w % base == d
  {
    var w, d := Turn(base, v, c), (v % base + c) % base;
    SameQuotient(base, w / base, v / base, w % base, d);
  }

  lemma TurnBack(base: nat, d: nat, c: nat)
    requires d < base && c < base
    ensures ((d + c) % base - d) % base == c
  {
    D.Wrap(d + c, base);
    if d + c >= base {
      NegativeMod(c, base);
    } else {
      D.Wrap(c, base);
    }
  }

  lemma NegativeMod(c: nat, m: nat)
    requires c < m
    ensures (c - m) % m == c
  {
    SameQuotient(m, (c - m) / m, -1, (c - m) % m, c);
  }

  /** Turning can be undone, so it keeps different successors different. */
  lemma TurnIsInjective(base: nat, u: nat, v: nat, c: nat)
    requires base > 0 && c < base && Turn(base, u, c) == Turn(base, v, c)
    ensures u == v
  {
    var d, e := (u % base + c) % base, (v % base + c) % base;
    SameQuotient(base, u / base, v / base, d, e);
    D.Wrap(u % base + c, base);
    D.Wrap(v % base + c, base);
    assert u == base * (u / base) + u % base && v == base * (v / base) + v % base;
  }

  lemma TurnedIsShift(base: nat, k: nat, x: seq<int>, c: nat)
    requires IsShift(base, k, x) && c < base
    ensures IsShift(base, k, Turned(base, x, c))
  {
    hide Pow, Turn;
    var y := Turned(base, x, c);
    Ranges(x);
    forall u | 0 <= u < |x|
      ensures 0 <= y[u] < |y| && Shifts(base, Pow(base, k - 1), u, y[u])
    {
      TurnParts(base, k, x[u], c);
      assert Shifts(base, Pow(base, k - 1), u, x[u]);
    }
    forall u, v | 0 <= u < v < |x|
      ensures y[u] != y[v]
    {
      if y[u] == y[v] {
        TurnIsInjective(base, x[u], x[v], c);
      }
    }
  }

  /** One trail from a tour of words with one digit less. */
  lemma TrailOfTour(base: nat, k: nat, tour: seq<int>, x: seq<int>) returns (words: seq<int>, next: seq<int>)
    requires base > 1 && IsTour(base, k, tour) && IsShift(base, k, x) && |x| == Pow(base, k) && InRange(tour, 0, |x|)
    requires forall i :: 0 <= i < |tour| ==> FollowsTour(x, tour, i)
    ensures AreTrails(base, k + 1, words, next) && |words| == |tour| && OffsetsUpTo(base, x, words, 0)
    ensures forall i: nat :: i < |tour| ==> words[i] == Edge(base, tour[i], tour[D.NextRow(i, |tour|)])
  {
    hide Pow, Shifts, Edge, IsShift;
    words := TourOfLongerWords(base, k, tour);
    var m := |tour|;
    next := seq(m, i requires 0 <= i < m => D.NextRow(i, m) as int);
    NextIsPermutation(m, next);
    forall i: nat | i < m
      ensures OffsetUpTo(base, x, words[i], 0)
    {
      assert FollowsTour(x, tour, i);
      NoOffset(base, k, tour, x, i);
    }
    forall i: nat | i < m
      ensures Shifts(base, Pow(base, k), words[i], words[next[i]])
    {
      assert next[i] == D.NextRow(i, m);
    }
  }

  lemma NoOffset(base: nat, k: nat, tour: seq<int>, x: seq<int>, i: nat)
    requires base > 1 && IsTour(base, k, tour) && |x| == Pow(base, k) && i < |tour| && InRange(tour, 0, |x|)
    requires FollowsTour(x, tour, i)
    ensures OffsetUpTo(base, x, Edge(base, tour[i], tour[D.NextRow(i, |tour|)]), 0)
  {
    hide Pow, Shifts, Edge;
    var v := tour[D.NextRow(i, |tour|)];
    assert Shifts(base, Pow(base, k - 1), tour[i], v);
    EdgeParts(base, k, tour[i], v);
    D.Wrap(0, base);
  }

  lemma NextIsPermutation(m: nat, next: seq<int>)
    requires |next| == m && forall i: nat :: i < m ==> next[i] == D.NextRow(i, m)
    ensures IsPermutation(next)
  {
    forall i, j | 0 <= i < j < m
      ensures next[i] != next[j]
    {
      NextDiffers(i, j, m);
    }
  }

  /** All words that x turned by c puts at the heads, in the order of the heads. */
  function Block(base: nat, y: seq<int>): (words: seq<int>)
    requires base > 0
    ensures |words| == |y| && forall u :: 0 <= u < |y| ==> words[u] == Edge(base, u, y[u])
  {
    seq(|y|, u requires 0 <= u < |y| => Edge(base, u, y[u]))
  }

  function MovedBy(next: seq<int>, m: nat): (r: seq<int>)
    ensures |r| == |next| && forall i :: 0 <= i < |next| ==> r[i] == next[i] + m
  {
    seq(|next|, i requires 0 <= i < |next| => next[i] + m)
  }

  lemma BlockParts(base: nat, k: nat, x: seq<int>, c: nat, u: nat)
    requires base > 1 && IsShift(base, k, x) && c < base && u < |x|
    ensures var y := Turned(base, x, c); var w := Block(base, y)[u];
      && 0 <= y[u] < |x| && 0 <= w < Pow(base, k + 1) && w / base == u && w % Pow(base, k) == y[u]
      && Offset(base, x, w) == c
  {
    hide Pow, Shifts, Edge, Turn, IsPermutation;
    TurnedIsShift(base, k, x, c);
    var y := Turned(base, x, c);
    Ranges(y);
    Ranges(x);
    assert Shifts(base, Pow(base, k - 1), u, y[u]);
    EdgeParts(base, k, u, y[u]);
    TurnParts(base, k, x[u], c);
  }

  lemma BlockJoins(words: seq<int>, next: seq<int>, block: seq<int>, y: seq<int>)
    requires |words| == |next| && |block| == |y| && IsPermutation(next) && IsPermutation(y)
    ensures IsPermutation(y + MovedBy(next, |y|))
  {
    var all, m := y + MovedBy(next, |y|), |y|;
    forall i | 0 <= i < |all|
      ensures 0 <= all[i] < |all| && (i < m <==> all[i] < m)
    {
      assert i >= m ==> all[i] == next[i - m] + m;
    }
    forall i, j | 0 <= i < j < |all|
      ensures all[i] != all[j]
    {
      if i >= m {
        assert next[i - m] != next[j - m];
      }
    }
  }

  /** As many more entries as there are heads, one for each. */
  lemma AddBlock(base: nat, k: nat, x: seq<int>, words: seq<int>, next: seq<int>, q: nat)
      returns (words': seq<int>, next': seq<int>)
    requires IsShift(base, k, x) && |x| == Pow(base, k) && q + 1 < base
    requires AreTrails(base, k + 1, words, next) && OffsetsUpTo(base, x, words, q)
    ensures AreTrails(base, k + 1, words', next') && OffsetsUpTo(base, x, words', q + 1) &&
      HasAllHeads(base, k + 1, words')
    ensures |words'| == |x| + |words| && words'[|x|..] == words
  {
    hide Pow, Shifts, Edge, Turn, IsPermutation, Offset, IsShift, AreTrails, OffsetsUpTo;
    var y := Turned(base, x, q + 1);
    var block, m := Block(base, y), |x|;
    words', next' := block + words, y + MovedBy(next, m);
    forall u | 0 <= u < m
      ensures 0 <= y[u] < m && 0 <= block[u] < Pow(base, k + 1) && block[u] / base == u &&
        block[u] % Pow(base, k) == y[u]
      ensures Offset(base, x, block[u]) == q + 1
    {
      BlockParts(base, k, x, q + 1, u);
    }
    TurnedIsShift(base, k, x, q + 1);
    ShiftIsPermutation(base, k, y);
    TrailsShape(base, k + 1, words, next);
    BlockIsNew(base, x, words, block, q);
    BlockIsTrails(base, k, words, next, block, y);
    BlockOffsets(base, x, words, block, q);
    forall u | 0 <= u < m
      ensures HasHead(base, words', u)
    {
      assert words'[u] == block[u];
    }
  }

  lemma TrailsShape(base: nat, n: nat, words: seq<int>, next: seq<int>)
    requires AreTrails(base, n, words, next)
    ensures base > 1 && n > 1 && |words| == |next| && Distinct(words)
  {}

  lemma BlockIsTrails(base: nat, k: nat, words: seq<int>, next: seq<int>, block: seq<int>, y: seq<int>)
    requires AreTrails(base, k + 1, words, next) && IsPermutation(y) && |block| == |y|
    requires InRange(block, 0, Pow(base, k + 1)) && Distinct(block + words)
    requires forall u :: 0 <= u < |block| ==>
      0 <= y[u] < |y| && block[u] / base == u && block[u] % Pow(base, k) == y[u]
    ensures AreTrails(base, k + 1, block + words, y + MovedBy(next, |y|))
  {
    hide Pow, Shifts, IsPermutation, Distinct;
    var m, words', next' := |y|, block + words, y + MovedBy(next, |y|);
    BlockJoins(words, next, block, y);
    Ranges(next);
    forall i | 0 <= i < |words'|
      ensures 0 <= next'[i] < |words'| && Shifts(base, Pow(base, k), words'[i], words'[next'[i]])
    {
      if i < m {
        ShiftsMeans(base, Pow(base, k), block[i], block[y[i]]);
      } else {
        assert Shifts(base, Pow(base, k), words[i - m], words[next[i - m]]);
      }
    }
  }

  lemma BlockOffsets(base: nat, x: seq<int>, words: seq<int>, block: seq<int>, q: nat)
    requires OffsetsUpTo(base, x, words, q) && |block| == |x|
    requires forall u :: 0 <= u < |block| ==> block[u] / base == u && Offset(base, x, block[u]) == q + 1
    ensures OffsetsUpTo(base, x, block + words, q + 1)
  {
    hide Offset;
    forall i | 0 <= i < |block + words|
      ensures OffsetUpTo(base, x, (block + words)[i], q + 1)
    {
      if i >= |block| {
        assert OffsetUpTo(base, x, words[i - |block|], q);
      }
    }
  }

  lemma BlockIsNew(base: nat, x: seq<int>, words: seq<int>, block: seq<int>, q: nat)
    requires Distinct(words) && OffsetsUpTo(base, x, words, q)
    requires forall u :: 0 <= u < |block| ==> block[u] / base == u && u < |x| && Offset(base, x, block[u]) == q + 1
    ensures Distinct(block + words)
  {
    hide Offset;
    var all, m := block + words, |block|;
    forall i, j | 0 <= i < j < |all|
      ensures all[i] != all[j]
    {
      if j < m {
        assert block[i] / base == i && block[j] / base == j;
      } else if i < m {
        assert OffsetUpTo(base, x, words[j - m], q);
        assert Offset(base, x, block[i]) == q + 1;
      }
    }
  }

  lemma {:induction false} AddBlocks(base: nat, k: nat, x: seq<int>, words: seq<int>, next: seq<int>, q: nat)
      returns (words': seq<int>, next': seq<int>)
    requires IsShift(base, k, x) && |x| == Pow(base, k) && 0 < q < base
    requires AreTrails(base, k + 1, words, next) && OffsetsUpTo(base, x, words, 0)
    ensures AreTrails(base, k + 1, words', next') && OffsetsUpTo(base, x, words', q) && HasAllHeads(base, k + 1, words')
    ensures |words'| == q * |x| + |words|
    ensures IsBalanced(base, Pow(base, k), words) ==> IsBalanced(base, Pow(base, k), words')
  {
    hide Pow, IsShift, AreTrails, OffsetsUpTo, HasAllHeads, IsBalanced;
    if q == 1 {
      words', next' := AddBlock(base, k, x, words, next, 0);
      BlockKeepsBalance(base, k, words', words);
    } else {
      var shorter, next1 := AddBlocks(base, k, x, words, next, q - 1);
      words', next' := AddBlock(base, k, x, shorter, next1, q - 1);
      BlockKeepsBalance(base, k, words', shorter);
      OneMoreTime(q, |x|);
    }
  }

  /** A block holds each head once, so it has equally many words for each leading digit. */
  lemma BlockKeepsBalance(base: nat, k: nat, words: seq<int>, rest: seq<int>)
    requires HasAllHeads(base, k + 1, words) && words[Pow(base, k)..] == rest
    ensures IsBalanced(base, Pow(base, k), rest) ==> IsBalanced(base, Pow(base, k), words)
  {
    hide IsBalanced;
    var m := Pow(base, k);
    forall u | 0 <= u < m
      ensures words[..m][u] / base == u
    {
      assert HasHead(base, words, u);
    }
    BlockBalanced(base, Pow(base, k - 1), words[..m]);
    if IsBalanced(base, m, rest) {
      BalancedConcat(base, m, words[..m], rest);
      assert words[..m] + rest == words;
    }
  }

  lemma OneMoreTime(q: nat, m: nat)
    requires q > 0
    ensures (q - 1) * m + m == q * m
  {}

  // ---------- Crossing two trails ----------

  /** The digits of a word without the first and the last. */
  function Middle(base: nat, n: nat, w: int): int
    requires base > 0 && n > 1
  {
    (w / base) % Pow(base, n - 2)
  }

  /** Entries i and j with their last digits exchanged. */
  function Crossed(base: nat, words: seq<int>, i: nat, j: nat): (r: seq<int>)
    requires base > 0 && i < |words| && j < |words|
    ensures |r| == |words|
    ensures r[i] == base * (words[i] / base) + words[j] % base && r[j] == base * (words[j] / base) + words[i] % base
    ensures forall t :: 0 <= t < |words| && t != i && t != j ==> r[t] == words[t]
  {
    if i == j then
      assert words[i] == base * (words[i] / base) + words[i] % base;
      words
    else
      words[i := base * (words[i] / base) + words[j] % base][j := base * (words[j] / base) + words[i] % base]
  }

  /** The crossing makes no word that is there already, other than by exchanging the two. */
  predicate CanCross(base: nat, words: seq<int>, i: nat, j: nat)
    requires base > 0 && i < |words| && j < |words|
  {
    || words[i] / base == words[j] / base || words[i] % base == words[j] % base
    || (Crossed(base, words, i, j)[i] !in words && Crossed(base, words, i, j)[j] !in words)
  }

  lemma CrossedParts(base: nat, n: nat, words: seq<int>, i: nat, j: nat, t: nat)
    requires base > 0 && n > 0 && InRange(words, 0, Pow(base, n)) && i < |words| && j < |words| && t < |words|
    ensures var w := Crossed(base, words, i, j)[t];
      0 <= w < Pow(base, n) && w / base == words[t] / base
      && w % base == (if t == i then words[j] % base else if t == j then words[i] % base else words[t] % base)
  {
    hide Pow, Crossed;
    WordOfParts(base, words[t]);
    NewWord(base, n, words[t], if t == i then words[j] % base else if t == j then words[i] % base else words[t] % base);
  }

  lemma NewWord(base: nat, n: nat, w: nat, d: nat)
    requires base > 0 && n > 0 && w < Pow(base, n) && d < base
    ensures var v := base * (w / base) + d; 0 <= v < Pow(base, n) && v / base == w / base && v % base == d
  {
    var v := base * (w / base) + d;
    QuotientBelow(w, base, Pow(base, n - 1));
    Below(base, w / base, Pow(base, n - 1), d);
    SameQuotient(base, v / base, w / base, v % base, d);
  }

  lemma CrossedIsDistinct(base: nat, n: nat, words: seq<int>, i: nat, j: nat)
    requires base > 0 && n > 0 && InRange(words, 0, Pow(base, n)) && Distinct(words)
    requires i < |words| && j < |words| && CanCross(base, words, i, j)
    ensures Distinct(Crossed(base, words, i, j))
  {
    hide Pow;
    var r := Crossed(base, words, i, j);
    CrossedParts(base, n, words, i, j, i);
    CrossedParts(base, n, words, i, j, j);
    assert forall t :: 0 <= t < |words| ==> words[t] in words;
    forall s, t | 0 <= s < t < |r|
      ensures r[s] != r[t]
    {
      WordOfParts(base, words[i]);
      WordOfParts(base, words[j]);
    }
  }

  lemma WordOfParts(base: nat, w: int)
    requires base > 0
    ensures w == base * (w / base) + w % base
  {}

  lemma LastOfCrossed(base: nat, n: nat, u: nat, p: nat, d: nat)
    requires base > 0 && n > 1 && d < base && u % Pow(base, n - 2) == p % Pow(base, n - 2)
    ensures (base * u + d) % Pow(base, n - 1) == (base * p + d) % Pow(base, n - 1)
  {
    var q := Pow(base, n - 2);
    LastDigits(base, q, u, d);
    LastDigits(base, q, p, d);
  }

  /** Exchanging the last digits and the successors of two entries with equal middles keeps trails and heads. */
  lemma CrossedAreTrails(base: nat, n: nat, words: seq<int>, next: seq<int>, i: nat, j: nat)
    requires AreTrails(base, n, words, next) && HasAllHeads(base, n, words)
    requires i < |words| && j < |words| && CanCross(base, words, i, j)
    requires Middle(base, n, words[i]) == Middle(base, n, words[j])
    ensures AreTrails(base, n, Crossed(base, words, i, j), Exchanged(next, i, j))
    ensures HasAllHeads(base, n, Crossed(base, words, i, j)) && SameHeads(base, words, Crossed(base, words, i, j))
  {
    hide Pow, IsPermutation, Distinct, CanCross, Crossed, Exchanged;
    var r, y := Crossed(base, words, i, j), Exchanged(next, i, j);
    forall t | 0 <= t < |words|
      ensures 0 <= r[t] < Pow(base, n) && r[t] / base == words[t] / base
    {
      CrossedParts(base, n, words, i, j, t);
    }
    CrossedIsDistinct(base, n, words, i, j);
    ExchangedIsPermutation(next, i, j);
    Ranges(next);
    Ranges(y);
    forall t | 0 <= t < |words|
      ensures Shifts(base, Pow(base, n - 1), r[t], r[y[t]])
    {
      CrossedShifts(base, n, words, next, i, j, t);
    }
    forall u | 0 <= u < Pow(base, n - 1)
      ensures HasHead(base, r, u)
    {
      assert HasHead(base, words, u);
    }
  }

  lemma CrossedShifts(base: nat, n: nat, words: seq<int>, next: seq<int>, i: nat, j: nat, t: nat)
    requires AreTrails(base, n, words, next) && i < |words| && j < |words| && t < |words|
    requires Middle(base, n, words[i]) == Middle(base, n, words[j])
    requires InRange(Exchanged(next, i, j), 0, |words|)
    ensures var r := Crossed(base, words, i, j);
      Shifts(base, Pow(base, n - 1), r[t], r[Exchanged(next, i, j)[t]])
  {
    hide Pow, IsPermutation, Distinct, Crossed, Exchanged;
    var r, y := Crossed(base, words, i, j), Exchanged(next, i, j);
    CrossedParts(base, n, words, i, j, t);
    CrossedParts(base, n, words, i, j, y[t]);
    var from := if t == i then j else if t == j then i else t;
    assert Shifts(base, Pow(base, n - 1), words[from], words[next[from]]);
    SameEnd(base, n, r[t], words[from]);
  }

  lemma SameEnd(base: nat, n: nat, w: nat, v: nat)
    requires base > 0 && n > 1 && Middle(base, n, w) == Middle(base, n, v) && w % base == v % base
    ensures w % Pow(base, n - 1) == v % Pow(base, n - 1)
  {
    WordOfParts(base, w);
    WordOfParts(base, v);
    LastOfCrossed(base, n, w / base, v / base, v % base);
  }

  // ---------- Finding a crossing ----------

  lemma MiddleOfHead(base: nat, n: nat, w: nat, u: nat)
    requires base > 0 && n > 1 && w % Pow(base, n - 1) == u && u < Pow(base, n - 1)
    ensures Middle(base, n, w) == u / base
  {
    var q := Pow(base, n - 2);
    WordOfParts(base, w);
    LastDigits(base, q, w / base, w % base);
    SameQuotient(base, u / base, (w / base) % q, u % base, w % base);
  }

  lemma MiddleOfSmall(base: nat, n: nat, w: int, v: nat)
    requires base > 0 && n > 1 && w / base == v && v < Pow(base, n - 2)
    ensures Middle(base, n, w) == v
  {
    Remains(v, Pow(base, n - 2));
  }

  lemma Remains(a: nat, p: nat)
    requires a < p
    ensures a % p == a
  {}

  lemma Predecessor(next: seq<int>, u: nat) returns (t: nat)
    requires IsPermutation(next) && u < |next|
    ensures t < |next| && next[t] == u
  {
    Pigeonhole(next, 0, |next|);
    assert u in next;
    t :| t < |next| && next[t] == u;
  }

  /** Entries with equal middles, one on the trail of entry 0 and one off it, below the head u of an entry off it. */
  lemma {:induction false} ClashBelow(base: nat, n: nat, words: seq<int>, next: seq<int>, u: nat)
      returns (i: nat, j: nat)
    requires AreTrails(base, n, words, next) && HasAllHeads(base, n, words)
    requires u < Pow(base, n - 1) && InRange(next, 0, |next|) && !LeadsTo(next, 0, u)
    ensures i < |words| && j < |words| && LeadsTo(next, 0, i) && !LeadsTo(next, 0, j)
    ensures Middle(base, n, words[i]) == Middle(base, n, words[j])
    decreases u
  {
    hide Pow, LeadsTo, Distinct, IsPermutation, Middle, InRange, HasHead;
    LeadsOn(next, 0);
    var t := Predecessor(next, u);
    OffTrailBefore(next, t);
    var v := u / base;
    SmallerHead(base, n, u);
    assert HasHead(base, words, u) && HasHead(base, words, v);
    SameMiddles(base, n, words, next, t, v);
    if LeadsTo(next, 0, v) {
      i, j := v, t;
    } else {
      i, j := ClashBelow(base, n, words, next, v);
    }
  }

  lemma OffTrailBefore(next: seq<int>, t: nat)
    requires InRange(next, 0, |next|) && t < |next| && !LeadsTo(next, 0, next[t])
    ensures !LeadsTo(next, 0, t)
  {
    hide LeadsTo;
    if LeadsTo(next, 0, t) {
      LeadsOn(next, t);
      LeadsTrans(next, 0, t, next[t]);
    }
  }

  /** The entry before head u and the entry of the head that is u without its last digit. */
  lemma SameMiddles(base: nat, n: nat, words: seq<int>, next: seq<int>, t: nat, v: nat)
    requires AreTrails(base, n, words, next) && t < |words| && InRange(next, 0, |next|)
    requires 0 <= next[t] < Pow(base, n - 1) && HasHead(base, words, next[t])
    requires v < |words| && v < Pow(base, n - 2) && HasHead(base, words, v) && next[t] / base == v
    ensures Middle(base, n, words[t]) == Middle(base, n, words[v])
  {
    hide Pow, Distinct, IsPermutation, Middle;
    assert Shifts(base, Pow(base, n - 1), words[t], words[next[t]]);
    MiddleOfHead(base, n, words[t], next[t]);
    MiddleOfSmall(base, n, words[v], v);
  }

  lemma SmallerHead(base: nat, n: nat, u: nat)
    requires base > 1 && n > 1 && 0 < u < Pow(base, n - 1)
    ensures u / base < u && u / base < Pow(base, n - 2) <= Pow(base, n - 1)
  {
    QuotientBelow(u, base, u);
    QuotientBelow(u, base, Pow(base, n - 2));
    Multiply(Pow(base, n - 2), 1, base);
  }

  lemma FindClash(base: nat, n: nat, words: seq<int>, next: seq<int>, missing: nat) returns (i: nat, j: nat)
    requires AreTrails(base, n, words, next) && HasAllHeads(base, n, words)
    requires InRange(next, 0, |next|) && missing < |words| && !LeadsTo(next, 0, missing)
    ensures i < |words| && j < |words| && LeadsTo(next, 0, i) && !LeadsTo(next, 0, j)
    ensures Middle(base, n, words[i]) == Middle(base, n, words[j])
  {
    hide LeadsTo, Distinct, IsPermutation, Middle;
    var u := words[missing] / base;
    QuotientBelow(words[missing], base, Pow(base, n - 1));
    assert HasHead(base, words, u);
    if LeadsTo(next, 0, u) {
      i, j := u, missing;
      SameHead(base, n, words[u], words[missing]);
    } else {
      i, j := ClashBelow(base, n, words, next, u);
    }
  }

  lemma SameHead(base: nat, n: nat, w: int, v: int)
    requires base > 0 && n > 1 && w / base == v / base
    ensures Middle(base, n, w) == Middle(base, n, v)
  {}

  /** Two such entries that can be crossed: if the crossing would repeat a word, the entry that holds it will do. */
  lemma FindCrossing(base: nat, n: nat, words: seq<int>, next: seq<int>, missing: nat) returns (i: nat, j: nat)
    requires AreTrails(base, n, words, next) && HasAllHeads(base, n, words)
    requires InRange(next, 0, |next|) && missing < |words| && !LeadsTo(next, 0, missing)
    ensures i < |words| && j < |words| && LeadsTo(next, 0, i) && !LeadsTo(next, 0, j)
    ensures Middle(base, n, words[i]) == Middle(base, n, words[j]) && CanCross(base, words, i, j)
  {
    hide LeadsTo, Distinct, IsPermutation, Middle, Pow, Crossed;
    i, j := FindClash(base, n, words, next, missing);
    CrossedParts(base, n, words, i, j, i);
    CrossedParts(base, n, words, i, j, j);
    var r := Crossed(base, words, i, j);
    if k: nat :| k < |words| && words[k] == r[i] {
      SameHead(base, n, words[k], words[i]);
      if LeadsTo(next, 0, k) {
        i := k;
      } else {
        j := k;
      }
    } else if k: nat :| k < |words| && words[k] == r[j] {
      SameHead(base, n, words[k], words[j]);
      if LeadsTo(next, 0, k) {
        i := k;
      } else {
        j := k;
      }
    }
  }

  lemma OffTrail(next: seq<int>, j: nat)
    requires IsPermutation(next) && j < |next| && !LeadsTo(next, 0, j)
    ensures !LeadsTo(next, 0, next[j])
  {
    hide LeadsTo, IsPermutation;
    Ranges(next);
    LeadsOn(next, j);
    LeadsBack(next, j, next[j]);
    if LeadsTo(next, 0, next[j]) {
      LeadsTrans(next, 0, next[j], j);
    }
  }

  /** Crossing until every entry is on the trail of entry 0. */
  lemma {:induction false} JoinAll(base: nat, n: nat, words: seq<int>, next: seq<int>)
      returns (words': seq<int>, next': seq<int>)
    requires AreTrails(base, n, words, next) && HasAllHeads(base, n, words) && InRange(next, 0, |next|)
    ensures AreTrails(base, n, words', next') && |words'| == |words| && InRange(next', 0, |next'|)
    ensures forall i :: 0 <= i < |next'| ==> LeadsTo(next', 0, i)
    ensures SameHeads(base, words, words')
    decreases |next| - |Reached(next)|
  {
    hide AreTrails, HasAllHeads, LeadsTo, Reached, CanCross, Middle, Crossed, Exchanged;
    TrailsAreCycles(base, n, words, next);
    if missing: nat :| missing < |next| && !LeadsTo(next, 0, missing) {
      var i, j := FindCrossing(base, n, words, next, missing);
      CrossedAreTrails(base, n, words, next, i, j);
      OffTrail(next, j);
      ReachedGrows(next, i, j);
      Ranges(Exchanged(next, i, j));
      words', next' := JoinAll(base, n, Crossed(base, words, i, j), Exchanged(next, i, j));
    } else {
      words', next' := words, next;
    }
  }

  lemma TrailsAreCycles(base: nat, n: nat, words: seq<int>, next: seq<int>)
    requires AreTrails(base, n, words, next)
    ensures IsPermutation(next) && base > 1 && |next| == |words|
  {}

  // ---------- Tours of every length ----------

  /** The words along a trail that covers all entries. */
  lemma TrailIsTour(base: nat, n: nat, words: seq<int>, next: seq<int>) returns (tour: seq<int>)
    requires AreTrails(base, n, words, next) && words != [] && InRange(next, 0, |next|)
    requires forall i :: 0 <= i < |next| ==> LeadsTo(next, 0, i)
    ensures IsTour(base, n, tour) && |tour| == |words|
    ensures forall p: nat :: IsBalanced(base, p, words) ==> IsBalanced(base, p, tour)
  {
    hide Pow, LeadsTo, Shifts, IsBalanced;
    Ranges(next);
    CycleReturns(next);
    var m, walk := |next|, Walk(next, 0, |next|);
    tour := seq(m, i requires 0 <= i < m => words[walk[i]]);
    forall i: nat | i < m
      ensures Shifts(base, Pow(base, n - 1), tour[i], tour[D.NextRow(i, m)])
    {
      NextOnWalk(next, i);
      assert Shifts(base, Pow(base, n - 1), words[walk[i]], words[next[walk[i]]]);
    }
    forall i, j | 0 <= i < j < m
      ensures tour[i] != tour[j]
    {
      assert walk[i] != walk[j];
    }
    forall p: nat | IsBalanced(base, p, words)
      ensures IsBalanced(base, p, tour)
    {
      BalancedRearranged(base, p, words, walk, tour);
    }
  }

  lemma NextOnWalk(x: seq<int>, i: nat)
    requires InRange(x, 0, |x|) && i < |x| && Iterate(x, 0, |x|) == 0
    ensures Walk(x, 0, |x|)[D.NextRow(i, |x|)] == x[Walk(x, 0, |x|)[i]]
  {
    assert Iterate(x, 0, i + 1) == x[Iterate(x, 0, i)];
    assert Iterate(x, 0, 0) == 0;
  }

  /** From a tour of words with one digit less and q more words for each head. */
  lemma LongTour(base: nat, k: nat, short: seq<int>, q: nat) returns (tour: seq<int>)
    requires base > 1 && IsTour(base, k, short) && 0 < q < base
    ensures IsTour(base, k + 1, tour) && |tour| == q * Pow(base, k) + |short|
    ensures IsBalanced(base, Pow(base, k - 1), short) ==> IsBalanced(base, Pow(base, k), tour)
  {
    hide IsBalanced, Leading, Edge, Pow, IsTour, IsShift, AreTrails, HasAllHeads, OffsetsUpTo, LeadsTo, FollowsTour,
      InRange;
    var x := FollowSome(base, k, short, |short|);
    ShortIsNonempty(base, k, short);
    var first, next0 := TrailOfTour(base, k, short, x);
    PowStep(base, k);
    if IsBalanced(base, Pow(base, k - 1), short) {
      LongerIsBalanced(base, k, short, first);
    }
    var all, next1 := AddBlocks(base, k, x, first, next0, q);
    TrailsAreCycles(base, k + 1, all, next1);
    Ranges(next1);
    var words, next := JoinAll(base, k + 1, all, next1);
    SameHeadsBalanced(base, Pow(base, k - 1), all, words);
    TrailsAreCycles(base, k + 1, words, next);
    tour := TrailIsTour(base, k + 1, words, next);
  }

  lemma LongerIsBalanced(base: nat, n: nat, short: seq<int>, longer: seq<int>)
    requires IsTour(base, n, short) && IsBalanced(base, Pow(base, n - 1), short) && |longer| == |short|
    requires forall i: nat :: i < |short| ==> longer[i] == Edge(base, short[i], short[D.NextRow(i, |short|)])
    ensures IsBalanced(base, Pow(base, n), longer)
  {
    hide IsBalanced, Pow, Edge, Shifts;
    PowStep(base, n);
    forall i: nat | i < |short|
      ensures longer[i] / base == short[i]
    {
      assert Shifts(base, Pow(base, n - 1), short[i], short[D.NextRow(i, |short|)]);
      EdgeParts(base, n, short[i], short[D.NextRow(i, |short|)]);
    }
    BalancedHeads(base, Pow(base, n - 1), longer, short);
  }

  lemma ShortIsNonempty(base: nat, k: nat, short: seq<int>)
    requires IsTour(base, k, short)
    ensures |short| > 0 && k > 0
  {}

  lemma TourOfDigits(base: nat, m: nat) returns (tour: seq<int>)
    requires base > 0 && 0 < m <= base
    ensures IsTour(base, 1, tour) && |tour| == m && (m == base ==> IsBalanced(base, 1, tour))
  {
    hide IsBalanced;
    PowOne(base);
    tour := seq(m, i => i);
    forall i: nat | i < m
      ensures Shifts(base, Pow(base, 0), tour[i], tour[D.NextRow(i, m)])
    {
      QuotientBelow(tour[D.NextRow(i, m)], base, 1);
    }
    if m == base {
      AllWordsBalanced(base, 1, tour);
    }
  }

  lemma PowOne(base: nat)
    ensures Pow(base, 1) == base && Pow(base, 0) == 1
  {
    assert Pow(base, 0) == 1;
  }

  /** How a length is made up: q times the number of heads and a rest that a tour of shorter words has. */
  lemma Decompose(base: nat, p: nat, m: nat) returns (q: nat, e: nat)
    requires base > 1 && 0 < p < m <= base * p
    ensures 0 < q < base && 0 < e <= p && m == q * p + e
  {
    q, e := (m - 1) / p, (m - 1) % p + 1;
    QuotientBelow(m - 1, p, base);
    WordOfParts(p, m - 1);
    NothingTimes(p, q);
  }

  lemma NothingTimes(p: nat, q: nat)
    ensures q == 0 ==> p * q == 0
    ensures p * q == q * p
  {}

  /** A whole number of digits, less a whole number of blocks, is a whole number of digits. */
  lemma RestIsMultiple(base: nat, p: nat, q: nat, e: nat)
    requires base > 0
    ensures (q * (base * p) + e) % base == e % base
  {
    var a := q * (base * p) + e;
    assert a == base * (q * p + e / base) + e % base by {
      assert q * (base * p) == base * (q * p);
      D.Distribute3(base, q * p, e / base);
    }
    D.ModIs(a, base, q * p + e / base, e % base);
  }

  lemma MultipleUpTo(base: nat, m: nat)
    requires 0 < m <= base && m % base == 0
    ensures m == base
  {
    if m < base {
      Remains(m, base);
    }
  }

  /** There is a tour of every length up to the number of words, and a balanced one of every multiple of the base. */
  lemma {:induction false} TourExists(base: nat, n: nat, m: nat) returns (tour: seq<int>)
    requires base > 1 && n > 0 && 0 < m <= Pow(base, n)
    ensures IsTour(base, n, tour) && |tour| == m
    ensures m % base == 0 ==> IsBalanced(base, Pow(base, n - 1), tour)
    decreases n
  {
    hide IsTour, IsBalanced, Edge;
    var p := Pow(base, n - 1);
    if n == 1 {
      PowOne(base);
      tour := TourOfDigits(base, m);
      if m % base == 0 {
        MultipleUpTo(base, m);
      }
    } else if m <= p {
      var short := TourExists(base, n - 1, m);
      tour := TourOfLongerWords(base, n - 1, short);
      if m % base == 0 {
        LongerIsBalanced(base, n - 1, short, tour);
      }
    } else {
      var q, e := Decompose(base, p, m);
      RestIsMultiple(base, Pow(base, n - 2), q, e);
      var short := TourExists(base, n - 1, e);
      tour := LongTour(base, n - 1, short, q);
    }
  }
}
