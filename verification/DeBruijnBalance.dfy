/** How often each digit leads the words of a list; in a balanced list all digits lead equally often. */
module DeBruijnBalance {
  import opened Cp
  import opened Digits
  import opened Permutations
  import D = DeBruijn

  /** How many of the words have the leading digit d, where p is the number of words without it. */
  function Leading(p: nat, d: int, words: seq<int>): int {
    SumOver(v => D.Leads(p, d, v), words)
  }

  ghost predicate IsBalanced(base: nat, p: nat, words: seq<int>) {
    forall d: nat :: d < base ==> Leading(p, d, words) == Leading(p, 0, words)
  }

  lemma LeadsOfHead(base: nat, p: nat, d: int, w: int)
    requires base > 0
    ensures D.Leads(base * p, d, w) == D.Leads(p, d, w / base)
  {
    BelowQuotient(base, d * p, w);
    BelowQuotient(base, (d + 1) * p, w);
    assert d * (base * p) == base * (d * p) && (d + 1) * (base * p) == base * ((d + 1) * p);
  }

  lemma BelowQuotient(base: nat, a: int, w: int)
    requires base > 0
    ensures base * a <= w <==> a <= w / base
  {
    assert w == base * (w / base) + w % base;
    if a <= w / base {
      Multiply(base, a, w / base);
    } else {
      Multiply(base, w / base + 1, a);
    }
  }

  /** The leading digit of a word is that of its head. */
  lemma HeadsLead(base: nat, p: nat, d: int, words: seq<int>, heads: seq<int>)
    requires base > 0 && |words| == |heads| && forall i :: 0 <= i < |words| ==> words[i] / base == heads[i]
    ensures Leading(base * p, d, words) == Leading(p, d, heads)
  {
    hide D.Leads, SumOver;
    forall i | 0 <= i < |words|
      ensures D.Leads(base * p, d, words[i]) == D.Leads(p, d, heads[i])
    {
      LeadsOfHead(base, p, d, words[i]);
    }
    SameSums(v => D.Leads(base * p, d, v), v => D.Leads(p, d, v), words, heads);
  }

  lemma BalancedHeads(base: nat, p: nat, words: seq<int>, heads: seq<int>)
    requires base > 0 && |words| == |heads| && forall i :: 0 <= i < |words| ==> words[i] / base == heads[i]
    ensures IsBalanced(base, base * p, words) <==> IsBalanced(base, p, heads)
  {
    hide Leading;
    forall d
      ensures Leading(base * p, d, words) == Leading(p, d, heads)
    {
      HeadsLead(base, p, d, words, heads);
    }
    assert IsBalanced(base, p, heads) ==>
        forall d: nat :: d < base ==> Leading(p, d, heads) == Leading(p, 0, heads);
  }

  lemma SameHeadsBalanced(base: nat, p: nat, words: seq<int>, words': seq<int>)
    requires base > 0 && SameHeads(base, words, words')
    ensures IsBalanced(base, base * p, words) <==> IsBalanced(base, base * p, words')
  {
    hide IsBalanced;
    var heads := seq(|words|, i requires 0 <= i < |words| => words[i] / base);
    BalancedHeads(base, p, words, heads);
    BalancedHeads(base, p, words', heads);
  }

  predicate SameHeads(base: nat, words: seq<int>, words': seq<int>)
    requires base > 0
  {
    |words| == |words'| && forall i :: 0 <= i < |words| ==> words[i] / base == words'[i] / base
  }

  /** Of all words, each digit leads p. */
  lemma AllWordsBalanced(base: nat, p: nat, words: seq<int>)
    requires |words| == base * p && forall i :: 0 <= i < |words| ==> words[i] == i
    ensures IsBalanced(base, p, words)
  {
    hide D.Leads, SumOver, SumRange;
    forall d: nat | d < base
      ensures Leading(p, d, words) == p
    {
      PermutationSum(v => D.Leads(p, d, v), words, 0, base * p);
      D.CountLeading(p, d, base * p);
      Multiply(p, d + 1, base);
    }
  }

  lemma BalancedConcat(base: nat, p: nat, words: seq<int>, words': seq<int>)
    requires IsBalanced(base, p, words) && IsBalanced(base, p, words')
    ensures IsBalanced(base, p, words + words')
  {
    hide D.Leads, SumOver;
    forall d: nat | d < base
      ensures Leading(p, d, words + words') == Leading(p, 0, words + words')
    {
      SumOverConcat(v => D.Leads(p, d, v), words, words');
      SumOverConcat(v => D.Leads(p, 0, v), words, words');
      assert Leading(p, d, words) == Leading(p, 0, words) && Leading(p, d, words') == Leading(p, 0, words');
    }
  }

  lemma BalancedRearranged(base: nat, p: nat, words: seq<int>, order: seq<int>, tour: seq<int>)
    requires IsRearranged(words, order, tour) && IsBalanced(base, p, words)
    ensures IsBalanced(base, p, tour)
  {
    hide D.Leads, SumOver;
    forall d: nat | d < base
      ensures Leading(p, d, tour) == Leading(p, 0, tour)
    {
      RearrangedSum(v => D.Leads(p, d, v), words, order, tour);
      RearrangedSum(v => D.Leads(p, 0, v), words, order, tour);
      assert Leading(p, d, words) == Leading(p, 0, words);
    }
  }

  /** Words that together have every head once, among others. */
  lemma BlockBalanced(base: nat, p: nat, block: seq<int>)
    requires base > 0 && |block| == base * p && forall u :: 0 <= u < |block| ==> block[u] / base == u
    ensures IsBalanced(base, base * p, block)
  {
    hide IsBalanced;
    var heads := seq(|block|, u => u);
    AllWordsBalanced(base, p, heads);
    BalancedHeads(base, p, block, heads);
  }

  /** In the code of the leading digits, each digit occurs as often as it leads. */
  lemma BalancedCode(base: nat, p: nat, words: seq<int>, code: seq<int>)
    requires |code| == |words| && forall i :: 0 <= i < |words| ==> p > 0 && code[i] == words[i] / p
    requires IsBalanced(base, p, words)
    ensures D.EqualCounts(base, code)
  {
    hide D.Leads, Count, SumOver;
    forall d: nat
      ensures Count(code, d) == Leading(p, d, words)
    {
      forall i | 0 <= i < |words|
        ensures D.Leads(p, d, words[i]) == if code[i] == d then 1 else 0
      {
        LeadsMeans(p, d, words[i]);
      }
      D.CountIsSum(p, d, code, words);
    }
  }

  lemma LeadsMeans(p: nat, d: int, w: int)
    requires p > 0
    ensures D.Leads(p, d, w) == if w / p == d then 1 else 0
  {
    BelowQuotient(p, d, w);
    BelowQuotient(p, d + 1, w);
  }

  /** Rotating a code keeps the counts. */
  lemma BalancedRotation(base: nat, code: seq<int>, r: nat)
    requires r < |code| && D.EqualCounts(base, code)
    ensures D.EqualCounts(base, D.Rotated(code, r))
  {
    hide Count;
    forall d: nat
      ensures Count(D.Rotated(code, r), d) == Count(code, d)
    {
      RotationKeepsCount(code, r, d);
    }
  }

  lemma RotationKeepsCount(code: seq<int>, r: nat, d: nat)
    requires r < |code|
    ensures Count(D.Rotated(code, r), d) == Count(code, d)
  {
    hide Count, SumOver;
    var c, m := D.Rotated(code, r), |code|;
    var order := seq(m, i requires 0 <= i => (i + r) % m);
    forall i, j | 0 <= i < j < m
      ensures order[i] != order[j]
    {
      D.Wrap(i + r, m);
      D.Wrap(j + r, m);
    }
    RearrangedSum(v => D.Leads(1, d, v), code, order, c);
    D.CountIsSum(1, d, code, code);
    D.CountIsSum(1, d, c, c);
  }
}
