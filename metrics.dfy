/** Offline ranking metrics: precision@k, recall@k and NDCG@k of a recommended
    list against a set of relevant ids. */
module Metrics {
  import opened Text

  /** `s[:k]` with Python's slice rules: a k past the end takes everything, a
      negative k counts from the end. */
  function PyPrefix(s: seq<string>, k: int): (r: seq<string>)
    ensures |r| <= |s|
    ensures r == s[..|r|]
    ensures k >= 0 ==> |r| == (if k <= |s| then k else |s|)
    ensures k < 0 ==> |r| == (if |s| + k > 0 then |s| + k else 0)
  {
    if k >= 0 then (if k <= |s| then s[..k] else s)
    else if |s| + k > 0 then s[..|s| + k]
    else []
  }

  /** `sum(1 for x in s if x in relevant)`: repeated entries count each time. */
  function Hits(s: seq<string>, relevant: set<string>): (h: nat)
    ensures h <= |s|
  {
    if |s| == 0 then 0
    else (if s[0] in relevant then 1 else 0) + Hits(s[1..], relevant)
  }

  /** `precision_at_k` */
  function Precision(recommended: seq<string>, relevant: set<string>, k: int): (p: real)
    ensures 0.0 <= p <= 1.0
    ensures k <= 0 ==> p == 0.0
    ensures k > 0 ==> p * (k as real) == Hits(PyPrefix(recommended, k), relevant) as real
  {
    if k <= 0 then 0.0
    else
      var h := Hits(PyPrefix(recommended, k), relevant);
      Fraction(h, k);
      (h as real) / (k as real)
  }

  lemma Fraction(h: nat, k: nat)
    requires 0 < k && h <= k
    ensures 0.0 <= (h as real) / (k as real) <= 1.0
    ensures (h as real) / (k as real) * (k as real) == h as real
  {
    AtMostOne(h as real, k as real);
  }

  lemma AtMostOne(a: real, b: real)
    requires 0.0 <= a <= b && b != 0.0
    ensures a / b <= 1.0
  {
  }

  /** `recall_at_k` */
  function Recall(recommended: seq<string>, relevant: set<string>, k: int): (r: real)
    ensures |relevant| == 0 ==> r == 0.0
    ensures r >= 0.0
    ensures |relevant| > 0 ==> r * (|relevant| as real) == Hits(PyPrefix(recommended, k), relevant) as real
  {
    if |relevant| == 0 then 0.0
    else
      var h := Hits(PyPrefix(recommended, k), relevant);
      var n := |relevant| as real;
      assert (h as real) / n * n == h as real;
      (h as real) / n
  }

  /** Precision and recall count the same hits: for k > 0 and a non-empty
      relevant set, `precision * k == recall * |relevant|`. */
  lemma PrecisionRecall(recommended: seq<string>, relevant: set<string>, k: int)
    requires k > 0 && |relevant| > 0
    ensures Precision(recommended, relevant, k) * (k as real) == Recall(recommended, relevant, k) * (|relevant| as real)
  {
  }

  /** A k at or past the end of the list measures the whole list. */
  lemma WholeList(recommended: seq<string>, relevant: set<string>, k: int)
    requires k >= |recommended|
    ensures PyPrefix(recommended, k) == recommended
    ensures |recommended| > 0 ==> Precision(recommended, relevant, k) * (k as real) == Hits(recommended, relevant) as real
  {
  }

  predicate NoRepeats(s: seq<string>) {
    forall i, j :: 0 <= i < j < |s| ==> s[i] != s[j]
  }

  /** Without repeated entries the hits are the relevant ids the list contains. */
  lemma {:induction false} HitsOfDistinct(s: seq<string>, relevant: set<string>)
    requires NoRepeats(s)
    ensures Hits(s, relevant) == |Elems(s) * relevant|
  {
    if |s| > 0 {
      DistinctCons(s, relevant);
      HitsOfDistinct(s[1..], relevant);
    }
  }

  lemma DistinctCons(s: seq<string>, relevant: set<string>)
    requires |s| > 0 && NoRepeats(s)
    ensures NoRepeats(s[1..])
    ensures |Elems(s) * relevant| == (if s[0] in relevant then 1 else 0) + |Elems(s[1..]) * relevant|
  {
    var x, rest := s[0], s[1..];
    var common := Elems(rest) * relevant;
    HeadNotRepeated(s);
    assert x !in common;
    assert Elems(s) == Elems(rest) + {x} by {
      assert s == [x] + rest;
    }
    if x in relevant {
      assert Elems(s) * relevant == common + {x};
    } else {
      assert Elems(s) * relevant == common;
    }
  }

  lemma HeadNotRepeated(s: seq<string>)
    requires |s| > 0 && NoRepeats(s)
    ensures s[0] !in s[1..]
  {
    forall j | 0 <= j < |s| - 1
      ensures s[1..][j] != s[0]
    {
      assert s[1..][j] == s[j + 1];
    }
  }

  /** Recall stays within [0, 1] when the list has no repeated entries. */
  lemma RecallBoundedWithoutRepeats(recommended: seq<string>, relevant: set<string>, k: int)
    requires NoRepeats(recommended)
    ensures 0.0 <= Recall(recommended, relevant, k) <= 1.0
  {
    var p := PyPrefix(recommended, k);
    assert NoRepeats(p);
    HitsOfDistinct(p, relevant);
    var common := Elems(p) * relevant;
    assert common <= relevant;
    SubsetCardinality(common, relevant);
    if |relevant| > 0 {
      Fraction(Hits(p, relevant), |relevant|);
    }
  }

  lemma SubsetCardinality(a: set<string>, b: set<string>)
    requires a <= b
    ensures |a| <= |b|
  {
    assert b == a + (b - a);
  }

  /** With a repeated relevant entry recall exceeds 1: the hit count is not
      de-duplicated. */
  lemma RecallCountsRepeats()
    ensures Recall(["a", "a"], {"a"}, 2) == 2.0
  {
    assert PyPrefix(["a", "a"], 2) == ["a", "a"];
    assert Hits(["a", "a"], {"a"}) == 2;
  }

  // ---------------------------------------------------------------------
  // NDCG

  /** `discount(i)` stands for `log2(i + 2)`: at least 1 and non-decreasing. */
  type Discount = nat -> real

  ghost predicate IsDiscount(d: Discount) {
    (forall i: nat :: d(i) >= 1.0) && (forall i: nat, j: nat :: i <= j ==> d(i) <= d(j))
  }

  /** `[1 if x in relevant else 0 for x in s]` */
  function Gains(s: seq<string>, relevant: set<string>): (g: seq<int>)
    ensures |g| == |s| && Binary(g)
    ensures forall i :: 0 <= i < |g| ==> g[i] == (if s[i] in relevant then 1 else 0)
  {
    if |s| == 0 then [] else [if s[0] in relevant then 1 else 0] + Gains(s[1..], relevant)
  }

  /** The number of 1 gains. */
  function Ones(g: seq<int>): (n: nat)
    ensures n <= |g|
  {
    if |g| == 0 then 0 else (if g[0] == 1 then 1 else 0) + Ones(g[1..])
  }

  function Repeat(v: int, n: nat): (r: seq<int>)
    ensures |r| == n
  {
    if n == 0 then [] else [v] + Repeat(v, n - 1)
  }

  lemma {:induction false} RepeatAll(v: int, n: nat)
    ensures forall i :: 0 <= i < n ==> Repeat(v, n)[i] == v
  {
    if n > 0 {
      RepeatAll(v, n - 1);
    }
  }

  predicate Binary(g: seq<int>) {
    forall i :: 0 <= i < |g| ==> 0 <= g[i] <= 1
  }

  predicate NonIncreasing(g: seq<int>) {
    forall i, j :: 0 <= i < j < |g| ==> g[i] >= g[j]
  }

  /** `h` ones followed by zeros, `n` entries in all. */
  function OnesFirst(h: nat, n: nat): (r: seq<int>)
    requires h <= n
    ensures |r| == n
  {
    Repeat(1, h) + Repeat(0, n - h)
  }

  /** `sorted(gains, reverse=True)` for 0/1 gains: the 1s, then the 0s. It is
      non-increasing and a permutation of the gains, which determines it. */
  function Ideal(g: seq<int>): (r: seq<int>)
    requires Binary(g)
    ensures |r| == |g|
    ensures NonIncreasing(r) && Binary(r)
    ensures multiset(r) == multiset(g)
  {
    IdealPermutation(g);
    RepeatAll(1, Ones(g));
    RepeatAll(0, |g| - Ones(g));
    OnesFirst(Ones(g), |g|)
  }

  lemma {:induction false} IdealPermutation(g: seq<int>)
    requires Binary(g)
    ensures multiset(OnesFirst(Ones(g), |g|)) == multiset(g)
  {
    if |g| > 0 {
      IdealCons(g);
      IdealPermutation(g[1..]);
      ConsMultiset(g);
    } else {
      assert OnesFirst(0, 0) == g;
    }
  }

  /** The ideal order of `g` is that of its tail with the head's gain added. */
  lemma IdealCons(g: seq<int>)
    requires Binary(g) && |g| > 0
    ensures Binary(g[1..])
    ensures multiset(OnesFirst(Ones(g), |g|)) == multiset(OnesFirst(Ones(g[1..]), |g[1..]|)) + multiset{g[0]}
  {
    OnesCons(g);
    IdealGrows(Ones(g[1..]), |g[1..]|, Ones(g), |g|, g[0]);
  }

  /** One more 1 or one more 0 adds that element to the ideal order's multiset. */
  lemma IdealGrows(h: nat, n: nat, h': nat, n': nat, x: int)
    requires h <= n && n' == n + 1
    requires (x == 1 && h' == h + 1) || (x == 0 && h' == h)
    ensures multiset(OnesFirst(h', n')) == multiset(OnesFirst(h, n)) + multiset{x}
  {
    if x == 1 {
      OneMore(h, n);
    } else {
      ZeroMore(h, n);
    }
  }

  lemma OnesCons(g: seq<int>)
    requires Binary(g) && |g| > 0
    ensures g[0] == 0 || g[0] == 1
    ensures Binary(g[1..]) && Ones(g) == Ones(g[1..]) + g[0]
  {
  }

  lemma ConsMultiset(g: seq<int>)
    requires |g| > 0
    ensures multiset(g) == multiset{g[0]} + multiset(g[1..])
  {
    assert g == [g[0]] + g[1..];
  }

  lemma OneMore(h: nat, n: nat)
    requires h <= n
    ensures multiset(OnesFirst(h + 1, n + 1)) == multiset(OnesFirst(h, n)) + multiset{1}
  {
    var s := OnesFirst(h, n);
    assert OnesFirst(h + 1, n + 1) == [1] + s;
    assert multiset([1] + s) == multiset([1]) + multiset(s);
  }

  lemma ZeroMore(h: nat, n: nat)
    requires h <= n
    ensures multiset(OnesFirst(h, n + 1)) == multiset(OnesFirst(h, n)) + multiset{0}
  {
    var ones, zeros := Repeat(1, h), Repeat(0, n - h);
    assert OnesFirst(h, n + 1) == (ones + [0]) + zeros;
    assert multiset(OnesFirst(h, n + 1)) == multiset(ones) + multiset([0]) + multiset(zeros);
  }

  /** `sum(score / log2(idx + 2))`, positions counted from `start`. */
  function Dcg(g: seq<int>, d: Discount, start: nat): real
    requires IsDiscount(d)
  {
    if |g| == 0 then 0.0
    else (g[0] as real) / d(start) + Dcg(g[1..], d, start + 1)
  }

  lemma {:induction false} DcgNonnegative(g: seq<int>, d: Discount, start: nat)
    requires Binary(g) && IsDiscount(d)
    ensures Dcg(g, d, start) >= 0.0
  {
    if |g| > 0 {
      assert Binary(g[1..]);
      DcgNonnegative(g[1..], d, start + 1);
      DivNonneg(g[0] as real, d(start));
    }
  }

  lemma DivNonneg(x: real, y: real)
    requires x >= 0.0 && y > 0.0
    ensures x / y >= 0.0
  {
  }

  /** `ndcg_at_k`: the DCG of the gains of the top k over the DCG of their
      ideal order, 0 when the ideal DCG is 0. */
  function Ndcg(recommended: seq<string>, relevant: set<string>, k: int, d: Discount): real
    requires IsDiscount(d)
  {
    NdcgOf(Gains(PyPrefix(recommended, k), relevant), d)
  }

  function NdcgOf(gains: seq<int>, d: Discount): real
    requires Binary(gains) && IsDiscount(d)
  {
    var idealDcg := Dcg(Ideal(gains), d, 0);
    if idealDcg == 0.0 then 0.0 else Dcg(gains, d, 0) / idealDcg
  }

  lemma {:induction false} GainsOnes(s: seq<string>, relevant: set<string>)
    ensures Ones(Gains(s, relevant)) == Hits(s, relevant)
  {
    if |s| > 0 {
      GainsOnes(s[1..], relevant);
      assert Gains(s, relevant)[1..] == Gains(s[1..], relevant);
    }
  }

  /** The DCG of `n` ones from position `start`. */
  lemma {:induction false} DcgOfZeros(n: nat, d: Discount, start: nat)
    requires IsDiscount(d)
    ensures Dcg(Repeat(0, n), d, start) == 0.0
  {
    if n > 0 {
      assert Repeat(0, n)[1..] == Repeat(0, n - 1);
      DcgOfZeros(n - 1, d, start + 1);
    }
  }

  lemma {:induction false} DcgAppend(a: seq<int>, b: seq<int>, d: Discount, start: nat)
    requires IsDiscount(d)
    ensures Dcg(a + b, d, start) == Dcg(a, d, start) + Dcg(b, d, start + |a|)
  {
    if |a| > 0 {
      assert (a + b)[0] == a[0] && (a + b)[1..] == a[1..] + b;
      DcgAppend(a[1..], b, d, start + 1);
      assert Dcg(a + b, d, start) == (a[0] as real) / d(start) + Dcg(a[1..] + b, d, start + 1);
      assert Dcg(a, d, start) == (a[0] as real) / d(start) + Dcg(a[1..], d, start + 1);
      assert start + 1 + |a[1..]| == start + |a|;
    } else {
      assert a + b == b;
    }
  }

  /** Moving a block of ones one position later never raises its DCG. */
  lemma {:induction false} OnesShift(n: nat, d: Discount, start: nat)
    requires IsDiscount(d)
    ensures Dcg(Repeat(1, n), d, start + 1) <= Dcg(Repeat(1, n), d, start)
  {
    if n > 0 {
      assert Repeat(1, n)[1..] == Repeat(1, n - 1);
      OnesShift(n - 1, d, start + 1);
      ReciprocalOrder(d(start), d(start + 1));
    }
  }

  lemma ReciprocalOrder(x: real, y: real)
    requires 1.0 <= x <= y
    ensures 1.0 / y <= 1.0 / x
  {
    var r := x / y;
    AtMostOne(x, y);
    assert 1.0 / y == (1.0 / x) * r;
    assert (1.0 / x) * r <= (1.0 / x) * 1.0;
  }

  /** The DCG of the ideal order from position `start`: the DCG of its ones. */
  lemma IdealDcg(g: seq<int>, d: Discount, start: nat)
    requires Binary(g) && IsDiscount(d)
    ensures Dcg(Ideal(g), d, start) == Dcg(Repeat(1, Ones(g)), d, start)
  {
    DcgAppend(Repeat(1, Ones(g)), Repeat(0, |g| - Ones(g)), d, start);
    DcgOfZeros(|g| - Ones(g), d, start + Ones(g));
  }

  /** No ordering of the gains beats the ideal one. */
  lemma DcgAtMostIdeal(g: seq<int>, d: Discount, start: nat)
    requires Binary(g) && IsDiscount(d)
    ensures Dcg(g, d, start) <= Dcg(Ideal(g), d, start)
  {
    DcgAtMostOnes(g, d, start);
    IdealDcg(g, d, start);
  }

  /** The DCG of a 0/1 sequence is at most that of its ones placed first. */
  lemma {:induction false} DcgAtMostOnes(g: seq<int>, d: Discount, start: nat)
    requires Binary(g) && IsDiscount(d)
    ensures Dcg(g, d, start) <= Dcg(Repeat(1, Ones(g)), d, start)
  {
    if |g| > 0 {
      OnesCons(g);
      var h := Ones(g[1..]);
      DcgAtMostOnes(g[1..], d, start + 1);
      if g[0] == 1 {
        OnesDcgCons(h, d, start);
      } else {
        OnesShift(h, d, start);
      }
    }
  }

  lemma OnesDcgCons(h: nat, d: Discount, start: nat)
    requires IsDiscount(d)
    ensures Dcg(Repeat(1, h + 1), d, start) == 1.0 / d(start) + Dcg(Repeat(1, h), d, start + 1)
  {
    assert Repeat(1, h + 1)[1..] == Repeat(1, h);
  }

  /** A non-increasing 0/1 sequence is already in the ideal order. */
  lemma {:induction false} SortedIsIdeal(g: seq<int>)
    requires Binary(g) && NonIncreasing(g)
    ensures Ideal(g) == g
  {
    if |g| > 0 {
      var rest := g[1..];
      assert Binary(rest) && NonIncreasing(rest);
      if g[0] == 1 {
        SortedIsIdeal(rest);
        var h := Ones(rest);
        assert Repeat(1, h + 1) + Repeat(0, |rest| - h) == [1] + Ideal(rest);
        assert g == [1] + rest;
      } else {
        NoOnes(g);
        RepeatAll(0, |g|);
        assert forall i :: 0 <= i < |g| ==> g[i] == 0;
        assert g == Repeat(0, |g|);
      }
    }
  }

  lemma {:induction false} NoOnes(g: seq<int>)
    requires Binary(g) && |g| > 0 && g[0] == 0 && NonIncreasing(g)
    ensures Ones(g) == 0
  {
    if |g| > 1 {
      NoOnes(g[1..]);
    }
  }

  lemma {:induction false} OnesPositive(n: nat, d: Discount, start: nat)
    requires IsDiscount(d) && n > 0
    ensures Dcg(Repeat(1, n), d, start) > 0.0
  {
    assert Repeat(1, n)[1..] == Repeat(1, n - 1);
    RepeatAll(1, n - 1);
    DcgNonnegative(Repeat(1, n - 1), d, start + 1);
    assert Dcg(Repeat(1, n), d, start) == 1.0 / d(start) + Dcg(Repeat(1, n - 1), d, start + 1);
  }

  /** NDCG is 0 when the top k hold no relevant id. */
  lemma NdcgWithoutHits(recommended: seq<string>, relevant: set<string>, k: int, d: Discount)
    requires IsDiscount(d)
    requires Hits(PyPrefix(recommended, k), relevant) == 0
    ensures Ndcg(recommended, relevant, k, d) == 0.0
  {
    var gains := Gains(PyPrefix(recommended, k), relevant);
    GainsOnes(PyPrefix(recommended, k), relevant);
    IdealDcg(gains, d, 0);
    assert Repeat(1, 0) == [];
  }

  /** NDCG is exactly 1 when there is a hit and all hits precede all misses. */
  lemma NdcgOfIdealOrder(recommended: seq<string>, relevant: set<string>, k: int, d: Discount)
    requires IsDiscount(d)
    requires Hits(PyPrefix(recommended, k), relevant) > 0
    requires NonIncreasing(Gains(PyPrefix(recommended, k), relevant))
    ensures Ndcg(recommended, relevant, k, d) == 1.0
  {
    var gains := Gains(PyPrefix(recommended, k), relevant);
    GainsOnes(PyPrefix(recommended, k), relevant);
    IdealScoresOne(gains, d);
  }

  lemma IdealScoresOne(gains: seq<int>, d: Discount)
    requires IsDiscount(d) && Binary(gains) && NonIncreasing(gains) && Ones(gains) > 0
    ensures NdcgOf(gains, d) == 1.0
  {
    var actual := Dcg(gains, d, 0);
    assert Dcg(Ideal(gains), d, 0) == actual by {
      SortedIsIdeal(gains);
    }
    assert actual > 0.0 by {
      IdealDcg(gains, d, 0);
      SortedIsIdeal(gains);
      OnesPositive(Ones(gains), d, 0);
    }
    SelfRatio(actual);
  }

  lemma SelfRatio(x: real)
    requires x > 0.0
    ensures x / x == 1.0
  {
  }

  /** NDCG lies in [0, 1]. */
  lemma NdcgBounds(recommended: seq<string>, relevant: set<string>, k: int, d: Discount)
    requires IsDiscount(d)
    ensures 0.0 <= Ndcg(recommended, relevant, k, d) <= 1.0
  {
    NdcgOfBounds(Gains(PyPrefix(recommended, k), relevant), d);
  }

  lemma NdcgOfBounds(gains: seq<int>, d: Discount)
    requires IsDiscount(d) && Binary(gains)
    ensures 0.0 <= NdcgOf(gains, d) <= 1.0
  {
    DcgAtMostIdeal(gains, d, 0);
    DcgNonnegative(gains, d, 0);
    var actual, ideal := Dcg(gains, d, 0), Dcg(Ideal(gains), d, 0);
    if ideal != 0.0 {
      AtMostOne(actual, ideal);
      DivNonneg(actual, ideal);
    }
  }
}
