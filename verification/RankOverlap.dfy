/**
 * Rank-biased overlap of two ranked lists. The loop computes the truncated sum, so a
 * perfect score is 1 - p^k for lists of length k and never 1.
 */
module RankOverlap {
  import opened Basics

  /** The items among the first d ranks. */
  function Top(a: seq<string>, d: nat): set<string>
    requires d <= |a|
  {
    if d == 0 then {} else Top(a, d - 1) + {a[d - 1]}
  }

  function Overlap(a: seq<string>, b: seq<string>, d: nat): nat
    requires d <= |a| && d <= |b|
  {
    |Top(a, d) * Top(b, d)|
  }

  function Pow(p: real, n: nat): real {
    if n == 0 then 1.0 else Pow(p, n - 1) * p
  }

  function Share(x: real, xi: nat, d: nat): real {
    if d == 0 then 0.0 else x * (xi as real) / (d as real)
  }

  /** The weight of depth d: its power of p times the share of items found in both lists. */
  function Weight(p: real): (nat, nat) -> real {
    (xi: nat, d: nat) => if d == 0 then 0.0 else Share(Pow(p, d - 1), xi, d)
  }

  function Sum(a: seq<string>, b: seq<string>, weight: (nat, nat) -> real, d: nat): real
    requires d <= |a| && d <= |b|
  {
    if d == 0 then 0.0 else Sum(a, b, weight, d - 1) + weight(Overlap(a, b, d), d)
  }

  function Depth(a: seq<string>, b: seq<string>): nat {
    if |b| < |a| then |b| else |a|
  }

  function Discounted(p: real, sum: real): real {
    (1.0 - p) * sum
  }

  function Weighted(a: seq<string>, b: seq<string>, p: real, weight: (nat, nat) -> real): real {
    if Depth(a, b) == 0 then 0.0 else Discounted(p, Sum(a, b, weight, Depth(a, b)))
  }

  function Score(a: seq<string>, b: seq<string>, p: real): real {
    Weighted(a, b, p, Weight(p))
  }

  method CountShared(aSet: set<string>, bSet: set<string>) returns (xi: nat)
    ensures xi == |aSet * bSet|
  {
    xi := 0;
    var rest := aSet;
    while rest != {}
      invariant rest <= aSet
      invariant xi == |(aSet - rest) * bSet|
      decreases |rest|
    {
      var item :| item in rest;
      var next := rest - {item};
      if item in bSet {
        assert (aSet - next) * bSet == (aSet - rest) * bSet + {item};
        xi := xi + 1;
      } else {
        assert (aSet - next) * bSet == (aSet - rest) * bSet;
      }
      rest := next;
    }
    assert aSet - rest == aSet;
  }

  /** The loop over depths: both sets grow by one rank, and the shared items are counted anew. */
  method SumDepths(a: seq<string>, b: seq<string>, k: nat, weight: (nat, nat) -> real) returns (sum: real)
    requires k <= |a| && k <= |b|
    ensures sum == Sum(a, b, weight, k)
  {
    sum := 0.0;
    var aSet: set<string> := {};
    var bSet: set<string> := {};
    for d := 1 to k + 1
      invariant aSet == Top(a, d - 1) && bSet == Top(b, d - 1)
      invariant sum == Sum(a, b, weight, d - 1)
    {
      aSet := aSet + {a[d - 1]};
      bSet := bSet + {b[d - 1]};
      var xi := CountShared(aSet, bSet);
      sum := sum + weight(xi, d);
    }
  }

  method WeightedRbo(a: seq<string>, b: seq<string>, p: real, weight: (nat, nat) -> real) returns (score: real)
    ensures score == Weighted(a, b, p, weight)
  {
    var k := if |b| < |a| then |b| else |a|;
    if k == 0 {
      return 0.0;
    }
    var sum := SumDepths(a, b, k, weight);
    return Discounted(p, sum);
  }

  method Rbo(a: seq<string>, b: seq<string>, p: real) returns (score: real)
    ensures score == Score(a, b, p)
  {
    score := WeightedRbo(a, b, p, Weight(p));
  }

  // ---- Symmetry ----

  lemma {:induction false} SumSymmetric(a: seq<string>, b: seq<string>, weight: (nat, nat) -> real, d: nat)
    requires d <= |a| && d <= |b|
    ensures Sum(a, b, weight, d) == Sum(b, a, weight, d)
  {
    if d > 0 {
      SumSymmetric(a, b, weight, d - 1);
      assert Top(a, d) * Top(b, d) == Top(b, d) * Top(a, d);
    }
  }

  lemma WeightedSymmetric(a: seq<string>, b: seq<string>, p: real, weight: (nat, nat) -> real)
    ensures Weighted(a, b, p, weight) == Weighted(b, a, p, weight)
  {
    var k := Depth(a, b);
    assert Depth(b, a) == k;
    SumSymmetric(a, b, weight, k);
    assert Sum(a, b, weight, k) == Sum(b, a, weight, k);
  }

  lemma ScoreSymmetric(a: seq<string>, b: seq<string>, p: real)
    ensures Score(a, b, p) == Score(b, a, p)
  {
    WeightedSymmetric(a, b, p, Weight(p));
  }

  // ---- Range ----

  lemma {:induction false} TopSize(a: seq<string>, d: nat)
    requires d <= |a|
    ensures |Top(a, d)| <= d
  {
    if d > 0 {
      TopSize(a, d - 1);
    }
  }

  lemma OverlapBound(a: seq<string>, b: seq<string>, d: nat)
    requires d <= |a| && d <= |b|
    ensures Overlap(a, b, d) <= d
    ensures Overlap(a, b, d) == d ==> Top(a, d) == Top(b, d) && |Top(a, d)| == d
  {
    TopSize(a, d);
    TopSize(b, d);
    Within(Top(a, d) * Top(b, d), Top(a, d));
    Within(Top(a, d) * Top(b, d), Top(b, d));
  }

  lemma Within(s: set<string>, t: set<string>)
    requires s <= t
    ensures |s| <= |t| && (|s| == |t| ==> s == t)
  {
    assert t == s + (t - s) && s !! t - s;
  }

  lemma {:induction false} PowPositive(p: real, n: nat)
    requires 0.0 < p
    ensures 0.0 < Pow(p, n)
  {
    if n > 0 {
      PowPositive(p, n - 1);
    }
  }

  lemma PositiveProduct(c: real, y: real)
    requires 0.0 < c && 0.0 <= y
    ensures 0.0 <= c * y && (c * y == 0.0 <==> y == 0.0)
  {
  }

  lemma Distributes(c: real, x: real, y: real)
    ensures c * (x + y) == c * x + c * y
    ensures c * (x - y) == c * x - c * y
  {
  }

  lemma ShareRange(x: real, xi: nat, d: nat)
    requires 0.0 < x && xi <= d && 1 <= d
    ensures 0.0 <= Share(x, xi, d) <= x
    ensures Share(x, xi, d) == x <==> xi == d
  {
    var n, m := xi as real, d as real;
    var w := x * n / m;
    assert w * m == x * n;
    PositiveProduct(x, n);
    PositiveProduct(x, m - n);
    Distributes(x, m, n);
    assert x * m - w * m == (x - w) * m;
  }

  /** A weight lies in [0, p^(d-1)], and reaches the top exactly when every item of the depth is shared. */
  ghost predicate Fair(weight: (nat, nat) -> real, p: real) {
    forall xi: nat, d: nat :: 1 <= d && xi <= d ==>
      && 0.0 <= weight(xi, d) <= Pow(p, d - 1)
      && (weight(xi, d) == Pow(p, d - 1) <==> xi == d)
  }

  lemma WeightIsFair(p: real)
    requires 0.0 < p
    ensures Fair(Weight(p), p)
  {
    forall xi: nat, d: nat | 1 <= d && xi <= d
      ensures 0.0 <= Weight(p)(xi, d) <= Pow(p, d - 1) && (Weight(p)(xi, d) == Pow(p, d - 1) <==> xi == d)
    {
      PowPositive(p, d - 1);
      ShareRange(Pow(p, d - 1), xi, d);
    }
  }

  /** 1 + p + ... + p^(n-1). */
  function Geometric(p: real, n: nat): real {
    if n == 0 then 0.0 else Geometric(p, n - 1) + Pow(p, n - 1)
  }

  lemma {:induction false} GeometricClosed(p: real, n: nat)
    ensures (1.0 - p) * Geometric(p, n) == 1.0 - Pow(p, n)
  {
    if n > 0 {
      GeometricClosed(p, n - 1);
      Distributes(1.0 - p, Geometric(p, n - 1), Pow(p, n - 1));
      Distributes(Pow(p, n - 1), 1.0, p);
    }
  }

  /** The items agree at every depth up to d. */
  ghost predicate FullOverlap(a: seq<string>, b: seq<string>, d: nat)
    requires d <= |a| && d <= |b|
  {
    forall e :: 1 <= e <= d ==> Overlap(a, b, e) == e
  }

  lemma FairAt(weight: (nat, nat) -> real, p: real, xi: nat, d: nat)
    requires Fair(weight, p) && 1 <= d && xi <= d
    ensures 0.0 <= weight(xi, d) <= Pow(p, d - 1) && (weight(xi, d) == Pow(p, d - 1) <==> xi == d)
  {
  }

  /** `s` lies in [0, g], and at the top exactly if `full`. */
  predicate InRange(s: real, g: real, full: bool) {
    0.0 <= s <= g && (s == g <==> full)
  }

  lemma AddRanges(s: real, g: real, before: bool, w: real, q: real, now: bool)
    requires InRange(s, g, before) && InRange(w, q, now)
    ensures InRange(s + w, g + q, before && now)
  {
  }

  /** Fair weights add up to at most the geometric sum, and to it only if every depth is full. */
  lemma {:induction false} SumRange(a: seq<string>, b: seq<string>, weight: (nat, nat) -> real, p: real, d: nat)
    requires Fair(weight, p) && d <= |a| && d <= |b|
    ensures InRange(Sum(a, b, weight, d), Geometric(p, d), FullOverlap(a, b, d))
  {
    if d > 0 {
      SumRange(a, b, weight, p, d - 1);
      OverlapBound(a, b, d);
      FullSplit(a, b, d);
      FairAt(weight, p, Overlap(a, b, d), d);
      AddRanges(Sum(a, b, weight, d - 1), Geometric(p, d - 1), FullOverlap(a, b, d - 1),
                weight(Overlap(a, b, d), d), Pow(p, d - 1), Overlap(a, b, d) == d);
    }
  }

  // ---- The perfect score ----

  /** The first d entries agree position by position and repeat nothing. */
  ghost predicate SameRanking(a: seq<string>, b: seq<string>, d: nat)
    requires d <= |a| && d <= |b|
  {
    a[..d] == b[..d] && forall i, j :: 0 <= i < j < d ==> a[i] != a[j]
  }

  lemma {:induction false} TopMembers(a: seq<string>, d: nat, x: string)
    requires d <= |a|
    ensures x in Top(a, d) <==> exists i :: 0 <= i < d && a[i] == x
  {
    if d > 0 {
      TopMembers(a, d - 1, x);
    }
  }

  lemma {:induction false} FullOverlapIsSameRanking(a: seq<string>, b: seq<string>, d: nat)
    requires d <= |a| && d <= |b|
    ensures FullOverlap(a, b, d) <==> SameRanking(a, b, d)
  {
    if d > 0 {
      FullOverlapIsSameRanking(a, b, d - 1);
      FullSplit(a, b, d);
      SameSplit(a, b, d);
      if FullOverlap(a, b, d) {
        FullStep(a, b, d);
      }
      if SameRanking(a, b, d) {
        SameStep(a, b, d);
      }
    }
  }

  lemma FullSplit(a: seq<string>, b: seq<string>, d: nat)
    requires 1 <= d <= |a| && d <= |b|
    ensures FullOverlap(a, b, d) <==> FullOverlap(a, b, d - 1) && Overlap(a, b, d) == d
  {
  }

  lemma SameSplit(a: seq<string>, b: seq<string>, d: nat)
    requires 1 <= d <= |a| && d <= |b|
    ensures SameRanking(a, b, d) <==>
              SameRanking(a, b, d - 1) && a[d - 1] == b[d - 1] && a[d - 1] !in Top(a, d - 1)
  {
    assert a[..d] == a[..d - 1] + [a[d - 1]] && b[..d] == b[..d - 1] + [b[d - 1]];
    TopMembers(a, d - 1, a[d - 1]);
  }

  lemma FullStep(a: seq<string>, b: seq<string>, d: nat)
    requires 1 <= d <= |a| && d <= |b| && FullOverlap(a, b, d)
    ensures a[d - 1] == b[d - 1] && a[d - 1] !in Top(a, d - 1)
  {
    OverlapBound(a, b, d);
    TopSize(a, d - 1);
    TopSize(b, d - 1);
    if d > 1 {
      OverlapBound(a, b, d - 1);
    }
    assert a[d - 1] in Top(b, d) && b[d - 1] in Top(a, d);
  }

  lemma SameStep(a: seq<string>, b: seq<string>, d: nat)
    requires 1 <= d <= |a| && d <= |b| && SameRanking(a, b, d)
    requires FullOverlap(a, b, d - 1)
    ensures Overlap(a, b, d) == d
  {
    SameSplit(a, b, d);
    OverlapBound(a, b, d - 1);
    assert Top(a, d - 1) == Top(b, d - 1) && |Top(a, d - 1)| == d - 1 by {
      if d > 1 {
        assert Overlap(a, b, d - 1) == d - 1;
      }
    }
    AddedToBoth(Top(a, d - 1), a[d - 1]);
  }

  lemma AddedToBoth(s: set<string>, x: string)
    requires x !in s
    ensures |(s + {x}) * (s + {x})| == |s| + 1
  {
    assert (s + {x}) * (s + {x}) == s + {x};
  }

  lemma Scaled(c: real, s: real, g: real)
    requires 0.0 < c && 0.0 <= s <= g
    ensures 0.0 <= c * s <= c * g
    ensures c * s == c * g <==> s == g
  {
    PositiveProduct(c, s);
    PositiveProduct(c, g - s);
    Distributes(c, g, s);
  }

  /** For any fair weight the sum is at most the geometric one, and equal exactly for the same ranking. */
  lemma FairRange(a: seq<string>, b: seq<string>, weight: (nat, nat) -> real, p: real, k: nat)
    requires Fair(weight, p) && k <= |a| && k <= |b|
    ensures 0.0 <= Sum(a, b, weight, k) <= Geometric(p, k)
    ensures Sum(a, b, weight, k) == Geometric(p, k) <==> SameRanking(a, b, k)
  {
    SumRange(a, b, weight, p, k);
    FullOverlapIsSameRanking(a, b, k);
  }

  lemma ScaleTo(p: real, s: real, g: real, q: real, same: bool)
    requires 0.0 < p < 1.0 && 0.0 <= s <= g && (1.0 - p) * g == 1.0 - q && 0.0 < q
    requires s == g <==> same
    ensures 0.0 <= (1.0 - p) * s <= 1.0 - q < 1.0
    ensures (1.0 - p) * s == 1.0 - q <==> same
  {
    Scaled(1.0 - p, s, g);
  }

  /**
   * For 0 < p < 1 the score lies in [0, 1 - p^k], k being the shorter length, and reaches the
   * top exactly when the first k entries agree position by position without a repeat.
   */
  lemma ScoreRange(a: seq<string>, b: seq<string>, p: real)
    requires 0.0 < p < 1.0
    ensures 0.0 <= Score(a, b, p) <= 1.0 - Pow(p, Depth(a, b)) < 1.0
    ensures Score(a, b, p) == 1.0 - Pow(p, Depth(a, b)) <==> SameRanking(a, b, Depth(a, b))
  {
    var k := Depth(a, b);
    var s, g, q := Sum(a, b, Weight(p), k), Geometric(p, k), Pow(p, k);
    assert 0.0 <= s <= g && (s == g <==> SameRanking(a, b, k)) by {
      WeightIsFair(p);
      FairRange(a, b, Weight(p), p, k);
    }
    PowPositive(p, k);
    GeometricClosed(p, k);
    ScaleTo(p, s, g, q, SameRanking(a, b, k));
  }

  // ---- What each shared item is worth ----

  /** The first rank of x, counted from 1, or one past the end. */
  function Rank(s: seq<string>, x: string): nat {
    if s == [] || s[0] == x then 1 else 1 + Rank(s[1..], x)
  }

  /** The sum of p^(d-1)/d for d from r to k. */
  function Credit(p: real, r: nat, k: nat): real {
    if k == 0 || k < r then 0.0 else Credit(p, r, k - 1) + Pow(p, k - 1) / (k as real)
  }

  /**
   * The credits of the items among the first n of `a`, each counted at its first rank and credited
   * from the depth at which both lists have shown it.
   */
  function Credits(a: seq<string>, b: seq<string>, credit: nat -> real, n: nat): real
    requires n <= |a|
  {
    if n == 0 then 0.0
    else Credits(a, b, credit, n - 1) + (if Rank(a, a[n - 1]) == n then credit(Max(n, Rank(b, a[n - 1]))) else 0.0)
  }

  function CreditTo(p: real, k: nat): nat -> real {
    (r: nat) => Credit(p, r, k)
  }

  lemma {:induction false} RankFirst(s: seq<string>, x: string)
    ensures 1 <= Rank(s, x) <= |s| + 1
    ensures Rank(s, x) <= |s| ==> s[Rank(s, x) - 1] == x
    ensures forall i :: 0 <= i < Rank(s, x) - 1 ==> s[i] != x
  {
    if s != [] && s[0] != x {
      RankFirst(s[1..], x);
      forall i | 0 <= i < Rank(s, x) - 1 ensures s[i] != x {
        if i > 0 {
          assert s[i] == s[1..][i - 1];
        }
      }
    }
  }

  lemma RankInTop(s: seq<string>, x: string, d: nat)
    requires d <= |s|
    ensures x in Top(s, d) <==> Rank(s, x) <= d
  {
    RankFirst(s, x);
    TopMembers(s, d, x);
  }

  /** The items among the first n of `a` that `b` has among its first k. */
  function SharedItems(a: seq<string>, b: seq<string>, n: nat, k: nat): nat
    requires n <= |a| && k <= |b|
  {
    |Top(a, n) * Top(b, k)|
  }

  lemma SharedNext(a: seq<string>, b: seq<string>, n: nat, k: nat)
    requires 1 <= n <= |a| && k <= |b|
    ensures SharedItems(a, b, n, k)
            == SharedItems(a, b, n - 1, k) + (if Rank(a, a[n - 1]) == n && Rank(b, a[n - 1]) <= k then 1 else 0)
  {
    var x := a[n - 1];
    RankInTop(a, x, n - 1);
    RankFirst(a, x);
    RankInTop(b, x, k);
    if x in Top(b, k) && x !in Top(a, n - 1) {
      assert Top(a, n) * Top(b, k) == Top(a, n - 1) * Top(b, k) + {x};
    } else {
      assert Top(a, n) * Top(b, k) == Top(a, n - 1) * Top(b, k);
    }
  }

  /** One depth more adds its worth to every credit that has begun. */
  ghost predicate OneDeeper(credit: nat -> real, credit': nat -> real, k: nat, worth: real) {
    forall r: nat :: 1 <= r ==> credit'(r) == credit(r) + (if r <= k then worth else 0.0)
  }

  /** w + ... + w. */
  function Multiple(n: nat, w: real): real {
    if n == 0 then 0.0 else Multiple(n - 1, w) + w
  }

  lemma {:induction false} MultipleIsProduct(n: nat, w: real)
    ensures Multiple(n, w) == (n as real) * w
  {
    if n > 0 {
      MultipleIsProduct(n - 1, w);
      assert (n as real) * w == ((n - 1) as real) * w + w;
    }
  }

  lemma {:induction false} CreditsDeeper(a: seq<string>, b: seq<string>, credit: nat -> real, credit': nat -> real,
                                         n: nat, k: nat, worth: real)
    requires OneDeeper(credit, credit', k, worth) && n <= k <= |b| && n <= |a|
    ensures Credits(a, b, credit', n) == Credits(a, b, credit, n) + Multiple(SharedItems(a, b, n, k), worth)
  {
    if n == 0 {
      assert Top(a, 0) * Top(b, k) == {};
    } else {
      CreditsDeeper(a, b, credit, credit', n - 1, k, worth);
      SharedNext(a, b, n, k);
      RankFirst(b, a[n - 1]);
    }
  }

  lemma CreditDeeper(p: real, k: nat)
    requires 1 <= k
    ensures OneDeeper(CreditTo(p, k - 1), CreditTo(p, k), k, Worth(p, k))
  {
    forall r: nat | 1 <= r
      ensures Credit(p, r, k) == Credit(p, r, k - 1) + (if r <= k then Worth(p, k) else 0.0)
    {
    }
  }

  /** What one shared item adds at depth k. */
  function Worth(p: real, k: nat): real
    requires 1 <= k
  {
    Pow(p, k - 1) / (k as real)
  }

  lemma ShareIsMultiple(x: real, xi: nat, d: nat)
    requires 1 <= d
    ensures Share(x, xi, d) == Multiple(xi, x / (d as real))
  {
    MultipleIsProduct(xi, x / (d as real));
  }

  /** The weight grows by the same amount with every shared item. */
  ghost predicate Even(weight: (nat, nat) -> real, p: real) {
    forall xi: nat, d: nat :: 1 <= d ==> weight(xi, d) == Multiple(xi, Worth(p, d))
  }

  lemma WeightIsEven(p: real)
    ensures Even(Weight(p), p)
  {
    forall xi: nat, d: nat | 1 <= d ensures Weight(p)(xi, d) == Multiple(xi, Worth(p, d)) {
      ShareIsMultiple(Pow(p, d - 1), xi, d);
    }
  }

  /** No item is credited before the depth of its own rank. */
  lemma LastUncredited(a: seq<string>, b: seq<string>, p: real, k: nat)
    requires 1 <= k <= |a|
    ensures Credits(a, b, CreditTo(p, k - 1), k) == Credits(a, b, CreditTo(p, k - 1), k - 1)
  {
  }

  lemma {:induction false} SumIsCredits(a: seq<string>, b: seq<string>, weight: (nat, nat) -> real, p: real, k: nat)
    requires Even(weight, p) && k <= |a| && k <= |b|
    ensures Sum(a, b, weight, k) == Credits(a, b, CreditTo(p, k), k)
  {
    if k > 0 {
      SumIsCredits(a, b, weight, p, k - 1);
      CreditDeeper(p, k);
      CreditsDeeper(a, b, CreditTo(p, k - 1), CreditTo(p, k), k, k, Worth(p, k));
      LastUncredited(a, b, p, k);
    }
  }

  /**
   * The score item by item: 1 - p times the sum, over the items both lists show within the shorter
   * length k, of p^(d-1)/d for the depths d from the larger of the item's two ranks to k.
   */
  lemma ScoreByItems(a: seq<string>, b: seq<string>, p: real, k: nat)
    requires k == Min(|a|, |b|)
    ensures Score(a, b, p) == (1.0 - p) * Credits(a, b, (r: nat) => Credit(p, r, k), k)
  {
    WeightIsEven(p);
    SumIsCredits(a, b, Weight(p), p, k);
    assert CreditTo(p, k) == ((r: nat) => Credit(p, r, k));
  }
}
