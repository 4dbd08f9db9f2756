/** Shared vocabulary: optional values and the small sequence facts every component uses. */
module Basics {

  datatype Option<+T> = None | Some(value: T)

  function Min(a: int, b: int): int {
    if a <= b then a else b
  }

  function Max(a: int, b: int): int {
    if a >= b then a else b
  }

  /** The elements of `s` satisfying `p`, in order. */
  function Filter<T>(s: seq<T>, p: T -> bool): (r: seq<T>)
    ensures forall x :: x in r ==> x in s && p(x)
    ensures forall x :: x in s && p(x) ==> x in r
  {
    if s == [] then []
    else if p(s[0]) then [s[0]] + Filter(s[1..], p)
    else Filter(s[1..], p)
  }

  lemma {:induction false} FilterAppend<T>(s: seq<T>, t: seq<T>, p: T -> bool)
    ensures Filter(s + t, p) == Filter(s, p) + Filter(t, p)
  {
    if s == [] {
      assert s + t == t;
    } else {
      assert (s + t)[1..] == s[1..] + t;
      FilterAppend(s[1..], t, p);
    }
  }

  /** Filtering keeps multiplicities, so permuted inputs have permuted filtrates. */
  lemma {:induction false} FilterMultiset<T>(s: seq<T>, p: T -> bool, x: T)
    ensures multiset(Filter(s, p))[x] == if p(x) then multiset(s)[x] else 0
  {
    if s != [] {
      FilterMultiset(s[1..], p, x);
      assert s == [s[0]] + s[1..];
      assert multiset(s)[x] == multiset([s[0]])[x] + multiset(s[1..])[x];
    }
  }

  ghost predicate Distinct<T>(s: seq<T>) {
    forall i, j :: 0 <= i < j < |s| ==> s[i] != s[j]
  }

  /** Membership in a sequence is a positive count in its multiset. */
  lemma PermutationMembers<T(!new)>(s: seq<T>, t: seq<T>)
    requires multiset(s) == multiset(t)
    ensures |s| == |t|
    ensures forall x :: x in s <==> x in t
  {
    assert |multiset(s)| == |s| && |multiset(t)| == |t|;
    forall x ensures x in s <==> x in t {
      assert x in s <==> x in multiset(s);
      assert x in t <==> x in multiset(t);
    }
  }

  /** Every two positions of `s` are related by `r`. */
  ghost predicate Pairwise<T>(s: seq<T>, r: (T, T) -> bool) {
    forall i, j :: 0 <= i < j < |s| ==> r(s[i], s[j]) && r(s[j], s[i])
  }

  lemma PairwisePrefix<T>(s: seq<T>, n: nat, r: (T, T) -> bool)
    requires n <= |s| && Pairwise(s, r)
    ensures Pairwise(s[..n], r)
  {
  }

  function RemoveAt<T>(s: seq<T>, i: nat): seq<T>
    requires i < |s|
  {
    s[..i] + s[i + 1..]
  }

  lemma RemoveAtMultiset<T>(s: seq<T>, i: nat)
    requires i < |s|
    ensures multiset(RemoveAt(s, i)) == multiset(s) - multiset{s[i]}
  {
    assert s == s[..i] + [s[i]] + s[i + 1..];
  }

  lemma RemoveAtPairwise<T>(s: seq<T>, i: nat, r: (T, T) -> bool)
    requires i < |s| && Pairwise(s, r)
    ensures Pairwise(RemoveAt(s, i), r)
    ensures forall x :: x in RemoveAt(s, i) ==> r(s[i], x) && r(x, s[i])
  {
    var rest := RemoveAt(s, i);
    forall j | 0 <= j < |rest| ensures rest[j] == s[if j < i then j else j + 1] {
    }
  }

  /** Where the first element of `t` sits in a rearrangement `s`. */
  lemma MatchFirst<T(!new)>(s: seq<T>, t: seq<T>) returns (i: nat)
    requires multiset(s) == multiset(t) && t != []
    ensures i < |s| && s[i] == t[0] && multiset(RemoveAt(s, i)) == multiset(t[1..])
  {
    PermutationMembers(s, t);
    assert t[0] in s;
    i :| 0 <= i < |s| && s[i] == t[0];
    RemoveAtMultiset(s, i);
    RemoveAtMultiset(t, 0);
    assert RemoveAt(t, 0) == t[1..];
  }

  /** A symmetric pairwise relation does not depend on the arrangement. */
  lemma {:induction false} PairwisePermutes<T(!new)>(s: seq<T>, t: seq<T>, r: (T, T) -> bool)
    requires multiset(s) == multiset(t) && Pairwise(s, r)
    ensures Pairwise(t, r)
  {
    if t != [] {
      var i := MatchFirst(s, t);
      RemoveAtPairwise(s, i, r);
      PairwisePermutes(RemoveAt(s, i), t[1..], r);
      PermutationMembers(RemoveAt(s, i), t[1..]);
      PairwiseCons(t[0], t[1..], r);
      assert t == [t[0]] + t[1..];
    }
  }

  lemma PairwiseCons<T(!new)>(x: T, s: seq<T>, r: (T, T) -> bool)
    requires Pairwise(s, r) && forall y :: y in s ==> r(x, y) && r(y, x)
    ensures Pairwise([x] + s, r)
  {
  }
}
