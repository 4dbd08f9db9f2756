/** Windows into a document and how overlapping or touching ones are merged. */
module DocumentSpans {
  import opened Basics
  import StableSort

  type Byte = x: int | 0 <= x < 256
  type Bytes = seq<Byte>

  /** The half-open range [start, end) around a match. */
  datatype Span = Span(start: nat, end: nat, matched: Bytes)

  predicate WellFormed(s: Span, n: nat) {
    s.start <= s.end <= n
  }

  predicate AllWellFormed(ss: seq<Span>, n: nat) {
    forall i :: 0 <= i < |ss| ==> WellFormed(ss[i], n)
  }

  /** The byte at p lies in the span. */
  predicate Holds(s: Span, p: int) {
    s.start <= p < s.end
  }

  /** The boundary before byte p lies in the span or at its edge. */
  predicate Reaches(s: Span, p: int) {
    s.start <= p <= s.end
  }

  predicate Covers(ss: seq<Span>, p: int) {
    exists i :: 0 <= i < |ss| && Holds(ss[i], p)
  }

  predicate Touched(ss: seq<Span>, p: int) {
    exists i :: 0 <= i < |ss| && Reaches(ss[i], p)
  }

  predicate ByStart(ss: seq<Span>) {
    forall i, j :: 0 <= i < j < |ss| ==> ss[i].start <= ss[j].start
  }

  /** In order, with a gap between any two. */
  predicate Apart(ss: seq<Span>) {
    forall i, j :: 0 <= i < j < |ss| ==> ss[i].end < ss[j].start
  }

  // ---- Sorting ----

  predicate StartsBefore(a: Span, b: Span) {
    a.start < b.start
  }

  /** Sorting by start offset; among equal starts any order is possible. */
  method SortByStart(raws: seq<Span>) returns (sorted: seq<Span>)
    ensures multiset(sorted) == multiset(raws) && ByStart(sorted)
  {
    sorted := StableSort.Sort(raws, StartsBefore);
    StableSort.SortPermutes(raws, StartsBefore);
    StableSort.SortOrders(raws, StartsBefore);
  }

  // ---- Merging ----

  /** One more span, in start order, into the merged ones. */
  function Absorb(out: seq<Span>, s: Span): seq<Span>
    requires out != []
  {
    var n := |out| - 1;
    if s.start <= out[n].end
    then out[..n] + [out[n].(end := if s.end > out[n].end then s.end else out[n].end)]
    else out + [s]
  }

  lemma CoversAppend(ss: seq<Span>, s: Span, p: int)
    ensures Covers(ss + [s], p) <==> Covers(ss, p) || Holds(s, p)
    ensures Touched(ss + [s], p) <==> Touched(ss, p) || Reaches(s, p)
  {
    assert (ss + [s])[|ss|] == s;
    if Covers(ss, p) {
      var i :| 0 <= i < |ss| && Holds(ss[i], p);
      assert Holds((ss + [s])[i], p);
    }
    if Touched(ss, p) {
      var i :| 0 <= i < |ss| && Reaches(ss[i], p);
      assert Reaches((ss + [s])[i], p);
    }
  }

  lemma AbsorbCovers(out: seq<Span>, s: Span, p: int)
    requires out != [] && out[|out| - 1].start <= s.start <= s.end && out[|out| - 1].start <= out[|out| - 1].end
    ensures Covers(Absorb(out, s), p) <==> Covers(out, p) || Holds(s, p)
    ensures Touched(Absorb(out, s), p) <==> Touched(out, p) || Reaches(s, p)
  {
    var n := |out| - 1;
    assert out == out[..n] + [out[n]];
    CoversAppend(out[..n], out[n], p);
    CoversAppend(out[..n], out[n].(end := if s.end > out[n].end then s.end else out[n].end), p);
    CoversAppend(out, s, p);
  }

  /** Same bytes and same boundaries. */
  ghost predicate SameCover(a: seq<Span>, b: seq<Span>) {
    forall p :: (Covers(a, p) <==> Covers(b, p)) && (Touched(a, p) <==> Touched(b, p))
  }

  /** Each merged span starts where one of the given spans does and keeps that one's match. */
  ghost predicate Rooted(out: seq<Span>, raws: seq<Span>) {
    forall i :: 0 <= i < |out| ==> HasRoot(out[i], raws)
  }

  ghost predicate HasRoot(s: Span, raws: seq<Span>) {
    exists r :: r in raws && r.start == s.start && r.matched == s.matched
  }

  /** `out` is in order, has gaps between spans and covers exactly what `raws` does. */
  ghost predicate Merges(out: seq<Span>, raws: seq<Span>, n: nat) {
    AllWellFormed(out, n) && Apart(out) && SameCover(out, raws) && Rooted(out, raws)
  }

  lemma AbsorbKeepsShape(out: seq<Span>, s: Span, n: nat)
    requires out != [] && AllWellFormed(out, n) && Apart(out) && WellFormed(s, n) && out[|out| - 1].start <= s.start
    ensures AllWellFormed(Absorb(out, s), n) && Apart(Absorb(out, s)) && Absorb(out, s) != []
    ensures Absorb(out, s)[|Absorb(out, s)| - 1].start <= s.start
  {
  }

  lemma AbsorbKeepsCover(out: seq<Span>, raws: seq<Span>, s: Span)
    requires out != [] && out[|out| - 1].start <= s.start <= s.end && out[|out| - 1].start <= out[|out| - 1].end
    requires SameCover(out, raws)
    ensures SameCover(Absorb(out, s), raws + [s])
  {
    forall p
      ensures Covers(Absorb(out, s), p) <==> Covers(raws + [s], p)
      ensures Touched(Absorb(out, s), p) <==> Touched(raws + [s], p)
    {
      AbsorbCovers(out, s, p);
      CoversAppend(raws, s, p);
      assert (Covers(out, p) <==> Covers(raws, p)) && (Touched(out, p) <==> Touched(raws, p));
    }
  }

  lemma AbsorbKeepsRoots(out: seq<Span>, raws: seq<Span>, s: Span)
    requires out != [] && Rooted(out, raws)
    ensures Rooted(Absorb(out, s), raws + [s])
  {
    var out' := Absorb(out, s);
    forall i | 0 <= i < |out'| ensures HasRoot(out'[i], raws + [s]) {
      if i < |out| {
        assert HasRoot(out[i], raws);
        var r :| r in raws && r.start == out[i].start && r.matched == out[i].matched;
        assert r in raws + [s];
      } else {
        assert s in raws + [s];
      }
    }
  }

  lemma SameMembersSameCover(a: seq<Span>, b: seq<Span>)
    requires multiset(a) == multiset(b)
    ensures SameCover(a, b) && (forall n :: AllWellFormed(a, n) ==> AllWellFormed(b, n))
    ensures forall out :: Rooted(out, b) ==> Rooted(out, a)
  {
    PermutationMembers(a, b);
    forall p ensures (Covers(a, p) <==> Covers(b, p)) && (Touched(a, p) <==> Touched(b, p)) {
      HalfCover(a, b, p);
      HalfCover(b, a, p);
    }
    forall out | Rooted(out, b) ensures Rooted(out, a) {
      forall i | 0 <= i < |out| ensures HasRoot(out[i], a) {
        assert HasRoot(out[i], b);
      }
    }
    forall n | AllWellFormed(a, n) ensures AllWellFormed(b, n) {
      forall i | 0 <= i < |b| ensures WellFormed(b[i], n) {
        assert b[i] in a;
      }
    }
  }

  lemma HalfCover(a: seq<Span>, b: seq<Span>, p: int)
    requires forall x :: x in a ==> x in b
    ensures Covers(a, p) ==> Covers(b, p)
    ensures Touched(a, p) ==> Touched(b, p)
  {
    if Covers(a, p) {
      var i :| 0 <= i < |a| && Holds(a[i], p);
      assert a[i] in b;
    }
    if Touched(a, p) {
      var i :| 0 <= i < |a| && Reaches(a[i], p);
      assert a[i] in b;
    }
  }

  lemma AbsorbMerges(out: seq<Span>, raws: seq<Span>, s: Span, n: nat)
    requires out != [] && Merges(out, raws, n) && WellFormed(s, n) && out[|out| - 1].start <= s.start
    ensures Merges(Absorb(out, s), raws + [s], n)
    ensures Absorb(out, s) != [] && Absorb(out, s)[|Absorb(out, s)| - 1].start <= s.start
  {
    AbsorbKeepsShape(out, s, n);
    AbsorbKeepsCover(out, raws, s);
    AbsorbKeepsRoots(out, raws, s);
  }

  lemma OneMerges(s: Span, n: nat)
    requires WellFormed(s, n)
    ensures Merges([s], [s], n)
  {
    assert HasRoot([s][0], [s]);
  }

  method MergeSorted(sorted: seq<Span>, ghost n: nat) returns (out: seq<Span>)
    requires sorted != [] && AllWellFormed(sorted, n) && ByStart(sorted)
    ensures out != [] && Merges(out, sorted, n)
  {
    out := [sorted[0]];
    OneMerges(sorted[0], n);
    assert sorted[..1] == [sorted[0]];
    for k := 1 to |sorted|
      invariant out != [] && out[|out| - 1].start <= sorted[k - 1].start
      invariant Merges(out, sorted[..k], n)
    {
      var s := sorted[k];
      assert sorted[..k + 1] == sorted[..k] + [s];
      AbsorbMerges(out, sorted[..k], s, n);
      ghost var absorbed := Absorb(out, s);
      var last := |out| - 1;
      if s.start <= out[last].end {
        if s.end > out[last].end {
          out := out[..last] + [out[last].(end := s.end)];
        }
      } else {
        out := out + [s];
      }
      assert out == absorbed;
    }
    assert sorted[..|sorted|] == sorted;
  }

  lemma MergesPermuted(out: seq<Span>, sorted: seq<Span>, raws: seq<Span>, n: nat)
    requires Merges(out, sorted, n) && multiset(sorted) == multiset(raws)
    ensures Merges(out, raws, n)
  {
    SameMembersSameCover(raws, sorted);
    forall p ensures (Covers(out, p) <==> Covers(raws, p)) && (Touched(out, p) <==> Touched(raws, p)) {
      assert (Covers(out, p) <==> Covers(sorted, p)) && (Touched(out, p) <==> Touched(sorted, p));
      assert (Covers(raws, p) <==> Covers(sorted, p)) && (Touched(raws, p) <==> Touched(sorted, p));
    }
  }

  /** Whatever the order of the input, the result is in order, has gaps between spans and covers the same bytes. */
  method MergeSpans(raws: seq<Span>, ghost n: nat) returns (out: seq<Span>)
    requires AllWellFormed(raws, n)
    ensures Merges(out, raws, n) && (out == [] <==> raws == [])
  {
    if |raws| == 0 {
      return [];
    }
    var sorted := SortByStart(raws);
    SameMembersSameCover(raws, sorted);
    PermutationMembers(raws, sorted);
    out := MergeSorted(sorted, n);
    MergesPermuted(out, sorted, raws, n);
  }

  // ---- The result does not depend on the order ----

  predicate SameRanges(a: seq<Span>, b: seq<Span>) {
    |a| == |b| && forall i :: 0 <= i < |a| ==> a[i].start == b[i].start && a[i].end == b[i].end
  }

  /** Covering the same bytes and boundaries, the first spans of two merged lists begin alike. */
  lemma FirstStart(a: seq<Span>, b: seq<Span>, n: nat)
    requires a != [] && b != [] && AllWellFormed(a, n) && AllWellFormed(b, n) && Apart(a) && Apart(b) && SameCover(a, b)
    ensures b[0].start <= a[0].start
  {
    FirstTouched(a, n);
    assert Touched(b, a[0].start);
    var j :| 0 <= j < |b| && Reaches(b[j], a[0].start);
    assert j > 0 ==> b[0].end < b[j].start;
  }

  lemma EndUncovered(a: seq<Span>, n: nat)
    requires a != [] && AllWellFormed(a, n) && Apart(a)
    ensures !Covers(a, a[0].end)
  {
    forall i | 0 <= i < |a| ensures !Holds(a[i], a[0].end) {
    }
  }

  lemma FirstEnd(a: seq<Span>, b: seq<Span>, n: nat)
    requires a != [] && b != [] && AllWellFormed(a, n) && AllWellFormed(b, n) && Apart(a) && Apart(b) && SameCover(a, b)
    requires a[0].start == b[0].start
    ensures a[0].end >= b[0].end
  {
    EndUncovered(a, n);
    assert !Covers(b, a[0].end);
    assert !Holds(b[0], a[0].end);
  }

  lemma RestCovers(a: seq<Span>, n: nat, p: int)
    requires a != [] && AllWellFormed(a, n) && Apart(a)
    ensures Covers(a[1..], p) <==> Covers(a, p) && p > a[0].end
    ensures Touched(a[1..], p) <==> Touched(a, p) && p > a[0].end
  {
    if Covers(a[1..], p) {
      var i :| 0 <= i < |a| - 1 && Holds(a[1..][i], p);
      assert Holds(a[i + 1], p) && a[0].end < a[i + 1].start;
    }
    if Covers(a, p) && p > a[0].end {
      var i :| 0 <= i < |a| && Holds(a[i], p);
      assert Holds(a[1..][i - 1], p);
    }
    if Touched(a[1..], p) {
      var i :| 0 <= i < |a| - 1 && Reaches(a[1..][i], p);
      assert Reaches(a[i + 1], p) && a[0].end < a[i + 1].start;
    }
    if Touched(a, p) && p > a[0].end {
      var i :| 0 <= i < |a| && Reaches(a[i], p);
      assert Reaches(a[1..][i - 1], p);
    }
  }

  lemma RestSameCover(a: seq<Span>, b: seq<Span>, n: nat)
    requires a != [] && b != [] && AllWellFormed(a, n) && AllWellFormed(b, n) && Apart(a) && Apart(b) && SameCover(a, b)
    requires a[0].end == b[0].end
    ensures SameCover(a[1..], b[1..])
  {
    forall p ensures (Covers(a[1..], p) <==> Covers(b[1..], p)) && (Touched(a[1..], p) <==> Touched(b[1..], p)) {
      RestCovers(a, n, p);
      RestCovers(b, n, p);
      assert (Covers(a, p) <==> Covers(b, p)) && (Touched(a, p) <==> Touched(b, p));
    }
  }

  lemma FirstTouched(a: seq<Span>, n: nat)
    requires a != [] && AllWellFormed(a, n)
    ensures Touched(a, a[0].start)
  {
    assert Reaches(a[0], a[0].start);
  }

  lemma SameEmptiness(a: seq<Span>, b: seq<Span>, n: nat)
    requires AllWellFormed(a, n) && AllWellFormed(b, n) && SameCover(a, b)
    ensures a == [] <==> b == []
  {
    if a != [] {
      FirstTouched(a, n);
    }
    if b != [] {
      FirstTouched(b, n);
    }
  }

  lemma {:induction false} CoverDetermines(a: seq<Span>, b: seq<Span>, n: nat)
    requires AllWellFormed(a, n) && AllWellFormed(b, n) && Apart(a) && Apart(b) && SameCover(a, b)
    ensures SameRanges(a, b)
    decreases |a|
  {
    SameEmptiness(a, b, n);
    if a != [] {
      FirstStart(a, b, n);
      FirstStart(b, a, n);
      FirstEnd(a, b, n);
      FirstEnd(b, a, n);
      RestSameCover(a, b, n);
      CoverDetermines(a[1..], b[1..], n);
      assert a == [a[0]] + a[1..] && b == [b[0]] + b[1..];
    }
  }

  /** Merging any reordering of the same spans gives the same ranges. */
  lemma MergeOrderIndependent(a: seq<Span>, b: seq<Span>, raws: seq<Span>, raws': seq<Span>, n: nat)
    requires Merges(a, raws, n) && Merges(b, raws', n) && multiset(raws) == multiset(raws')
    ensures SameRanges(a, b)
  {
    MergesPermuted(b, raws', raws, n);
    forall p ensures (Covers(a, p) <==> Covers(b, p)) && (Touched(a, p) <==> Touched(b, p)) {
      assert (Covers(a, p) <==> Covers(raws, p)) && (Touched(a, p) <==> Touched(raws, p));
      assert (Covers(b, p) <==> Covers(raws, p)) && (Touched(b, p) <==> Touched(raws, p));
    }
    CoverDetermines(a, b, n);
  }
}
