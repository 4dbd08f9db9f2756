/**
 * Sentence splitting: the text is cut after each run of white space that follows a
 * sentence terminator, with abbreviation dots masked while the cuts are made.
 */
module Sentences {
  import opened Basics
  import Text

  const MASK: char := 0 as char

  /** Go's \s. */
  predicate RegexSpace(c: char) {
    c == ' ' || c == '\t' || c == '\n' || c == '\r' || c == 12 as char
  }

  predicate Terminator(c: char) {
    c == '.' || c == '!' || c == '?'
  }

  /** Masking turns some dots into NUL and changes nothing else. */
  ghost predicate Masks(text: string, masked: string) {
    |masked| == |text| && forall i :: 0 <= i < |text| ==> masked[i] == text[i] || (text[i] == '.' && masked[i] == MASK)
  }

  function Restore(s: string): string {
    if s == "" then "" else [if s[0] == MASK then '.' else s[0]] + Restore(s[1..])
  }

  lemma {:induction false} RestoreUndoesMask(text: string, masked: string)
    requires Masks(text, masked) && forall i :: 0 <= i < |text| ==> text[i] != MASK
    ensures Restore(masked) == text
  {
    if text != "" {
      assert text == [text[0]] + text[1..];
      RestoreUndoesMask(text[1..], masked[1..]);
    }
  }

  // ---- The cuts ----

  function SkipSpaces(s: string, i: nat): (j: nat)
    requires i <= |s|
    ensures i <= j <= |s|
    decreases |s| - i
  {
    if i < |s| && RegexSpace(s[i]) then SkipSpaces(s, i + 1) else i
  }

  /** The end of the first terminator-and-space match at or after i. */
  function NextCut(s: string, i: nat): (j: Option<nat>)
    ensures j.Some? ==> i < j.value <= |s|
    decreases |s| - i
  {
    if i + 1 >= |s| then None
    else if Terminator(s[i]) && RegexSpace(s[i + 1]) then Some(SkipSpaces(s, i + 1))
    else NextCut(s, i + 1)
  }

  function Kept(part: string): seq<string> {
    if part == "" then [] else [part]
  }

  lemma KeptNext(parts: seq<string>, part: string, rest: seq<string>)
    ensures parts + (Kept(part) + rest) == (if part == "" then parts else parts + [part]) + rest
  {
  }

  function Parts(s: string, start: nat): seq<string>
    requires start <= |s|
    decreases |s| - start
  {
    match NextCut(s, start)
    case None => Kept(Restore(Text.TrimSpace(s[start..])))
    case Some(j) => Kept(Restore(Text.TrimSpace(s[start..j]))) + Parts(s, j)
  }

  predicate NoneEmpty(parts: seq<string>) {
    forall i :: 0 <= i < |parts| ==> parts[i] != ""
  }

  /** Splitting leaves no empty sentence. */
  lemma {:induction false} PartsNotEmpty(s: string, start: nat)
    requires start <= |s|
    ensures NoneEmpty(Parts(s, start))
    decreases |s| - start
  {
    match NextCut(s, start)
    case None =>
    case Some(j) => PartsNotEmpty(s, j);
  }

  // ---- Where the cuts are ----

  /** White space fills s from i to j and ends there. */
  predicate SpaceRun(s: string, i: nat, j: nat) {
    && i < j <= |s| && (forall k :: i <= k < j ==> RegexSpace(s[k]))
    && (j == |s| || !RegexSpace(s[j]))
  }

  predicate EndsSentence(s: string, t: nat, j: nat) {
    t < |s| && Terminator(s[t]) && SpaceRun(s, t + 1, j)
  }

  /** j ends a run of white space that stands right behind a terminator at or after `from`. */
  ghost predicate BoundaryFrom(s: string, from: nat, j: nat) {
    exists t: nat :: from <= t && EndsSentence(s, t, j)
  }

  ghost predicate Boundary(s: string, j: nat) {
    BoundaryFrom(s, 0, j)
  }

  lemma {:induction false} SkipSpacesEnds(s: string, i: nat)
    requires i <= |s|
    ensures forall k :: i <= k < SkipSpaces(s, i) ==> RegexSpace(s[k])
    ensures SkipSpaces(s, i) == |s| || !RegexSpace(s[SkipSpaces(s, i)])
    decreases |s| - i
  {
    if i < |s| && RegexSpace(s[i]) {
      SkipSpacesEnds(s, i + 1);
    }
  }

  /** A run of white space has one end. */
  lemma RunEndsOnce(s: string, i: nat, j: nat, k: nat)
    requires SpaceRun(s, i, j) && SpaceRun(s, i, k)
    ensures j == k
  {
  }

  /** The next cut is the next boundary. */
  lemma {:induction false} NextCutIsBoundary(s: string, i: nat)
    ensures match NextCut(s, i)
            case None => forall j: nat :: !BoundaryFrom(s, i, j)
            case Some(c) => BoundaryFrom(s, i, c) && forall j: nat :: j < c ==> !BoundaryFrom(s, i, j)
    decreases |s| - i
  {
    if i + 1 < |s| {
      if Terminator(s[i]) && RegexSpace(s[i + 1]) {
        var c := SkipSpaces(s, i + 1);
        SkipSpacesEnds(s, i + 1);
        assert EndsSentence(s, i, c);
        forall j: nat | BoundaryFrom(s, i, j) ensures c <= j {
          CutComesFirst(s, i, c, j);
        }
      } else {
        NextCutIsBoundary(s, i + 1);
        forall j: nat ensures BoundaryFrom(s, i, j) <==> BoundaryFrom(s, i + 1, j) {
          BoundaryLater(s, i, j);
        }
      }
    }
  }

  lemma CutComesFirst(s: string, i: nat, c: nat, j: nat)
    requires EndsSentence(s, i, c) && BoundaryFrom(s, i, j)
    ensures c <= j
  {
    var t: nat :| i <= t && EndsSentence(s, t, j);
    if t == i {
      RunEndsOnce(s, i + 1, c, j);
    }
  }

  lemma BoundaryLater(s: string, i: nat, j: nat)
    requires i + 1 < |s| && !(Terminator(s[i]) && RegexSpace(s[i + 1]))
    ensures BoundaryFrom(s, i, j) <==> BoundaryFrom(s, i + 1, j)
  {
    if BoundaryFrom(s, i, j) {
      var t: nat :| i <= t && EndsSentence(s, t, j);
      assert t != i;
    }
  }

  /** Behind a boundary the boundaries are those of later terminators. */
  lemma BeyondBoundary(s: string, i: nat, j: nat)
    requires i == 0 || Boundary(s, i)
    ensures i < j && Boundary(s, j) <==> BoundaryFrom(s, i, j)
  {
    if i < j && Boundary(s, j) {
      var t: nat :| 0 <= t && EndsSentence(s, t, j);
    }
  }

  /** All boundaries of s behind `start`, in order. */
  ghost predicate AreBoundaries(s: string, start: nat, cuts: seq<nat>) {
    && (forall i :: 0 <= i < |cuts| ==> start < cuts[i] <= |s|)
    && (forall i, j :: 0 <= i < j < |cuts| ==> cuts[i] < cuts[j])
    && (forall j: nat :: start < j && Boundary(s, j) <==> j in cuts)
  }

  /** The pieces of s from `start` on, cut at `cuts`, trimmed, restored and without the empty ones. */
  function Pieces(s: string, start: nat, cuts: seq<nat>): seq<string>
    requires start <= |s| && forall i :: 0 <= i < |cuts| ==> cuts[i] <= |s|
    requires forall i :: 0 <= i < |cuts| ==> start < cuts[i]
    requires forall i, j :: 0 <= i < j < |cuts| ==> cuts[i] < cuts[j]
    decreases |cuts|
  {
    if cuts == [] then Kept(Restore(Text.TrimSpace(s[start..])))
    else Kept(Restore(Text.TrimSpace(s[start..cuts[0]]))) + Pieces(s, cuts[0], cuts[1..])
  }

  /** `parts` are the pieces of s between its boundaries. */
  ghost predicate CutAtBoundaries(s: string, parts: seq<string>) {
    exists cuts :: AreBoundaries(s, 0, cuts) && parts == Pieces(s, 0, cuts)
  }

  ghost predicate CutBehind(s: string, start: nat, cuts: seq<nat>) {
    start <= |s| && AreBoundaries(s, start, cuts) && Parts(s, start) == Pieces(s, start, cuts)
  }

  lemma {:induction false} PartsBehind(s: string, start: nat) returns (cuts: seq<nat>)
    requires start <= |s| && (start == 0 || Boundary(s, start))
    ensures CutBehind(s, start, cuts)
    decreases |s| - start
  {
    NextCutIsBoundary(s, start);
    forall j: nat ensures start < j && Boundary(s, j) <==> BoundaryFrom(s, start, j) {
      BeyondBoundary(s, start, j);
    }
    match NextCut(s, start)
    case None =>
      cuts := [];
    case Some(c) =>
      var rest := PartsBehind(s, c);
      cuts := [c] + rest;
      BoundariesCons(s, start, c, rest);
      assert cuts[1..] == rest;
  }

  lemma BoundariesCons(s: string, start: nat, c: nat, rest: seq<nat>)
    requires start < c <= |s| && Boundary(s, c) && AreBoundaries(s, c, rest)
    requires forall j: nat :: start < j < c ==> !Boundary(s, j)
    ensures AreBoundaries(s, start, [c] + rest)
  {
  }

  /** The sentences are the pieces between the ends of terminator-and-space runs. */
  lemma PartsCutAtBoundaries(s: string)
    ensures CutAtBoundaries(s, Parts(s, 0))
  {
    var cuts := PartsBehind(s, 0);
  }

  /** Consecutive boundaries, or the beginning and the first one. */
  ghost predicate Consecutive(s: string, start: nat, c: nat) {
    && (start == 0 || Boundary(s, start)) && start < c && Boundary(s, c)
    && forall j: nat :: start < j < c ==> !Boundary(s, j)
  }

  /** Inside a piece no terminator is followed by white space. */
  ghost predicate Uncut(s: string, start: nat, t: nat) {
    forall i :: start <= i < t && i + 1 < |s| ==> !(Terminator(s[i]) && RegexSpace(s[i + 1]))
  }

  lemma BoundaryBehind(s: string, i: nat) returns (j: nat)
    requires i + 1 < |s| && Terminator(s[i]) && RegexSpace(s[i + 1])
    ensures i + 1 < j && SpaceRun(s, i + 1, j) && Boundary(s, j)
  {
    j := SkipSpaces(s, i + 1);
    SkipSpacesEnds(s, i + 1);
    assert EndsSentence(s, i, j);
  }

  lemma UncutBefore(s: string, start: nat, t: nat, c: nat)
    requires t < c && EndsSentence(s, t, c) && forall j: nat :: start < j < c ==> !Boundary(s, j)
    ensures Uncut(s, start, t)
  {
    forall i | start <= i < t && i + 1 < |s| ensures !(Terminator(s[i]) && RegexSpace(s[i + 1])) {
      if Terminator(s[i]) && RegexSpace(s[i + 1]) {
        var j := BoundaryBehind(s, i);
      }
    }
  }

  /** A sentence ended by a boundary ends in the terminator before it, and has no other cut inside. */
  lemma SentenceEndsInTerminator(s: string, start: nat, c: nat) returns (t: nat)
    requires Consecutive(s, start, c)
    ensures start <= t && EndsSentence(s, t, c) && Uncut(s, start, t)
    ensures c <= |s| && Text.TrimSpace(s[start..c]) != "" && Last(Text.TrimSpace(s[start..c])) == s[t]
  {
    BeyondBoundary(s, start, c);
    t :| start <= t && EndsSentence(s, t, c);
    UncutBefore(s, start, t, c);
    var piece := s[start..c];
    Text.TrimEndsAt(piece, t - start);
  }

  function Last(s: string): char
    requires s != ""
  {
    s[|s| - 1]
  }

  /** The last sentence, behind all boundaries, has no cut inside at all. */
  lemma LastSentenceUncut(s: string, start: nat)
    requires forall j: nat :: start < j ==> !Boundary(s, j)
    ensures Uncut(s, start, |s|)
  {
    forall i | start <= i < |s| && i + 1 < |s| ensures !(Terminator(s[i]) && RegexSpace(s[i + 1])) {
      if Terminator(s[i]) && RegexSpace(s[i + 1]) {
        var j := BoundaryBehind(s, i);
      }
    }
  }

  /** `masked` is the trimmed text with its abbreviation dots masked. */
  method SplitSentences(text: string, masked: string) returns (parts: seq<string>)
    ensures parts == if Text.TrimSpace(text) == "" then [] else Parts(masked, 0)
    ensures Text.TrimSpace(text) != "" ==> CutAtBoundaries(masked, parts)
  {
    PartsCutAtBoundaries(masked);
    if Text.TrimSpace(text) == "" {
      return [];
    }
    parts := [];
    var prev := 0;
    var cut := NextCut(masked, 0);
    while cut.Some?
      invariant prev <= |masked| && cut == NextCut(masked, prev)
      invariant parts + Parts(masked, prev) == Parts(masked, 0)
      decreases |masked| - prev
    {
      var part := Restore(Text.TrimSpace(masked[prev..cut.value]));
      KeptNext(parts, part, Parts(masked, cut.value));
      if part != "" {
        parts := parts + [part];
      }
      prev := cut.value;
      cut := NextCut(masked, prev);
    }
    var tail := Restore(Text.TrimSpace(masked[prev..]));
    KeptNext(parts, tail, []);
    if tail != "" {
      parts := parts + [tail];
    }
  }

  // ---- Nothing but white space is lost ----

  /** The text without its white space. */
  function Condense(s: string): string {
    if s == "" then "" else (if Text.IsSpace(s[0]) then "" else [s[0]]) + Condense(s[1..])
  }

  function Concat(parts: seq<string>): string {
    if parts == [] then "" else parts[0] + Concat(parts[1..])
  }

  lemma {:induction false} CondenseAppend(s: string, t: string)
    ensures Condense(s + t) == Condense(s) + Condense(t)
  {
    if s == "" {
      assert s + t == t;
    } else {
      assert (s + t)[1..] == s[1..] + t;
      CondenseAppend(s[1..], t);
    }
  }

  lemma {:induction false} CondenseTrimLeft(s: string)
    ensures Condense(Text.TrimLeft(s)) == Condense(s)
  {
    if s != "" && Text.IsSpace(s[0]) {
      CondenseTrimLeft(s[1..]);
    }
  }

  lemma {:induction false} CondenseTrimRight(s: string)
    ensures Condense(Text.TrimRight(s)) == Condense(s)
  {
    if s != "" && Text.IsSpace(s[|s| - 1]) {
      var front, last := s[..|s| - 1], s[|s| - 1];
      CondenseTrimRight(front);
      assert s == front + [last];
      CondenseAppend(front, [last]);
      assert [last][1..] == "";
    }
  }

  lemma CondenseTrim(s: string)
    ensures Condense(Text.TrimSpace(s)) == Condense(s)
  {
    CondenseTrimLeft(s);
    CondenseTrimRight(Text.TrimLeft(s));
  }

  lemma {:induction false} RestoreAppend(s: string, t: string)
    ensures Restore(s + t) == Restore(s) + Restore(t)
  {
    if s == "" {
      assert s + t == t;
    } else {
      assert (s + t)[1..] == s[1..] + t;
      RestoreAppend(s[1..], t);
    }
  }

  lemma {:induction false} RestoreCondense(s: string)
    ensures Condense(Restore(s)) == Restore(Condense(s))
  {
    if s != "" {
      RestoreCondense(s[1..]);
      var c := if s[0] == MASK then '.' else s[0];
      assert Restore(s)[1..] == Restore(s[1..]);
      assert Condense(Restore(s)) == (if Text.IsSpace(c) then "" else [c]) + Condense(Restore(s[1..]));
      if Text.IsSpace(s[0]) {
        assert Condense(s) == Condense(s[1..]);
      } else {
        assert ([s[0]] + Condense(s[1..]))[1..] == Condense(s[1..]);
      }
    }
  }

  lemma KeptCondensed(part: string, rest: seq<string>)
    ensures Condense(Concat(Kept(part) + rest)) == Condense(part) + Condense(Concat(rest))
  {
    if part == "" {
      assert Kept(part) + rest == rest;
    } else {
      assert (Kept(part) + rest)[1..] == rest;
      CondenseAppend(part, Concat(rest));
    }
  }

  lemma PieceCondensed(piece: string)
    ensures Condense(Restore(Text.TrimSpace(piece))) == Restore(Condense(piece))
  {
    RestoreCondense(Text.TrimSpace(piece));
    CondenseTrim(piece);
  }

  lemma {:induction false} PartsCondensed(s: string, start: nat)
    requires start <= |s|
    ensures Condense(Concat(Parts(s, start))) == Restore(Condense(s[start..]))
    decreases |s| - start
  {
    match NextCut(s, start)
    case None =>
      PieceCondensed(s[start..]);
      var part := Restore(Text.TrimSpace(s[start..]));
      KeptCondensed(part, []);
      assert Kept(part) + [] == Kept(part);
    case Some(j) =>
      PartsCondensed(s, j);
      PieceCondensed(s[start..j]);
      KeptCondensed(Restore(Text.TrimSpace(s[start..j])), Parts(s, j));
      assert s[start..] == s[start..j] + s[j..];
      CondenseAppend(s[start..j], s[j..]);
      RestoreAppend(Condense(s[start..j]), Condense(s[j..]));
  }

  /**
   * Splitting loses nothing but white space: for text without NUL and any masking of its
   * dots, the sentences put together have exactly the text's other characters in order.
   */
  lemma SplitKeepsText(text: string, masked: string)
    requires Masks(Text.TrimSpace(text), masked)
    requires forall i :: 0 <= i < |Text.TrimSpace(text)| ==> Text.TrimSpace(text)[i] != MASK
    ensures Condense(Concat(Parts(masked, 0))) == Condense(text)
  {
    PartsCondensed(masked, 0);
    assert masked[0..] == masked;
    RestoreCondense(masked);
    RestoreUndoesMask(Text.TrimSpace(text), masked);
    CondenseTrim(text);
  }
}
