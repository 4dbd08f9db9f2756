/** Finding the windows of a document that contain a filter string. */
module DocumentSearch {
  import opened Basics
  import opened DocumentSpans

  predicate OccursAt(content: Bytes, sub: Bytes, p: nat) {
    p + |sub| <= |content| && content[p..p + |sub|] == sub
  }

  function Window(s: nat, e: nat, half: nat, n: nat, matched: Bytes): Span
    requires s <= e <= n
  {
    Span(if s < half then 0 else s - half, if e + half > n then n else e + half, matched)
  }

  /** The span is the window around an occurrence of its match. */
  ghost predicate AroundOccurrence(content: Bytes, half: nat, s: Span) {
    exists p: nat :: OccursAt(content, s.matched, p) && s == Window(p, p + |s.matched|, half, |content|, s.matched)
  }

  ghost predicate AllAround(content: Bytes, half: nat, ss: seq<Span>) {
    forall i :: 0 <= i < |ss| ==> AroundOccurrence(content, half, ss[i]) && WellFormed(ss[i], |content|)
  }

  /** Every occurrence of `sub` from a position on begins inside one of the spans. */
  ghost predicate Spotted(content: Bytes, sub: Bytes, ss: seq<Span>, from: nat) {
    forall p: nat :: p >= from && OccursAt(content, sub, p) ==> Covers(ss, p)
  }

  function NextOccurrence(content: Bytes, sub: Bytes, from: nat): Option<nat>
    decreases |content| - from
  {
    if from + |sub| > |content| then None
    else if content[from..from + |sub|] == sub then Some(from)
    else if from == |content| then None
    else NextOccurrence(content, sub, from + 1)
  }

  /** `found` is the leftmost occurrence from a position on, or there is none. */
  ghost predicate LeftmostFrom(content: Bytes, sub: Bytes, from: nat, found: Option<nat>) {
    match found
    case None => forall p: nat :: p >= from ==> !OccursAt(content, sub, p)
    case Some(s) =>
      from <= s && OccursAt(content, sub, s) && forall p: nat :: from <= p < s ==> !OccursAt(content, sub, p)
  }

  lemma {:induction false} NextOccurrenceIsFirst(content: Bytes, sub: Bytes, from: nat)
    ensures LeftmostFrom(content, sub, from, NextOccurrence(content, sub, from))
    decreases |content| - from
  {
    if from < |content| {
      NextOccurrenceIsFirst(content, sub, from + 1);
    }
  }

  /** The windows around the leftmost occurrences from a position on, each behind the last one. */
  ghost function SubstringWindows(content: Bytes, sub: Bytes, half: nat, from: nat): seq<Span>
    requires sub != []
    decreases |content| - from
  {
    NextOccurrenceIsFirst(content, sub, from);
    match NextOccurrence(content, sub, from)
    case None => []
    case Some(s) =>
      [Window(s, s + |sub|, half, |content|, sub)] + SubstringWindows(content, sub, half, s + |sub|)
  }

  /** The windows of the first k filter strings; empty ones are skipped. */
  ghost function AllSubstringWindows(content: Bytes, subs: seq<Bytes>, half: nat, k: nat): seq<Span>
    requires k <= |subs|
  {
    if k == 0 then []
    else AllSubstringWindows(content, subs, half, k - 1)
         + if subs[k - 1] == [] then [] else SubstringWindows(content, subs[k - 1], half, 0)
  }

  /** Searches from a position on, as `strings.Index` does. */
  method FirstOccurrence(content: Bytes, sub: Bytes, from: nat) returns (found: Option<nat>)
    requires from <= |content|
    ensures found == NextOccurrence(content, sub, from)
    ensures LeftmostFrom(content, sub, from, found)
  {
    NextOccurrenceIsFirst(content, sub, from);
    var i := from;
    while i + |sub| <= |content|
      invariant from <= i <= |content|
      invariant NextOccurrence(content, sub, from) == NextOccurrence(content, sub, i)
    {
      if content[i..i + |sub|] == sub {
        return Some(i);
      }
      if i == |content| {
        break;
      }
      i := i + 1;
    }
    return None;
  }

  lemma NextWindow(content: Bytes, sub: Bytes, half: nat, from: nat)
    requires sub != []
    ensures match NextOccurrence(content, sub, from)
            case None => SubstringWindows(content, sub, half, from) == []
            case Some(s) =>
              && from <= s && s + |sub| <= |content|
              && SubstringWindows(content, sub, half, from)
                 == [Window(s, s + |sub|, half, |content|, sub)] + SubstringWindows(content, sub, half, s + |sub|)
  {
    NextOccurrenceIsFirst(content, sub, from);
  }

  /** `at` are the occurrences a left-to-right search finds that goes on behind each one. */
  ghost predicate Greedy(content: Bytes, sub: Bytes, at: seq<nat>, from: nat)
    decreases |at|
  {
    if at == [] then LeftmostFrom(content, sub, from, None)
    else LeftmostFrom(content, sub, from, Some(at[0])) && Greedy(content, sub, at[1..], at[0] + |sub|)
  }

  /** A window reaches `half` bytes to either side, as far as the document goes. */
  ghost predicate WindowsAt(content: Bytes, sub: Bytes, half: nat, at: seq<nat>, ws: seq<Span>) {
    && |ws| == |at|
    && forall i :: 0 <= i < |at| ==>
         ws[i].start == Max(0, at[i] - half) && ws[i].end == Min(|content|, at[i] + |sub| + half) && ws[i].matched == sub
  }

  ghost predicate GreedyHunt(content: Bytes, sub: Bytes, half: nat, from: nat, ws: seq<Span>) {
    exists at :: Greedy(content, sub, at, from) && WindowsAt(content, sub, half, at, ws)
  }

  lemma {:induction false} WindowsAreGreedy(content: Bytes, sub: Bytes, half: nat, from: nat)
    requires sub != []
    ensures GreedyHunt(content, sub, half, from, SubstringWindows(content, sub, half, from))
    decreases |content| - from
  {
    NextOccurrenceIsFirst(content, sub, from);
    NextWindow(content, sub, half, from);
    match NextOccurrence(content, sub, from)
    case None =>
      assert Greedy(content, sub, [], from) && WindowsAt(content, sub, half, [], []);
    case Some(s) =>
      WindowsAreGreedy(content, sub, half, s + |sub|);
      GreedyCons(content, sub, half, from, s, SubstringWindows(content, sub, half, s + |sub|));
  }

  lemma GreedyCons(content: Bytes, sub: Bytes, half: nat, from: nat, s: nat, rest: seq<Span>)
    requires LeftmostFrom(content, sub, from, Some(s)) && GreedyHunt(content, sub, half, s + |sub|, rest)
    ensures GreedyHunt(content, sub, half, from, [Window(s, s + |sub|, half, |content|, sub)] + rest)
  {
    var at :| Greedy(content, sub, at, s + |sub|) && WindowsAt(content, sub, half, at, rest);
    var all := [s] + at;
    assert all[1..] == at;
    assert Greedy(content, sub, all, from);
    assert WindowsAt(content, sub, half, all, [Window(s, s + |sub|, half, |content|, sub)] + rest);
  }

  /** One search: the next window and where to go on, or nothing more. */
  method FindNext(content: Bytes, sub: Bytes, half: nat, from: nat, ghost raws: seq<Span>, ghost all: seq<Span>)
      returns (found: Option<Span>, next: nat)
    requires sub != [] && from <= |content| && FoundSoFar(content, sub, half, from, raws, all)
    ensures found.None? ==> raws == all
    ensures found.Some? ==> from < next <= |content| && FoundSoFar(content, sub, half, next, raws + [found.value], all)
  {
    FoundNext(content, sub, half, from, raws, all);
    var hit := FirstOccurrence(content, sub, from);
    if hit.None? {
      return None, from;
    }
    var s := hit.value;
    return Some(Window(s, s + |sub|, half, |content|, sub)), s + |sub|;
  }

  /** Windows around the leftmost occurrences, each search going on behind the last one. */
  method FindAll(content: Bytes, sub: Bytes, half: nat) returns (raws: seq<Span>)
    requires sub != []
    ensures raws == SubstringWindows(content, sub, half, 0) && GreedyHunt(content, sub, half, 0, raws)
  {
    WindowsAreGreedy(content, sub, half, 0);
    raws := [];
    var from := 0;
    ghost var all := SubstringWindows(content, sub, half, 0);
    assert [] + all == all;
    while from < |content|
      invariant from <= |content| && FoundSoFar(content, sub, half, from, raws, all)
      decreases |content| - from
    {
      var found, next := FindNext(content, sub, half, from, raws, all);
      if found.None? {
        return;
      }
      raws, from := raws + [found.value], next;
    }
    FoundNext(content, sub, half, from, raws, all);
  }

  /** What was found before `from` and what the rest holds make up all windows. */
  ghost predicate FoundSoFar(content: Bytes, sub: Bytes, half: nat, from: nat, raws: seq<Span>, all: seq<Span>)
    requires sub != []
  {
    raws + SubstringWindows(content, sub, half, from) == all
  }

  lemma FoundNext(content: Bytes, sub: Bytes, half: nat, from: nat, raws: seq<Span>, all: seq<Span>)
    requires sub != [] && FoundSoFar(content, sub, half, from, raws, all)
    ensures match NextOccurrence(content, sub, from)
            case None => raws == all
            case Some(s) =>
              && from <= s && s + |sub| <= |content|
              && FoundSoFar(content, sub, half, s + |sub|, raws + [Window(s, s + |sub|, half, |content|, sub)], all)
  {
    NextWindow(content, sub, half, from);
    match NextOccurrence(content, sub, from)
    case None =>
    case Some(s) =>
      PushFront(raws, Window(s, s + |sub|, half, |content|, sub), SubstringWindows(content, sub, half, s + |sub|));
  }

  lemma PushFront(front: seq<Span>, w: Span, rest: seq<Span>)
    ensures front + ([w] + rest) == (front + [w]) + rest
  {
  }

  /** Windows lie around true occurrences of `sub`, and every occurrence from a position on begins inside one. */
  ghost predicate Hunted(content: Bytes, sub: Bytes, half: nat, ws: seq<Span>, from: nat) {
    AllAround(content, half, ws) && Spotted(content, sub, ws, from) && MatchedIn([sub], ws)
  }

  /** The search misses no occurrence, overlapping ones included. */
  lemma {:induction false} SearchMissesNothing(content: Bytes, sub: Bytes, half: nat, from: nat)
    requires sub != []
    ensures Hunted(content, sub, half, SubstringWindows(content, sub, half, from), from)
    decreases |content| - from
  {
    NextWindow(content, sub, half, from);
    match NextOccurrence(content, sub, from)
    case None =>
      NothingToHunt(content, sub, half, from);
    case Some(s) =>
      SearchMissesNothing(content, sub, half, s + |sub|);
      HuntOneMore(content, sub, half, SubstringWindows(content, sub, half, s + |sub|), from, s);
  }

  lemma NothingToHunt(content: Bytes, sub: Bytes, half: nat, from: nat)
    requires NextOccurrence(content, sub, from) == None
    ensures Hunted(content, sub, half, [], from)
  {
    NextOccurrenceIsFirst(content, sub, from);
  }

  lemma HuntOneMore(content: Bytes, sub: Bytes, half: nat, rest: seq<Span>, from: nat, s: nat)
    requires NextOccurrence(content, sub, from) == Some(s) && s + |sub| <= |content|
    requires Hunted(content, sub, half, rest, s + |sub|)
    ensures Hunted(content, sub, half, [Window(s, s + |sub|, half, |content|, sub)] + rest, from)
  {
    NextOccurrenceIsFirst(content, sub, from);
    HuntedCons(content, sub, half, rest, from, s);
  }

  lemma HuntedCons(content: Bytes, sub: Bytes, half: nat, rest: seq<Span>, from: nat, s: nat)
    requires OccursAt(content, sub, s) && Hunted(content, sub, half, rest, s + |sub|)
    requires forall p: nat :: from <= p < s ==> !OccursAt(content, sub, p)
    ensures Hunted(content, sub, half, [Window(s, s + |sub|, half, |content|, sub)] + rest, from)
  {
    var w := Window(s, s + |sub|, half, |content|, sub);
    assert AroundOccurrence(content, half, w);
    SpottedCons(content, sub, w, rest, from, s);
  }

  lemma SpottedCons(content: Bytes, sub: Bytes, w: Span, rest: seq<Span>, from: nat, s: nat)
    requires Spotted(content, sub, rest, s + |sub|) && w.start <= s && w.end >= s + |sub|
    requires forall p: nat :: from <= p < s ==> !OccursAt(content, sub, p)
    ensures Spotted(content, sub, [w] + rest, from)
  {
    forall p: nat | p >= from && OccursAt(content, sub, p) ensures Covers([w] + rest, p) {
      if p < s + |sub| {
        assert Holds(([w] + rest)[0], p);
      } else {
        var i :| 0 <= i < |rest| && Holds(rest[i], p);
        assert Holds(([w] + rest)[i + 1], p);
      }
    }
  }

  lemma SpottedStays(content: Bytes, sub: Bytes, ss: seq<Span>, more: seq<Span>)
    ensures Spotted(content, sub, ss, 0) ==> Spotted(content, sub, ss + more, 0)
    ensures Spotted(content, sub, more, 0) ==> Spotted(content, sub, ss + more, 0)
  {
    forall p: nat | Covers(ss, p) ensures Covers(ss + more, p) {
      var i :| 0 <= i < |ss| && Holds(ss[i], p);
      assert Holds((ss + more)[i], p);
    }
    forall p: nat | Covers(more, p) ensures Covers(ss + more, p) {
      var i :| 0 <= i < |more| && Holds(more[i], p);
      assert Holds((ss + more)[|ss| + i], p);
    }
  }

  ghost predicate AllSpotted(content: Bytes, subs: seq<Bytes>, k: nat, ss: seq<Span>) {
    forall j :: 0 <= j < k && j < |subs| && subs[j] != [] ==> Spotted(content, subs[j], ss, 0)
  }

  predicate MatchedIn(subs: seq<Bytes>, ss: seq<Span>) {
    forall i :: 0 <= i < |ss| ==> ss[i].matched in subs
  }

  method FindSubstrings(content: Bytes, subs: seq<Bytes>, half: nat) returns (raws: seq<Span>)
    ensures raws == AllSubstringWindows(content, subs, half, |subs|)
  {
    raws := [];
    for k := 0 to |subs|
      invariant raws == AllSubstringWindows(content, subs, half, k)
    {
      if subs[k] == [] {
        assert raws + [] == raws;
        continue;
      }
      var more := FindAll(content, subs[k], half);
      raws := raws + more;
    }
  }

  /** The windows of the first k filter strings lie around their occurrences and miss none of them. */
  ghost predicate HuntedAll(content: Bytes, subs: seq<Bytes>, half: nat, ws: seq<Span>, k: nat) {
    AllAround(content, half, ws) && AllSpotted(content, subs, k, ws) && MatchedIn(subs, ws)
  }

  lemma HuntAnother(content: Bytes, subs: seq<Bytes>, half: nat, ws: seq<Span>, more: seq<Span>, k: nat)
    requires k < |subs| && HuntedAll(content, subs, half, ws, k) && Hunted(content, subs[k], half, more, 0)
    ensures HuntedAll(content, subs, half, ws + more, k + 1)
  {
    forall j | 0 <= j <= k && subs[j] != [] ensures Spotted(content, subs[j], ws + more, 0) {
      SpottedStays(content, subs[j], ws, more);
    }
  }

  lemma {:induction false} SearchesMissNothing(content: Bytes, subs: seq<Bytes>, half: nat, k: nat)
    requires k <= |subs|
    ensures HuntedAll(content, subs, half, AllSubstringWindows(content, subs, half, k), k)
  {
    if k > 0 {
      SearchesMissNothing(content, subs, half, k - 1);
      var ws := AllSubstringWindows(content, subs, half, k - 1);
      if subs[k - 1] == [] {
        assert ws + [] == ws;
      } else {
        SearchMissesNothing(content, subs[k - 1], half, 0);
        HuntAnother(content, subs, half, ws, SubstringWindows(content, subs[k - 1], half, 0), k - 1);
      }
    }
  }
}
