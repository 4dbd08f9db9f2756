/** Querying a document: windows around matches, merged and cut to a token budget. */
module DocumentQuery {
  import opened Basics
  import opened DocumentBudget
  import opened DocumentSearch
  import opened DocumentSpans

  const DEFAULT_WINDOW := 4000
  const DEFAULT_BUDGET := 6000
  const CHARS_PER_TOKEN := 4

  /**
   * How windows are chosen. For a regular expression `matches` are the byte ranges its engine
   * reports, or nothing when it does not compile.
   */
  datatype Filter =
    | ByRegex(tooLong: bool, matches: Option<seq<(nat, nat)>>)
    | BySubstrings(subs: seq<Bytes>)
    | NoFilter

  datatype Answer = Rejected | NoContent | NoMatches | Found(spans: seq<Excerpt>, truncated: bool)

  // ---- The query ----

  predicate Contains(es: seq<Excerpt>, p: nat) {
    exists i :: 0 <= i < |es| && es[i].offset <= p < es[i].offset + |es[i].text|
  }

  lemma FullContains(content: Bytes, merged: seq<Span>, spans: seq<Excerpt>, p: nat)
    requires AllWellFormed(merged, |content|) && |spans| == |merged| && FullUpTo(content, merged, spans, |merged|)
    requires Covers(merged, p)
    ensures Contains(spans, p)
  {
    var i :| 0 <= i < |merged| && Holds(merged[i], p);
    assert spans[i] == Full(content, merged[i]);
  }

  predicate MatchesWithin(matches: seq<(nat, nat)>, n: nat) {
    forall i :: 0 <= i < |matches| ==> matches[i].0 <= matches[i].1 <= n
  }

  ghost function RegexWindows(content: Bytes, matches: seq<(nat, nat)>, half: nat, k: nat): seq<Span>
    requires MatchesWithin(matches, |content|) && k <= |matches|
  {
    if k == 0 then []
    else RegexWindows(content, matches, half, k - 1)
         + [Window(matches[k - 1].0, matches[k - 1].1, half, |content|, content[matches[k - 1].0..matches[k - 1].1])]
  }

  method FindRegex(content: Bytes, matches: seq<(nat, nat)>, half: nat) returns (raws: seq<Span>)
    requires MatchesWithin(matches, |content|)
    ensures AllWellFormed(raws, |content|) && raws == RegexWindows(content, matches, half, |matches|)
    ensures |raws| == |matches|
    ensures forall i :: 0 <= i < |raws| ==>
              raws[i] == Window(matches[i].0, matches[i].1, half, |content|, content[matches[i].0..matches[i].1])
  {
    raws := [];
    for k := 0 to |matches|
      invariant |raws| == k && AllWellFormed(raws, |content|) && raws == RegexWindows(content, matches, half, k)
      invariant forall i :: 0 <= i < k ==>
                  raws[i] == Window(matches[i].0, matches[i].1, half, |content|, content[matches[i].0..matches[i].1])
    {
      raws := raws + [Window(matches[k].0, matches[k].1, half, |content|, content[matches[k].0..matches[k].1])];
    }
  }

  predicate AllQuote(content: Bytes, es: seq<Excerpt>) {
    forall i :: 0 <= i < |es| ==> Quotes(content, es[i])
  }

  lemma TakenQuotes(content: Bytes, merged: seq<Span>, spans: seq<Excerpt>, charCap: nat, k: nat)
    requires AllWellFormed(merged, |content|)
    requires (k == |merged| == |spans| && FullUpTo(content, merged, spans, k)) || CutAt(content, merged, spans, charCap, k)
    ensures AllQuote(content, spans)
  {
    forall i | 0 <= i < |spans| ensures Quotes(content, spans[i]) {
      if i < k {
        assert spans[i] == Full(content, merged[i]);
      } else {
        assert spans[i] == spans[k..][i - k];
      }
    }
  }

  /** No excerpt reaches beyond the windows. */
  lemma ExcerptsStayInside(content: Bytes, merged: seq<Span>, spans: seq<Excerpt>, charCap: nat, k: nat, p: nat)
    requires AllWellFormed(merged, |content|) && Contains(spans, p)
    requires (k == |merged| == |spans| && FullUpTo(content, merged, spans, k)) || CutAt(content, merged, spans, charCap, k)
    ensures Covers(merged, p)
  {
    var i :| 0 <= i < |spans| && spans[i].offset <= p < spans[i].offset + |spans[i].text|;
    if i < k {
      assert spans[i] == Full(content, merged[i]);
      assert Holds(merged[i], p);
    } else {
      assert spans[i] == spans[k..][i - k];
      assert Holds(merged[k], p);
    }
  }

  /** How many bytes of an n-byte document the spans cover, each counted once. */
  ghost function CoveredBytes(ss: seq<Span>, n: nat): nat {
    |CoveredSet(ss, n)|
  }

  ghost function CoveredSet(ss: seq<Span>, n: nat): set<int> {
    set p | 0 <= p < n && Covers(ss, p)
  }

  ghost function SpanSet(s: Span): set<int> {
    set p | s.start <= p < s.end && Holds(s, p)
  }

  lemma {:induction false} SpanSize(s: Span)
    requires s.start <= s.end
    ensures |SpanSet(s)| == s.end - s.start
    decreases s.end - s.start
  {
    if s.start < s.end {
      var shorter := s.(end := s.end - 1);
      SpanSize(shorter);
      LastByte(s, shorter);
    }
  }

  lemma LastByte(s: Span, shorter: Span)
    requires s.start < s.end && shorter == s.(end := s.end - 1)
    ensures SpanSet(s) == SpanSet(shorter) + {s.end - 1}
  {
    forall p ensures p in SpanSet(s) <==> p in SpanSet(shorter) + {s.end - 1} {
      assert p in SpanSet(s) <==> Holds(s, p);
      assert p in SpanSet(shorter) <==> Holds(shorter, p);
    }
  }

  /** Spans with gaps between them cover as many bytes as they are long. */
  lemma {:induction false} ApartLength(ss: seq<Span>, n: nat)
    requires AllWellFormed(ss, n) && Apart(ss)
    ensures CoveredBytes(ss, n) == Length(ss, |ss|)
  {
    if ss == [] {
      assert CoveredSet(ss, n) == {};
    } else {
      var front, last := ss[..|ss| - 1], ss[|ss| - 1];
      assert ss == front + [last];
      ApartLength(front, n);
      CoveredSnoc(front, last, n);
      SameLength(front, ss, |front|);
    }
  }

  lemma CoveredSnoc(front: seq<Span>, last: Span, n: nat)
    requires AllWellFormed(front, n) && WellFormed(last, n) && Apart(front + [last])
    ensures CoveredBytes(front + [last], n) == CoveredBytes(front, n) + (last.end - last.start)
  {
    forall p ensures p in CoveredSet(front + [last], n) <==> p in CoveredSet(front, n) + SpanSet(last) {
      CoversAppend(front, last, p);
      assert p in SpanSet(last) <==> Holds(last, p);
    }
    forall p | p in CoveredSet(front, n) ensures p !in SpanSet(last) {
      var i :| 0 <= i < |front| && Holds(front[i], p);
      assert (front + [last])[i] == front[i] && (front + [last])[|front|] == last;
    }
    assert CoveredSet(front + [last], n) == CoveredSet(front, n) + SpanSet(last);
    assert CoveredSet(front, n) !! SpanSet(last);
    SpanSize(last);
  }

  lemma LengthIsCovered(merged: seq<Span>, raws: seq<Span>, n: nat)
    requires Merges(merged, raws, n)
    ensures Length(merged, |merged|) == CoveredBytes(raws, n)
  {
    ApartLength(merged, n);
    forall p ensures p in CoveredSet(merged, n) <==> p in CoveredSet(raws, n) {
      assert Covers(merged, p) <==> Covers(raws, p);
    }
    assert CoveredSet(merged, n) == CoveredSet(raws, n);
  }

  // ---- Where a truncated answer ends ----

  /**
   * The answer shows the windows up to `limit`, the last place at which a character starts, or a
   * window, that the budget reaches.
   */
  ghost predicate EndsAt(content: Bytes, windows: seq<Span>, spans: seq<Excerpt>, charCap: nat, limit: nat) {
    && limit <= |content| && CoveredBytes(windows, limit) <= charCap
    && (forall p: nat :: Contains(spans, p) <==> Covers(windows, p) && p < limit)
    && (forall q: nat :: limit < q < |content| && CoveredBytes(windows, q) <= charCap ==> 128 <= content[q] < 192)
    && (0 < limit < |content| && Covers(windows, limit - 1) && Covers(windows, limit) ==> !(128 <= content[limit] < 192))
  }

  ghost predicate EndsWithBudget(content: Bytes, windows: seq<Span>, spans: seq<Excerpt>, charCap: nat) {
    exists limit: nat :: EndsAt(content, windows, spans, charCap, limit)
  }

  lemma SameCoverSameBytes(a: seq<Span>, b: seq<Span>, n: nat)
    requires SameCover(a, b)
    ensures CoveredBytes(a, n) == CoveredBytes(b, n)
  {
    forall p ensures p in CoveredSet(a, n) <==> p in CoveredSet(b, n) {
      assert Covers(a, p) <==> Covers(b, p);
    }
    assert CoveredSet(a, n) == CoveredSet(b, n);
  }

  lemma CoveredGrows(ss: seq<Span>, m: nat, n: nat)
    requires m <= n
    ensures CoveredBytes(ss, m) <= CoveredBytes(ss, n)
  {
    assert CoveredSet(ss, n) == CoveredSet(ss, m) + (CoveredSet(ss, n) - CoveredSet(ss, m));
  }

  function Shortened(ss: seq<Span>, k: nat, r: nat): seq<Span>
    requires k < |ss|
  {
    ss[..k] + [ss[k].(end := ss[k].start + r)]
  }

  /** `short` is the first k spans and the first r bytes of the next. */
  predicate ShortOf(short: seq<Span>, ss: seq<Span>, n: nat, k: nat, r: nat) {
    && AllWellFormed(ss, n) && Apart(ss) && k < |ss| && ss[k].start + r <= ss[k].end
    && |short| == k + 1 && (forall i :: 0 <= i < k ==> short[i] == ss[i])
    && short[k].start == ss[k].start && short[k].end == ss[k].start + r
  }

  lemma ShortCovers(short: seq<Span>, ss: seq<Span>, n: nat, k: nat, r: nat, p: nat)
    requires ShortOf(short, ss, n, k, r)
    ensures Covers(short, p) <==> Covers(ss, p) && p < ss[k].start + r
  {
    if Covers(short, p) {
      var i :| 0 <= i < |short| && Holds(short[i], p);
      assert Holds(ss[i], p);
    }
    if Covers(ss, p) && p < ss[k].start + r {
      var i :| 0 <= i < |ss| && Holds(ss[i], p);
      assert i <= k;
      assert Holds(short[i], p);
    }
  }

  lemma {:induction false} SameLength(short: seq<Span>, ss: seq<Span>, k: nat)
    requires k <= |short| && k <= |ss| && forall i :: 0 <= i < k ==> short[i] == ss[i]
    ensures Length(short, k) == Length(ss, k)
  {
    if k > 0 {
      SameLength(short, ss, k - 1);
    }
  }

  lemma ShortBytes(short: seq<Span>, ss: seq<Span>, n: nat, k: nat, r: nat)
    requires ShortOf(short, ss, n, k, r)
    ensures CoveredBytes(short, ss[k].start + r) == CoveredBytes(ss, ss[k].start + r)
  {
    var limit := ss[k].start + r;
    forall p ensures p in CoveredSet(short, limit) <==> p in CoveredSet(ss, limit) {
      if 0 <= p {
        ShortCovers(short, ss, n, k, r, p);
      }
    }
    assert CoveredSet(short, limit) == CoveredSet(ss, limit);
  }

  lemma ShortShape(short: seq<Span>, ss: seq<Span>, n: nat, k: nat, r: nat)
    requires ShortOf(short, ss, n, k, r)
    ensures AllWellFormed(short, ss[k].start + r) && Apart(short)
  {
  }

  lemma ShortCount(short: seq<Span>, ss: seq<Span>, n: nat, k: nat, r: nat)
    requires ShortOf(short, ss, n, k, r)
    ensures CoveredBytes(short, ss[k].start + r) == Length(ss, k) + r
  {
    ShortShape(short, ss, n, k, r);
    ApartLength(short, ss[k].start + r);
    SameLength(short, ss, k);
  }

  /** Up to r bytes into span k the spans cover the k before it and those r bytes. */
  lemma CoveredUpTo(ss: seq<Span>, n: nat, k: nat, r: nat)
    requires AllWellFormed(ss, n) && Apart(ss) && k < |ss| && ss[k].start + r <= ss[k].end
    ensures CoveredBytes(ss, ss[k].start + r) == Length(ss, k) + r
  {
    var short := Shortened(ss, k, r);
    assert ShortOf(short, ss, n, k, r);
    ShortBytes(short, ss, n, k, r);
    ShortCount(short, ss, n, k, r);
  }

  /** Each excerpt is its span, the last one shortened, or missing when nothing of it is left. */
  ghost predicate Shows(spans: seq<Excerpt>, short: seq<Span>) {
    && |spans| <= |short|
    && (forall i :: 0 <= i < |spans| ==>
          spans[i].offset == short[i].start && spans[i].offset + |spans[i].text| == short[i].end)
    && (forall i :: |spans| <= i < |short| ==> short[i].start == short[i].end)
  }

  lemma CutShows(content: Bytes, merged: seq<Span>, spans: seq<Excerpt>, charCap: nat, k: nat, r: nat)
    requires AllWellFormed(merged, |content|) && CutAt(content, merged, spans, charCap, k)
    requires r == CutLength(content[merged[k].start..merged[k].end], charCap - Length(merged, k))
    ensures Shows(spans, Shortened(merged, k, r))
  {
    var short, tail := Shortened(merged, k, r), spans[k..];
    assert spans == spans[..k] + tail;
    forall i | 0 <= i < k ensures spans[i].offset == short[i].start && spans[i].offset + |spans[i].text| == short[i].end {
      assert spans[i] == Full(content, merged[i]);
    }
    assert r > 0 ==> spans[k] == tail[0];
  }

  lemma ShownIsCovered(spans: seq<Excerpt>, short: seq<Span>, p: nat)
    requires Shows(spans, short)
    ensures Contains(spans, p) <==> Covers(short, p)
  {
    if Contains(spans, p) {
      var i :| 0 <= i < |spans| && spans[i].offset <= p < spans[i].offset + |spans[i].text|;
      assert Holds(short[i], p);
    }
    if Covers(short, p) {
      var i :| 0 <= i < |short| && Holds(short[i], p);
      assert i < |spans|;
    }
  }

  lemma BudgetStops(content: Bytes, merged: seq<Span>, charCap: nat, k: nat, r: nat, q: nat)
    requires AllWellFormed(merged, |content|) && Apart(merged) && k < |merged|
    requires Length(merged, k) <= charCap < Length(merged, k + 1)
    requires r == CutLength(content[merged[k].start..merged[k].end], charCap - Length(merged, k))
    requires merged[k].start + r < q < |content| && CoveredBytes(merged, q) <= charCap
    ensures 128 <= content[q] < 192
  {
    var m, room := merged[k], charCap - Length(merged, k);
    CutIsLongest(content[m.start..m.end], room);
    CoveredUpTo(merged, |content|, k, room + 1);
    if m.start + room + 1 <= q {
      CoveredGrows(merged, m.start + room + 1, q);
    }
    assert !RuneStart(content[m.start..m.end][q - m.start]);
  }

  lemma CutShowsUpTo(content: Bytes, merged: seq<Span>, spans: seq<Excerpt>, charCap: nat, k: nat, r: nat, p: nat)
    requires AllWellFormed(merged, |content|) && Apart(merged) && CutAt(content, merged, spans, charCap, k)
    requires r == CutLength(content[merged[k].start..merged[k].end], charCap - Length(merged, k))
    ensures Contains(spans, p) <==> Covers(merged, p) && p < merged[k].start + r
  {
    CutShows(content, merged, spans, charCap, k, r);
    ShownIsCovered(spans, Shortened(merged, k, r), p);
    ShortCovers(Shortened(merged, k, r), merged, |content|, k, r, p);
  }

  lemma CutAtCharacter(content: Bytes, merged: seq<Span>, k: nat, r: nat, room: nat)
    requires AllWellFormed(merged, |content|) && Apart(merged) && k < |merged| && room < merged[k].end - merged[k].start
    requires r == CutLength(content[merged[k].start..merged[k].end], room)
    ensures var limit := merged[k].start + r;
            && limit <= |content|
            && (0 < limit < |content| && Covers(merged, limit - 1) ==> !(128 <= content[limit] < 192))
  {
    var m := merged[k];
    CutIsLongest(content[m.start..m.end], room);
    if r == 0 && m.start > 0 {
      GapBefore(merged, k);
    }
    assert content[m.start..m.end][r] == content[m.start + r];
  }

  lemma CutEndsWithBudget(content: Bytes, merged: seq<Span>, spans: seq<Excerpt>, charCap: nat, k: nat)
    requires AllWellFormed(merged, |content|) && Apart(merged) && CutAt(content, merged, spans, charCap, k)
    ensures EndsWithBudget(content, merged, spans, charCap)
  {
    var m, room := merged[k], charCap - Length(merged, k);
    var r := CutLength(content[m.start..m.end], room);
    CoveredUpTo(merged, |content|, k, r);
    CutAtCharacter(content, merged, k, r, room);
    forall p: nat ensures Contains(spans, p) <==> Covers(merged, p) && p < m.start + r {
      CutShowsUpTo(content, merged, spans, charCap, k, r, p);
    }
    forall q: nat | m.start + r < q < |content| && CoveredBytes(merged, q) <= charCap ensures 128 <= content[q] < 192 {
      BudgetStops(content, merged, charCap, k, r, q);
    }
    assert EndsAt(content, merged, spans, charCap, m.start + r);
  }

  lemma GapBefore(ss: seq<Span>, k: nat)
    requires Apart(ss) && k < |ss| && (forall i :: 0 <= i < |ss| ==> ss[i].start <= ss[i].end) && ss[k].start > 0
    ensures !Covers(ss, ss[k].start - 1)
  {
    forall i | 0 <= i < |ss| ensures !Holds(ss[i], ss[k].start - 1) {
    }
  }

  lemma EndsTransfer(content: Bytes, merged: seq<Span>, raws: seq<Span>, spans: seq<Excerpt>, charCap: nat)
    requires SameCover(merged, raws) && EndsWithBudget(content, merged, spans, charCap)
    ensures EndsWithBudget(content, raws, spans, charCap)
  {
    var limit: nat :| EndsAt(content, merged, spans, charCap, limit);
    forall n: nat ensures CoveredBytes(merged, n) == CoveredBytes(raws, n) {
      SameCoverSameBytes(merged, raws, n);
    }
    forall p: nat ensures Covers(merged, p) <==> Covers(raws, p) {
    }
    assert EndsAt(content, raws, spans, charCap, limit);
  }

  /** Excerpts come in order with gaps between them, each beginning with a window and naming its match. */
  ghost predicate InOrder(es: seq<Excerpt>, windows: seq<Span>) {
    && (forall i, j :: 0 <= i < j < |es| ==> es[i].offset + |es[i].text| < es[j].offset)
    && (forall i :: 0 <= i < |es| ==> BeginsWindow(es[i], windows))
  }

  ghost predicate BeginsWindow(e: Excerpt, windows: seq<Span>) {
    exists w :: w in windows && w.start == e.offset && w.matched == e.matched
  }

  lemma ExcerptsInOrder(content: Bytes, merged: seq<Span>, raws: seq<Span>, spans: seq<Excerpt>, charCap: nat, k: nat)
    requires Merges(merged, raws, |content|)
    requires (k == |merged| == |spans| && FullUpTo(content, merged, spans, k)) || CutAt(content, merged, spans, charCap, k)
    ensures InOrder(spans, raws)
  {
    forall i | 0 <= i < |spans|
      ensures i < |merged| && spans[i].offset == merged[i].start && spans[i].offset + |spans[i].text| <= merged[i].end
      ensures spans[i].matched == merged[i].matched
    {
      if i < k {
        assert spans[i] == Full(content, merged[i]);
      } else {
        assert spans[i] == spans[k..][i - k];
      }
    }
    forall i | 0 <= i < |spans| ensures BeginsWindow(spans[i], raws) {
      assert HasRoot(merged[i], raws);
    }
  }

  /** The spans a query answers from, all of them when they fit and no more than the budget allows. */
  method ExcerptsOf(content: Bytes, raws: seq<Span>, charCap: nat) returns (spans: seq<Excerpt>, truncated: bool)
    requires AllWellFormed(raws, |content|)
    ensures AllQuote(content, spans) && Total(spans) <= charCap
    ensures truncated <==> CoveredBytes(raws, |content|) > charCap
    ensures forall p: nat :: Contains(spans, p) ==> Covers(raws, p)
    ensures !truncated ==> forall p: nat :: Covers(raws, p) ==> Contains(spans, p)
    ensures truncated ==> EndsWithBudget(content, raws, spans, charCap)
    ensures InOrder(spans, raws)
  {
    var merged := MergeSpans(raws, |content|);
    spans, truncated := TakeWithin(content, merged, charCap);
    LengthIsCovered(merged, raws, |content|);
    if truncated {
      ghost var k :| CutAt(content, merged, spans, charCap, k);
      TakenQuotes(content, merged, spans, charCap, k);
      ExcerptsInOrder(content, merged, raws, spans, charCap, k);
      CutEndsWithBudget(content, merged, spans, charCap, k);
      EndsTransfer(content, merged, raws, spans, charCap);
      forall p: nat | Contains(spans, p) ensures Covers(raws, p) {
        ExcerptsStayInside(content, merged, spans, charCap, k, p);
      }
    } else {
      TakenQuotes(content, merged, spans, charCap, |merged|);
      ExcerptsInOrder(content, merged, raws, spans, charCap, |merged|);
      forall p: nat | Contains(spans, p) ensures Covers(raws, p) {
        ExcerptsStayInside(content, merged, spans, charCap, |merged|, p);
      }
      forall p: nat | Covers(raws, p) ensures Contains(spans, p) {
        assert Covers(merged, p);
        FullContains(content, merged, spans, p);
      }
    }
  }

  function OrDefault(x: int, d: nat): nat {
    if x <= 0 then d else x
  }

  /** Byte p lies within `half` of an occurrence of one of the filter strings. */
  ghost predicate NearOccurrence(content: Bytes, subs: seq<Bytes>, half: nat, p: nat) {
    exists sub, q: nat :: sub in subs && OccursAt(content, sub, q) && q - half <= p < q + |sub| + half
  }

  lemma CoveredIsNear(content: Bytes, subs: seq<Bytes>, half: nat, raws: seq<Span>, p: nat)
    requires AllAround(content, half, raws) && MatchedIn(subs, raws) && Covers(raws, p)
    ensures NearOccurrence(content, subs, half, p)
  {
    var i :| 0 <= i < |raws| && Holds(raws[i], p);
    assert AroundOccurrence(content, half, raws[i]);
    var q: nat :| OccursAt(content, raws[i].matched, q)
                  && raws[i] == Window(q, q + |raws[i].matched|, half, |content|, raws[i].matched);
    assert raws[i].matched in subs;
  }

  /** Byte p lies in a window of the filter: around a match, or at the start of the document without a filter. */
  ghost predicate Wanted(content: Bytes, filter: Filter, window: nat, p: nat) {
    match filter
    case ByRegex(_, matches) => matches.Some? && NearMatch(matches.value, window / 2, |content|, p)
    case BySubstrings(subs) => NearOccurrence(content, subs, window / 2, p)
    case NoFilter => p < window && p < |content|
  }

  ghost predicate NearMatch(matches: seq<(nat, nat)>, half: nat, n: nat, p: nat) {
    exists i :: 0 <= i < |matches| && matches[i].0 - half <= p < matches[i].1 + half && p < n
  }

  /** Byte p must be in an untruncated answer: a matched byte, the start of an occurrence, or the head of the document. */
  ghost predicate Due(content: Bytes, filter: Filter, window: nat, p: nat) {
    match filter
    case ByRegex(_, matches) => matches.Some? && NearMatch(matches.value, window / 2, |content|, p)
    case BySubstrings(subs) => exists j :: 0 <= j < |subs| && subs[j] != [] && OccursAt(content, subs[j], p)
    case NoFilter => p < window && p < |content|
  }

  lemma RegexCover(content: Bytes, matches: seq<(nat, nat)>, half: nat, raws: seq<Span>, p: nat)
    requires MatchesWithin(matches, |content|) && |raws| == |matches|
    requires forall i :: 0 <= i < |raws| ==>
               raws[i] == Window(matches[i].0, matches[i].1, half, |content|, content[matches[i].0..matches[i].1])
    ensures Covers(raws, p) <==> NearMatch(matches, half, |content|, p)
  {
    if Covers(raws, p) {
      var i :| 0 <= i < |raws| && Holds(raws[i], p);
      assert matches[i].0 - half <= p < matches[i].1 + half;
    }
    if NearMatch(matches, half, |content|, p) {
      var i :| 0 <= i < |matches| && matches[i].0 - half <= p < matches[i].1 + half && p < |content|;
      assert Holds(raws[i], p);
    }
  }

  /** What the windows of a search must and may cover. */
  ghost predicate WindowsFit(content: Bytes, filter: Filter, window: nat, raws: seq<Span>) {
    && AllWellFormed(raws, |content|)
    && (forall p: nat :: Covers(raws, p) ==> Wanted(content, filter, window, p))
    && (forall p: nat :: Due(content, filter, window, p) ==> Covers(raws, p))
  }

  predicate Searchable(content: Bytes, filter: Filter) {
    filter.ByRegex? ==> filter.matches.Some? && MatchesWithin(filter.matches.value, |content|)
  }

  /** The windows a filter selects, before merging. */
  ghost function WindowsOf(content: Bytes, filter: Filter, window: nat): seq<Span>
    requires Searchable(content, filter)
  {
    match filter
    case ByRegex(_, matches) => RegexWindows(content, matches.value, window / 2, |matches.value|)
    case BySubstrings(subs) => AllSubstringWindows(content, subs, window / 2, |subs|)
    case NoFilter => [Span(0, if window > |content| then |content| else window, [])]
  }

  method FindWindows(content: Bytes, filter: Filter, window: nat) returns (raws: seq<Span>)
    requires Searchable(content, filter)
    ensures raws == WindowsOf(content, filter, window)
    ensures WindowsFit(content, filter, window, raws)
    ensures filter.NoFilter? ==> raws != []
  {
    match filter {
      case ByRegex(_, matches) =>
        raws := FindRegex(content, matches.value, window / 2);
        forall p: nat ensures Covers(raws, p) <==> NearMatch(matches.value, window / 2, |content|, p) {
          RegexCover(content, matches.value, window / 2, raws, p);
        }
      case BySubstrings(subs) =>
        raws := FindSubstrings(content, subs, window / 2);
        SearchesMissNothing(content, subs, window / 2, |subs|);
        SubstringsFit(content, subs, window, raws);
      case NoFilter =>
        raws := [Span(0, if window > |content| then |content| else window, [])];
        HeadFits(content, window, raws);
    }
  }

  lemma SubstringsFit(content: Bytes, subs: seq<Bytes>, window: nat, raws: seq<Span>)
    requires HuntedAll(content, subs, window / 2, raws, |subs|)
    ensures WindowsFit(content, BySubstrings(subs), window, raws)
  {
    forall p: nat | Covers(raws, p) ensures NearOccurrence(content, subs, window / 2, p) {
      CoveredIsNear(content, subs, window / 2, raws, p);
    }
    forall p: nat, j | 0 <= j < |subs| && subs[j] != [] && OccursAt(content, subs[j], p) ensures Covers(raws, p) {
      assert Spotted(content, subs[j], raws, 0);
    }
  }

  lemma HeadFits(content: Bytes, window: nat, raws: seq<Span>)
    requires raws == [Span(0, if window > |content| then |content| else window, [])]
    ensures WindowsFit(content, NoFilter, window, raws)
  {
    forall p: nat ensures Covers(raws, p) <==> p < window && p < |content| {
      assert Covers(raws, p) <==> Holds(raws[0], p);
    }
  }

  ghost predicate Answers(content: Bytes, filter: Filter, window: nat, windows: seq<Span>, charCap: nat,
                          spans: seq<Excerpt>, truncated: bool) {
    && AllQuote(content, spans) && InOrder(spans, windows) && Total(spans) <= charCap
    && (truncated <==> CoveredBytes(windows, |content|) > charCap)
    && (forall p: nat :: Contains(spans, p) ==> Covers(windows, p) && Wanted(content, filter, window, p))
    && (!truncated ==> forall p: nat :: Covers(windows, p) ==> Contains(spans, p))
    && (truncated ==> EndsWithBudget(content, windows, spans, charCap))
    && (!truncated ==> forall p: nat :: Due(content, filter, window, p) ==> Contains(spans, p))
  }

  /** Content that can be searched; a pattern that is too long or does not compile cannot be. */
  predicate Accepted(content: Bytes, filter: Filter) {
    content != [] && (filter.ByRegex? ==> !filter.tooLong && filter.matches.Some?)
  }

  /**
   * A query answers from true substrings within the budget and within the windows of its filter.
   * It is truncated exactly when the windows cover more bytes than the budget allows; otherwise
   * every byte of every window is there, and with it every byte that is due.
   */
  method QueryDocument(content: Bytes, filter: Filter, windowChars: int, tokenBudget: int) returns (answer: Answer)
    requires filter.ByRegex? && filter.matches.Some? ==> MatchesWithin(filter.matches.value, |content|)
    ensures answer.NoContent? <==> content == []
    ensures answer.Rejected? <==> content != [] && !Accepted(content, filter)
    ensures Accepted(content, filter) ==>
              var window := if windowChars <= 0 then 4000 else windowChars;
              var windows := WindowsOf(content, filter, window);
              && (answer.NoMatches? <==> windows == [])
              && (answer.NoMatches? ==> forall p: nat :: !Due(content, filter, window, p))
              && (answer.Found? ==>
                    Answers(content, filter, window, windows, if tokenBudget <= 0 then 24000 else 4 * tokenBudget,
                            answer.spans, answer.truncated))
  {
    var window := OrDefault(windowChars, DEFAULT_WINDOW);
    var charCap := OrDefault(tokenBudget, DEFAULT_BUDGET) * CHARS_PER_TOKEN;
    if |content| == 0 {
      return NoContent;
    }
    if filter.ByRegex? && (filter.tooLong || filter.matches.None?) {
      return Rejected;
    }
    var raws := FindWindows(content, filter, window);
    if !filter.NoFilter? && |raws| == 0 {
      return NoMatches;
    }
    var spans, truncated := ExcerptsOf(content, raws, charCap);
    answer := Found(spans, truncated);
  }
}
