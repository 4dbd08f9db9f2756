/** Cutting merged windows to a character budget. */
module DocumentBudget {
  import opened Basics
  import opened DocumentSpans

  /** One extracted window. */
  datatype Excerpt = Excerpt(offset: nat, text: Bytes, matched: Bytes)

  predicate RuneStart(b: Byte) {
    !(128 <= b < 192)
  }

  /** The longest cut of at most `room` bytes that ends where a character starts. */
  function CutLength(text: Bytes, room: nat): (r: nat)
    requires room < |text|
    ensures r <= room
  {
    if room == 0 || RuneStart(text[room]) then room else CutLength(text, room - 1)
  }

  /** A cut ends where a character starts or is empty, and no longer one within the room does. */
  lemma {:induction false} CutIsLongest(text: Bytes, room: nat)
    requires room < |text|
    ensures var r := CutLength(text, room);
            (r > 0 ==> RuneStart(text[r])) && forall q :: r < q <= room ==> !RuneStart(text[q])
  {
    if room > 0 && !RuneStart(text[room]) {
      CutIsLongest(text, room - 1);
    }
  }

  /** The length of the first k spans. */
  function Length(ss: seq<Span>, k: nat): int
    requires k <= |ss|
  {
    if k == 0 then 0 else Length(ss, k - 1) + (ss[k - 1].end - ss[k - 1].start)
  }

  /** The length of the first k texts. */
  function TextLength(es: seq<Excerpt>, k: nat): nat
    requires k <= |es|
  {
    if k == 0 then 0 else TextLength(es, k - 1) + |es[k - 1].text|
  }

  function Total(es: seq<Excerpt>): nat {
    TextLength(es, |es|)
  }

  lemma {:induction false} LengthGrows(ss: seq<Span>, n: nat, k: nat, m: nat)
    requires AllWellFormed(ss, n) && k <= m <= |ss|
    ensures 0 <= Length(ss, k) <= Length(ss, m)
    decreases m
  {
    if k < m {
      LengthGrows(ss, n, k, m - 1);
    } else if m > 0 {
      LengthGrows(ss, n, m - 1, m - 1);
    }
  }

  lemma {:induction false} TextLengthKept(es: seq<Excerpt>, more: seq<Excerpt>, k: nat)
    requires k <= |es|
    ensures TextLength(es + more, k) == TextLength(es, k)
  {
    if k > 0 {
      TextLengthKept(es, more, k - 1);
    }
  }

  lemma TotalSnoc(es: seq<Excerpt>, e: Excerpt)
    ensures Total(es + [e]) == Total(es) + |e.text|
  {
    TextLengthKept(es, [e], |es|);
  }

  /** The text really stands at its offset. */
  predicate Quotes(content: Bytes, e: Excerpt) {
    e.offset + |e.text| <= |content| && e.text == content[e.offset..e.offset + |e.text|]
  }

  function Full(content: Bytes, s: Span): Excerpt
    requires WellFormed(s, |content|)
  {
    Excerpt(s.start, content[s.start..s.end], s.matched)
  }

  predicate FullUpTo(content: Bytes, merged: seq<Span>, spans: seq<Excerpt>, k: nat)
    requires AllWellFormed(merged, |content|)
  {
    k <= |merged| && k <= |spans| && forall i :: 0 <= i < k ==> spans[i] == Full(content, merged[i])
  }

  /** Span k is the first that does not fit; it is cut at a character boundary, or left out if nothing of it fits. */
  predicate CutAt(content: Bytes, merged: seq<Span>, spans: seq<Excerpt>, charCap: nat, k: nat)
    requires AllWellFormed(merged, |content|)
  {
    && k < |merged| && FullUpTo(content, merged, spans, k)
    && Length(merged, k) <= charCap < Length(merged, k + 1)
    && spans[k..] == CutTail(content, merged[k], charCap - Length(merged, k))
  }

  /** What is left to return at the first span that does not fit. */
  function CutTail(content: Bytes, m: Span, room: nat): seq<Excerpt>
    requires WellFormed(m, |content|) && room < m.end - m.start
  {
    var text := content[m.start..m.end];
    var r := CutLength(text, room);
    if r == 0 then [] else [Excerpt(m.start, text[..r], m.matched)]
  }

  /** The first k spans have been taken whole. */
  predicate Taken(content: Bytes, merged: seq<Span>, spans: seq<Excerpt>, total: int, charCap: nat, k: nat)
    requires AllWellFormed(merged, |content|)
  {
    && k <= |merged| && |spans| == k && FullUpTo(content, merged, spans, k)
    && total == Total(spans) == Length(merged, k) <= charCap
  }

  lemma TakeOne(content: Bytes, merged: seq<Span>, spans: seq<Excerpt>, total: int, charCap: nat, k: nat)
    requires AllWellFormed(merged, |content|) && k < |merged| && Taken(content, merged, spans, total, charCap, k)
    requires total + (merged[k].end - merged[k].start) <= charCap
    ensures Taken(content, merged, spans + [Full(content, merged[k])], total + (merged[k].end - merged[k].start), charCap, k + 1)
  {
    TotalSnoc(spans, Full(content, merged[k]));
  }

  /** Within the budget, truncated exactly when the spans do not all fit, and otherwise all of them whole. */
  ghost predicate WithinBudget(content: Bytes, merged: seq<Span>, spans: seq<Excerpt>, truncated: bool, charCap: nat)
    requires AllWellFormed(merged, |content|)
  {
    && Total(spans) <= charCap
    && (truncated <==> Length(merged, |merged|) > charCap)
    && (!truncated ==> |spans| == |merged| && FullUpTo(content, merged, spans, |merged|))
    && (truncated ==> IsCut(content, merged, spans, charCap))
  }

  lemma TakenAll(content: Bytes, merged: seq<Span>, spans: seq<Excerpt>, total: int, charCap: nat)
    requires AllWellFormed(merged, |content|) && Taken(content, merged, spans, total, charCap, |merged|)
    ensures WithinBudget(content, merged, spans, false, charCap)
  {
  }

  ghost predicate IsCut(content: Bytes, merged: seq<Span>, spans: seq<Excerpt>, charCap: nat)
    requires AllWellFormed(merged, |content|)
  {
    exists k: nat :: CutAt(content, merged, spans, charCap, k)
  }

  lemma CutIsCut(content: Bytes, merged: seq<Span>, spans: seq<Excerpt>, charCap: nat, k: nat)
    requires AllWellFormed(merged, |content|) && k < |merged| && Taken(content, merged, spans, Total(spans), charCap, k)
    requires Total(spans) + (merged[k].end - merged[k].start) > charCap
    ensures WithinBudget(content, merged, spans + CutTail(content, merged[k], charCap - Total(spans)), true, charCap)
  {
    LengthGrows(merged, |content|, k + 1, |merged|);
    var tail := CutTail(content, merged[k], charCap - Total(spans));
    if tail == [] {
      assert spans + tail == spans;
    } else {
      TotalSnoc(spans, tail[0]);
    }
    assert (spans + tail)[k..] == tail;
    assert CutAt(content, merged, spans + tail, charCap, k);
  }

  /** The part of a span that still fits, walked back to a character boundary. */
  method CutSpan(content: Bytes, m: Span, room: nat) returns (tail: seq<Excerpt>)
    requires WellFormed(m, |content|) && room < m.end - m.start
    ensures tail == CutTail(content, m, room)
  {
    var text := content[m.start..m.end];
    var remaining := room;
    while remaining > 0 && !RuneStart(text[remaining])
      invariant 0 <= remaining <= room && CutLength(text, room) == CutLength(text, remaining)
    {
      remaining := remaining - 1;
    }
    tail := if remaining > 0 then [Excerpt(m.start, text[..remaining], m.matched)] else [];
  }

  /** The spans before the first one that does not fit. */
  method TakeWhole(content: Bytes, merged: seq<Span>, charCap: nat) returns (spans: seq<Excerpt>, total: nat, k: nat)
    requires AllWellFormed(merged, |content|)
    ensures k <= |merged| && Taken(content, merged, spans, total, charCap, k)
    ensures k < |merged| ==> total + (merged[k].end - merged[k].start) > charCap
  {
    spans, total, k := [], 0, 0;
    while k < |merged|
      invariant k <= |merged| && Taken(content, merged, spans, total, charCap, k)
    {
      var text := content[merged[k].start..merged[k].end];
      if total + |text| > charCap {
        break;
      }
      TakeOne(content, merged, spans, total, charCap, k);
      spans, total, k := spans + [Full(content, merged[k])], total + |text|, k + 1;
    }
  }

  /**
   * The spans in order while they fit into the budget. The result is truncated exactly when they
   * do not all fit; then everything up to the first misfit is whole.
   */
  method TakeWithin(content: Bytes, merged: seq<Span>, charCap: nat) returns (spans: seq<Excerpt>, truncated: bool)
    requires AllWellFormed(merged, |content|)
    ensures WithinBudget(content, merged, spans, truncated, charCap)
  {
    var total, k;
    spans, total, k := TakeWhole(content, merged, charCap);
    if k == |merged| {
      TakenAll(content, merged, spans, total, charCap);
      return spans, false;
    }
    CutIsCut(content, merged, spans, charCap, k);
    var tail := CutSpan(content, merged[k], charCap - total);
    return spans + tail, true;
  }
}
