/**
 * Sentence-window chunking: greedy packing of sentences into chunks, each chunk
 * starting with as much of the previous one as the overlap budget allows.
 */
module Chunker {
  import opened Basics
  import Sentences
  import Text

  function Join(parts: seq<string>): string {
    if parts == [] then ""
    else if |parts| == 1 then parts[0]
    else Join(parts[..|parts| - 1]) + " " + parts[|parts| - 1]
  }

  lemma JoinSnoc(parts: seq<string>, s: string)
    ensures |Join(parts + [s])| == |Join(parts)| + |s| + (if parts == [] then 0 else 1)
  {
    assert (parts + [s])[..|parts|] == parts;
  }

  lemma {:induction false} JoinCons(s: string, parts: seq<string>)
    ensures |Join([s] + parts)| == |s| + |Join(parts)| + (if parts == [] then 0 else 1)
  {
    if parts != [] {
      var front, last := parts[..|parts| - 1], parts[|parts| - 1];
      assert [s] + parts == ([s] + front) + [last];
      assert parts == front + [last];
      JoinCons(s, front);
      JoinSnoc([s] + front, last);
      JoinSnoc(front, last);
    }
  }

  /** Suffix b of `current` fits the overlap budget, or is empty. */
  predicate Fits(current: seq<string>, b: nat, overlapChars: int)
    requires b <= |current|
  {
    b == |current| || |Join(current[b..])| <= overlapChars
  }

  /** b starts the longest suffix of `current` that fits. */
  ghost predicate LongestSuffix(current: seq<string>, b: nat, overlapChars: int) {
    && b <= |current| && Fits(current, b, overlapChars)
    && forall c :: 0 <= c < b ==> !Fits(current, c, overlapChars)
  }

  /** Longer suffixes are longer texts, so the first that does not fit decides. */
  lemma {:induction false} SuffixGrows(current: seq<string>, b: nat, c: nat)
    requires c <= b <= |current|
    ensures |Join(current[b..])| <= |Join(current[c..])|
    decreases b - c
  {
    if c < b {
      SuffixGrows(current, b, c + 1);
      assert current[c..] == [current[c]] + current[c + 1..];
      JoinCons(current[c], current[c + 1..]);
    }
  }

  /** The overlap is collected from the tail of the finished chunk backwards. */
  method BuildOverlap(current: seq<string>, overlapChars: int)
      returns (overlap: seq<string>, overlapLen: nat, ghost b: nat)
    ensures LongestSuffix(current, b, overlapChars)
    ensures overlap == current[b..] && overlapLen == |Join(overlap)|
  {
    overlap, overlapLen := [], 0;
    var i := |current|;
    b := i;
    while i > 0
      invariant 0 <= i <= |current| && b == i
      invariant overlap == current[i..] && overlapLen == |Join(overlap)|
      invariant Fits(current, i, overlapChars)
      decreases i
    {
      var s := current[i - 1];
      var sep := if |overlap| > 0 then 1 else 0;
      assert current[i - 1..] == [s] + overlap;
      JoinCons(s, overlap);
      if overlapLen + |s| + sep > overlapChars {
        forall c | 0 <= c < b ensures !Fits(current, c, overlapChars) {
          SuffixGrows(current, i - 1, c);
        }
        return;
      }
      overlap := [s] + overlap;
      overlapLen := overlapLen + |s| + sep;
      i := i - 1;
      b := i;
    }
  }

  /** Sentences start..end, of which start..first are carried over from the chunk before. */
  datatype Window = Window(start: nat, first: nat, end: nat)

  function Longest(sentences: seq<string>): nat {
    if sentences == [] then 0 else Max(Longest(sentences[..|sentences| - 1]), |sentences[|sentences| - 1]|)
  }

  lemma {:induction false} LongestBounds(sentences: seq<string>, i: nat)
    requires i < |sentences|
    ensures |sentences[i]| <= Longest(sentences)
  {
    if i < |sentences| - 1 {
      LongestBounds(sentences[..|sentences| - 1], i);
    }
  }

  function SizeBound(sentences: seq<string>, maxChars: int, overlapChars: int): int {
    Max(maxChars, Max(overlapChars, 0) + 1 + Longest(sentences))
  }

  /**
   * A window adds a sentence, renders as its joined run, and closes only when the next sentence
   * would not fit. Only its first new sentence is taken without regard to the limit.
   */
  ghost predicate ChunkOk(w: Window, text: string, sentences: seq<string>, maxChars: int, bound: int) {
    && w.start <= w.first < w.end <= |sentences|
    && text == Join(sentences[w.start..w.end]) && |text| <= bound
    && (|text| <= maxChars || w.end == w.first + 1)
    && (w.end < |sentences| ==> |Join(sentences[w.start..w.end + 1])| > maxChars)
  }

  /** Starting at a, with new sentences from `first` on, carries the longest fitting tail of the window before. */
  ghost predicate Follows(before: Option<Window>, a: nat, first: nat, sentences: seq<string>, overlapChars: int) {
    match before
    case None => a == 0 && first == 0
    case Some(p) =>
      && p.start <= a <= p.end == first && p.end <= |sentences|
      && LongestSuffix(sentences[p.start..p.end], a - p.start, overlapChars)
  }

  function Last(windows: seq<Window>): Option<Window> {
    if windows == [] then None else Some(windows[|windows| - 1])
  }

  /**
   * The chunks are a packing of the sentences: contiguous runs whose new parts tile the list
   * in order, each carrying the longest fitting tail of the run before, within the bound.
   */
  ghost predicate Packed(chunks: seq<string>, sentences: seq<string>, windows: seq<Window>, maxChars: int, overlapChars: int) {
    && |chunks| == |windows|
    && (windows != [] ==>
          var n := |windows| - 1;
          && ChunkOk(windows[n], chunks[n], sentences, maxChars, SizeBound(sentences, maxChars, overlapChars))
          && Follows(Last(windows[..n]), windows[n].start, windows[n].first, sentences, overlapChars)
          && Packed(chunks[..n], sentences, windows[..n], maxChars, overlapChars))
  }

  /** A packing of all the sentences. */
  ghost predicate Packing(chunks: seq<string>, sentences: seq<string>, windows: seq<Window>, maxChars: int, overlapChars: int) {
    Packed(chunks, sentences, windows, maxChars, overlapChars) && windows != [] && windows[|windows| - 1].end == |sentences|
  }

  lemma CloseWindow(chunks: seq<string>, sentences: seq<string>, windows: seq<Window>, w: Window, text: string,
                    maxChars: int, overlapChars: int)
    requires Packed(chunks, sentences, windows, maxChars, overlapChars)
    requires Follows(Last(windows), w.start, w.first, sentences, overlapChars)
    requires ChunkOk(w, text, sentences, maxChars, SizeBound(sentences, maxChars, overlapChars))
    ensures Packed(chunks + [text], sentences, windows + [w], maxChars, overlapChars)
  {
    assert (windows + [w])[..|windows|] == windows && (chunks + [text])[..|chunks|] == chunks;
  }

  /** The chunk in hand holds sentences a..i, of which those from `first` on are new. */
  ghost predicate InHand(current: seq<string>, currentLen: int, sentences: seq<string>, windows: seq<Window>,
                         w: Window, overlapChars: int) {
    && w.start <= w.first <= w.end <= |sentences|
    && current == sentences[w.start..w.end] && currentLen == |Join(current)|
    && Follows(Last(windows), w.start, w.first, sentences, overlapChars)
  }

  lemma Extend(current: seq<string>, sentences: seq<string>, w: Window)
    requires w.start <= w.end < |sentences| && current == sentences[w.start..w.end]
    ensures current + [sentences[w.end]] == sentences[w.start..w.end + 1]
    ensures |Join(sentences[w.start..w.end + 1])| == |Join(current)| + |sentences[w.end]| + (if current == [] then 0 else 1)
  {
    JoinSnoc(current, sentences[w.end]);
    assert current + [sentences[w.end]] == sentences[w.start..w.end + 1];
  }

  /** After i sentences: the closed chunks are a packing and the chunk in hand ends at sentence i. */
  ghost predicate Progress(chunks: seq<string>, current: seq<string>, currentLen: int, sentences: seq<string>,
                           windows: seq<Window>, w: Window, i: nat, maxChars: int, overlapChars: int) {
    && Packed(chunks, sentences, windows, maxChars, overlapChars)
    && InHand(current, currentLen, sentences, windows, w, overlapChars)
    && w.end == i && (i > 0 ==> w.first < i) && (i == 0 ==> current == [])
    && currentLen <= SizeBound(sentences, maxChars, overlapChars)
    && (currentLen <= maxChars || i <= w.first + 1)
  }

  /** Appending sentence i to the chunk in hand when it fits or the chunk is empty or just restarted. */
  lemma Append(current: seq<string>, currentLen: int, sentences: seq<string>, windows: seq<Window>, w: Window,
               maxChars: int, overlapChars: int)
    requires InHand(current, currentLen, sentences, windows, w, overlapChars) && w.end < |sentences|
    requires var added := |sentences[w.end]| + (if current == [] then 0 else 1);
             currentLen + added <= maxChars || current == [] || currentLen <= Max(overlapChars, 0)
    ensures var added := |sentences[w.end]| + (if current == [] then 0 else 1);
            && InHand(current + [sentences[w.end]], currentLen + added, sentences, windows, w.(end := w.end + 1), overlapChars)
            && currentLen + added <= SizeBound(sentences, maxChars, overlapChars)
  {
    LongestBounds(sentences, w.end);
    Extend(current, sentences, w);
    assert currentLen == |Join(current)|;
    assert current == [] ==> currentLen == 0;
  }

  /** A chunk that the next sentence would overfill is a window of the packing. */
  lemma FullChunkOk(current: seq<string>, currentLen: int, sentences: seq<string>, windows: seq<Window>, w: Window,
                    maxChars: int, overlapChars: int)
    requires InHand(current, currentLen, sentences, windows, w, overlapChars)
    requires w.first < w.end < |sentences| && current != []
    requires currentLen <= SizeBound(sentences, maxChars, overlapChars) && currentLen + |sentences[w.end]| + 1 > maxChars
    requires currentLen <= maxChars || w.end == w.first + 1
    ensures ChunkOk(w, Join(current), sentences, maxChars, SizeBound(sentences, maxChars, overlapChars))
  {
    Extend(current, sentences, w);
  }

  /** Closes the full chunk in hand and starts the next one with its overlap. */
  method CloseChunk(chunks: seq<string>, current: seq<string>, currentLen: int, overlapChars: int, ghost maxChars: int,
                    ghost sentences: seq<string>, ghost windows: seq<Window>, ghost w: Window)
      returns (chunks': seq<string>, overlap: seq<string>, overlapLen: nat, ghost next: Window)
    requires Packed(chunks, sentences, windows, maxChars, overlapChars)
    requires InHand(current, currentLen, sentences, windows, w, overlapChars)
    requires ChunkOk(w, Join(current), sentences, maxChars, SizeBound(sentences, maxChars, overlapChars))
    ensures Packed(chunks', sentences, windows + [w], maxChars, overlapChars)
    ensures next.first == next.end == w.end
    ensures InHand(overlap, overlapLen, sentences, windows + [w], next, overlapChars)
    ensures overlapLen <= Max(overlapChars, 0)
  {
    CloseWindow(chunks, sentences, windows, w, Join(current), maxChars, overlapChars);
    chunks' := chunks + [Join(current)];
    ghost var b;
    overlap, overlapLen, b := BuildOverlap(current, overlapChars);
    next := Window(w.start + b, w.end, w.end);
    assert overlap == sentences[next.start..next.end];
    assert Last(windows + [w]) == Some(w);
  }

  /** Sentence i fits, or nothing new is in hand yet: the chunk in hand grows by it. */
  lemma AddKeepsProgress(chunks: seq<string>, current: seq<string>, currentLen: int, sentences: seq<string>, i: nat,
                         maxChars: int, overlapChars: int, windows: seq<Window>, w: Window)
    requires i < |sentences|
    requires Packed(chunks, sentences, windows, maxChars, overlapChars)
    requires InHand(current, currentLen, sentences, windows, w, overlapChars) && w.end == i
    requires var added := |sentences[i]| + (if current == [] then 0 else 1);
             || currentLen + added <= maxChars
             || (w.first == i && (current == [] || currentLen <= Max(overlapChars, 0)))
    ensures var added := |sentences[i]| + (if current == [] then 0 else 1);
            Progress(chunks, current + [sentences[i]], currentLen + added, sentences, windows, w.(end := i + 1), i + 1,
                     maxChars, overlapChars)
  {
    Append(current, currentLen, sentences, windows, w, maxChars, overlapChars);
  }

  /** Sentence i does not fit: the chunk in hand is closed and the next one starts with the overlap. */
  method Restart(chunks: seq<string>, current: seq<string>, currentLen: int, sentences: seq<string>, i: nat,
                 maxChars: int, overlapChars: int, ghost windows: seq<Window>, ghost w: Window)
      returns (chunks': seq<string>, current': seq<string>, currentLen': int, ghost w': Window)
    requires i < |sentences| && current != [] && currentLen + |sentences[i]| + 1 > maxChars
    requires Progress(chunks, current, currentLen, sentences, windows, w, i, maxChars, overlapChars)
    ensures Progress(chunks', current', currentLen', sentences, windows + [w], w', i + 1, maxChars, overlapChars)
  {
    FullChunkOk(current, currentLen, sentences, windows, w, maxChars, overlapChars);
    chunks', current', currentLen', w' :=
      CloseChunk(chunks, current, currentLen, overlapChars, maxChars, sentences, windows, w);
    AddKeepsProgress(chunks', current', currentLen', sentences, i, maxChars, overlapChars, windows + [w], w');
    var sep := if |current'| > 0 then 1 else 0;
    currentLen' := currentLen' + (|sentences[i]| + sep);
    current' := current' + [sentences[i]];
    w' := w'.(end := i + 1);
  }

  /** Packs sentences into chunks: the loop of ChunkText over its sentence list. */
  method ChunkSentences(sentences: seq<string>, maxChars: int, overlapChars: int)
      returns (chunks: seq<string>, ghost windows: seq<Window>)
    requires sentences != []
    ensures Packing(chunks, sentences, windows, maxChars, overlapChars)
  {
    chunks, windows := [], [];
    var current: seq<string> := [];
    var currentLen := 0;
    ghost var w := Window(0, 0, 0);
    assert sentences[0..0] == [];
    for i := 0 to |sentences|
      invariant Progress(chunks, current, currentLen, sentences, windows, w, i, maxChars, overlapChars)
    {
      var sep := if |current| > 0 then 1 else 0;
      var addedLen := |sentences[i]| + sep;
      if currentLen + addedLen > maxChars && |current| > 0 {
        ghost var next;
        chunks, current, currentLen, next :=
          Restart(chunks, current, currentLen, sentences, i, maxChars, overlapChars, windows, w);
        windows, w := windows + [w], next;
      } else {
        AddKeepsProgress(chunks, current, currentLen, sentences, i, maxChars, overlapChars, windows, w);
        current, currentLen, w := current + [sentences[i]], currentLen + addedLen, w.(end := i + 1);
      }
    }
    CloseWindow(chunks, sentences, windows, w, Join(current), maxChars, overlapChars);
    chunks := chunks + [Join(current)];
    windows := windows + [w];
  }

  // ---- What a packing means ----

  /** The new sentences of each window, in order. */
  ghost function NewParts(sentences: seq<string>, windows: seq<Window>): seq<string> {
    if windows == [] then []
    else
      var w := windows[|windows| - 1];
      NewParts(sentences, windows[..|windows| - 1])
      + if w.first <= w.end <= |sentences| then sentences[w.first..w.end] else []
  }

  /** Deleting every carried overlap and concatenating gives the sentences back, up to the last window's end. */
  lemma {:induction false} OverlapsRemoved(chunks: seq<string>, sentences: seq<string>, windows: seq<Window>,
                                           maxChars: int, overlapChars: int)
    requires Packed(chunks, sentences, windows, maxChars, overlapChars)
    ensures var end := if windows == [] then 0 else windows[|windows| - 1].end;
            end <= |sentences| && NewParts(sentences, windows) == sentences[..end]
  {
    if windows != [] {
      var n := |windows| - 1;
      OverlapsRemoved(chunks[..n], sentences, windows[..n], maxChars, overlapChars);
      var w := windows[n];
      assert sentences[..w.end] == sentences[..w.first] + sentences[w.first..w.end];
    }
  }

  /** Every chunk is a contiguous run of sentences within the size bound. */
  lemma {:induction false} ChunksAreRuns(chunks: seq<string>, sentences: seq<string>, windows: seq<Window>,
                                         maxChars: int, overlapChars: int, k: nat)
    requires Packed(chunks, sentences, windows, maxChars, overlapChars) && k < |chunks|
    ensures ChunkOk(windows[k], chunks[k], sentences, maxChars, SizeBound(sentences, maxChars, overlapChars))
    decreases |chunks|
  {
    if k < |chunks| - 1 {
      var n := |chunks| - 1;
      ChunksAreRuns(chunks[..n], sentences, windows[..n], maxChars, overlapChars, k);
    }
  }

  /** Window ends strictly increase, so no chunk repeats or falls behind another. */
  lemma {:induction false} EndsIncrease(chunks: seq<string>, sentences: seq<string>, windows: seq<Window>,
                                        maxChars: int, overlapChars: int, i: nat, j: nat)
    requires Packed(chunks, sentences, windows, maxChars, overlapChars) && i < j < |windows|
    ensures windows[i].end < windows[j].end
    decreases |windows|
  {
    var n := |windows| - 1;
    assert windows[..n][i] == windows[i];
    if j < n {
      EndsIncrease(chunks[..n], sentences, windows[..n], maxChars, overlapChars, i, j);
    } else if i < n - 1 {
      EndsIncrease(chunks[..n], sentences, windows[..n], maxChars, overlapChars, i, n - 1);
    }
  }

  // ---- A packing is what the code returns ----

  lemma {:induction false} JoinGrows(parts: seq<string>, i: nat)
    requires i <= |parts|
    ensures |Join(parts[..i])| <= |Join(parts)|
    decreases |parts|
  {
    if i < |parts| {
      var front := parts[..|parts| - 1];
      assert parts == front + [parts[|parts| - 1]];
      JoinSnoc(front, parts[|parts| - 1]);
      JoinGrows(front, i);
      assert front[..i] == parts[..i];
    } else {
      assert parts[..i] == parts;
    }
  }

  /** Where a window starts decides where it ends. */
  lemma EndDetermined(w: Window, v: Window, text: string, text': string, sentences: seq<string>, maxChars: int, bound: int)
    requires ChunkOk(w, text, sentences, maxChars, bound) && ChunkOk(v, text', sentences, maxChars, bound)
    requires w.start == v.start && w.first == v.first
    ensures w.end >= v.end
  {
    if w.end < v.end {
      var run := sentences[v.start..v.end];
      assert run[..w.end + 1 - w.start] == sentences[w.start..w.end + 1];
      JoinGrows(run, w.end + 1 - w.start);
    }
  }

  lemma SuffixDetermined(current: seq<string>, b: nat, c: nat, overlapChars: int)
    requires LongestSuffix(current, b, overlapChars) && LongestSuffix(current, c, overlapChars)
    ensures b == c
  {
  }

  lemma {:induction false} WindowFollows(chunks: seq<string>, sentences: seq<string>, windows: seq<Window>,
                                         maxChars: int, overlapChars: int, k: nat)
    requires Packed(chunks, sentences, windows, maxChars, overlapChars) && k < |windows|
    ensures Follows(Last(windows[..k]), windows[k].start, windows[k].first, sentences, overlapChars)
    decreases |windows|
  {
    var n := |windows| - 1;
    if k < n {
      WindowFollows(chunks[..n], sentences, windows[..n], maxChars, overlapChars, k);
      assert windows[..n][..k] == windows[..k];
    }
  }

  lemma WindowAgrees(chunks: seq<string>, windows: seq<Window>, chunks': seq<string>, windows': seq<Window>,
                     sentences: seq<string>, maxChars: int, overlapChars: int, i: nat)
    requires Packed(chunks, sentences, windows, maxChars, overlapChars)
    requires Packed(chunks', sentences, windows', maxChars, overlapChars)
    requires i < |windows| && i < |windows'| && Last(windows[..i]) == Last(windows'[..i])
    ensures windows[i] == windows'[i] && chunks[i] == chunks'[i]
  {
    WindowFollows(chunks, sentences, windows, maxChars, overlapChars, i);
    WindowFollows(chunks', sentences, windows', maxChars, overlapChars, i);
    StartDetermined(Last(windows[..i]), windows[i], windows'[i], sentences, overlapChars);
    ChunksAreRuns(chunks, sentences, windows, maxChars, overlapChars, i);
    ChunksAreRuns(chunks', sentences, windows', maxChars, overlapChars, i);
    WindowDetermined(windows[i], windows'[i], chunks[i], chunks'[i], sentences, maxChars,
                     SizeBound(sentences, maxChars, overlapChars));
  }

  lemma WindowDetermined(w: Window, v: Window, text: string, text': string, sentences: seq<string>, maxChars: int, bound: int)
    requires ChunkOk(w, text, sentences, maxChars, bound) && ChunkOk(v, text', sentences, maxChars, bound)
    requires w.start == v.start && w.first == v.first
    ensures w == v && text == text'
  {
    EndDetermined(w, v, text, text', sentences, maxChars, bound);
    EndDetermined(v, w, text', text, sentences, maxChars, bound);
  }

  lemma OneFurther<T>(s: seq<T>, t: seq<T>, i: nat)
    requires i < |s| && i < |t| && s[..i] == t[..i] && s[i] == t[i]
    ensures s[..i + 1] == t[..i + 1]
  {
    assert s[..i + 1] == s[..i] + [s[i]] && t[..i + 1] == t[..i] + [t[i]];
  }

  /** Two packings agree window by window. */
  lemma {:induction false} PackedAgree(chunks: seq<string>, windows: seq<Window>, chunks': seq<string>, windows': seq<Window>,
                                       sentences: seq<string>, maxChars: int, overlapChars: int, k: nat)
    requires Packed(chunks, sentences, windows, maxChars, overlapChars)
    requires Packed(chunks', sentences, windows', maxChars, overlapChars)
    requires k <= |windows| && k <= |windows'|
    ensures windows[..k] == windows'[..k] && chunks[..k] == chunks'[..k]
    decreases k
  {
    if k > 0 {
      PackedAgree(chunks, windows, chunks', windows', sentences, maxChars, overlapChars, k - 1);
      WindowAgrees(chunks, windows, chunks', windows', sentences, maxChars, overlapChars, k - 1);
      OneFurther(windows, windows', k - 1);
      OneFurther(chunks, chunks', k - 1);
    }
  }

  lemma StartDetermined(before: Option<Window>, w: Window, v: Window, sentences: seq<string>, overlapChars: int)
    requires Follows(before, w.start, w.first, sentences, overlapChars)
    requires Follows(before, v.start, v.first, sentences, overlapChars)
    ensures w.start == v.start && w.first == v.first
  {
    if before.Some? {
      var p := before.value;
      SuffixDetermined(sentences[p.start..p.end], w.start - p.start, v.start - p.start, overlapChars);
    }
  }

  lemma NotShorter(chunks: seq<string>, windows: seq<Window>, chunks': seq<string>, windows': seq<Window>,
                   sentences: seq<string>, maxChars: int, overlapChars: int)
    requires Packing(chunks, sentences, windows, maxChars, overlapChars)
    requires Packing(chunks', sentences, windows', maxChars, overlapChars)
    ensures |windows| >= |windows'|
  {
    var n := |windows|;
    if n < |windows'| {
      PackedAgree(chunks, windows, chunks', windows', sentences, maxChars, overlapChars, n);
      assert windows'[..n][n - 1] == windows[n - 1];
      EndsIncrease(chunks', sentences, windows', maxChars, overlapChars, n - 1, |windows'| - 1);
    }
  }

  /** The sentences and the two limits determine the chunks: any packing of them is the one the code returns. */
  lemma PackingUnique(chunks: seq<string>, windows: seq<Window>, chunks': seq<string>, windows': seq<Window>,
                      sentences: seq<string>, maxChars: int, overlapChars: int)
    requires Packing(chunks, sentences, windows, maxChars, overlapChars)
    requires Packing(chunks', sentences, windows', maxChars, overlapChars)
    ensures chunks == chunks' && windows == windows'
  {
    NotShorter(chunks, windows, chunks', windows', sentences, maxChars, overlapChars);
    NotShorter(chunks', windows', chunks, windows, sentences, maxChars, overlapChars);
    PackedAgree(chunks, windows, chunks', windows', sentences, maxChars, overlapChars, |windows|);
    assert windows[..|windows|] == windows && windows'[..|windows'|] == windows';
    assert chunks[..|chunks|] == chunks && chunks'[..|chunks'|] == chunks';
  }

  // ---- When a chunk exceeds the limit ----

  /** The first new sentence of a window does not fit behind the overlap carried into it. */
  predicate Crowded(w: Window, sentences: seq<string>, maxChars: int)
    requires w.start <= w.first < |sentences|
  {
    |Join(sentences[w.start..w.first])| + (if w.start == w.first then 0 else 1) + |sentences[w.first]| > maxChars
  }

  /** A chunk exceeds the limit exactly when its first new sentence does not fit behind its overlap; it is then alone. */
  lemma ExceedsIff(chunks: seq<string>, sentences: seq<string>, windows: seq<Window>, maxChars: int, overlapChars: int, k: nat)
    requires Packed(chunks, sentences, windows, maxChars, overlapChars) && k < |chunks|
    ensures windows[k].start <= windows[k].first < |sentences|
    ensures |chunks[k]| > maxChars <==> Crowded(windows[k], sentences, maxChars)
    ensures |chunks[k]| > maxChars ==> windows[k].end == windows[k].first + 1
  {
    ChunksAreRuns(chunks, sentences, windows, maxChars, overlapChars, k);
    CrowdedIff(windows[k], chunks[k], sentences, maxChars, SizeBound(sentences, maxChars, overlapChars));
  }

  lemma CrowdedIff(w: Window, text: string, sentences: seq<string>, maxChars: int, bound: int)
    requires ChunkOk(w, text, sentences, maxChars, bound)
    ensures |text| > maxChars <==> Crowded(w, sentences, maxChars)
    ensures |text| > maxChars ==> w.end == w.first + 1
  {
    var head, run := sentences[w.start..w.first], sentences[w.start..w.end];
    JoinSnoc(head, sentences[w.first]);
    assert head + [sentences[w.first]] == sentences[w.start..w.first + 1];
    assert run[..w.first + 1 - w.start] == sentences[w.start..w.first + 1];
    JoinGrows(run, w.first + 1 - w.start);
  }

  /** No chunk exceeds the limit when it leaves room for an overlap, a separator and the longest sentence. */
  lemma NoChunkExceeds(chunks: seq<string>, sentences: seq<string>, windows: seq<Window>, maxChars: int, overlapChars: int, k: nat)
    requires Packed(chunks, sentences, windows, maxChars, overlapChars) && k < |chunks|
    requires Max(overlapChars, 0) + 1 + Longest(sentences) <= maxChars
    ensures |chunks[k]| <= maxChars
  {
    ChunksAreRuns(chunks, sentences, windows, maxChars, overlapChars, k);
  }

  /** No sentence fits the overlap budget: it is negative, or zero and no sentence is empty. */
  predicate NoOverlap(sentences: seq<string>, overlapChars: int) {
    overlapChars < 0 || (overlapChars == 0 && Sentences.NoneEmpty(sentences))
  }

  /**
   * Without an overlap budget some chunk exceeds the limit exactly when some sentence does.
   * A budget of zero is none, since splitting leaves no empty sentence (Sentences.PartsNotEmpty).
   */
  lemma ExceedsWithoutOverlapIff(chunks: seq<string>, sentences: seq<string>, windows: seq<Window>, maxChars: int, overlapChars: int)
    requires Packing(chunks, sentences, windows, maxChars, overlapChars) && NoOverlap(sentences, overlapChars)
    ensures (exists k :: 0 <= k < |chunks| && |chunks[k]| > maxChars)
            <==> exists i :: 0 <= i < |sentences| && |sentences[i]| > maxChars
  {
    if k :| 0 <= k < |chunks| && |chunks[k]| > maxChars {
      ExceedsIff(chunks, sentences, windows, maxChars, overlapChars, k);
      NothingCarried(chunks, sentences, windows, maxChars, overlapChars, k);
      var w := windows[k];
      assert sentences[w.start..w.first] == [];
      assert |sentences[w.first]| > maxChars;
    }
    if i :| 0 <= i < |sentences| && |sentences[i]| > maxChars {
      var k := WindowOf(chunks, sentences, windows, maxChars, overlapChars, i);
      ChunksAreRuns(chunks, sentences, windows, maxChars, overlapChars, k);
      var w := windows[k];
      SentenceInRun(sentences[w.start..w.end], i - w.start);
      assert |chunks[k]| > maxChars;
    }
  }

  lemma NothingCarried(chunks: seq<string>, sentences: seq<string>, windows: seq<Window>, maxChars: int, overlapChars: int, k: nat)
    requires Packed(chunks, sentences, windows, maxChars, overlapChars) && k < |windows|
    requires NoOverlap(sentences, overlapChars)
    ensures windows[k].start == windows[k].first
  {
    WindowFollows(chunks, sentences, windows, maxChars, overlapChars, k);
    if k > 0 {
      var p := windows[k - 1];
      NothingFits(sentences[p.start..p.end], windows[k].start - p.start, overlapChars);
    }
  }

  lemma NothingFits(run: seq<string>, b: nat, overlapChars: int)
    requires b <= |run| && Fits(run, b, overlapChars) && NoOverlap(run, overlapChars)
    ensures b == |run|
  {
    if b < |run| {
      SentenceInRun(run[b..], 0);
    }
  }

  lemma {:induction false} SentenceInRun(run: seq<string>, i: nat)
    requires i < |run|
    ensures |run[i]| <= |Join(run)|
  {
    JoinGrows(run, i + 1);
    assert run[..i + 1] == run[..i] + [run[i]];
    JoinSnoc(run[..i], run[i]);
  }

  /** Every sentence is new in some window. */
  lemma {:induction false} WindowOf(chunks: seq<string>, sentences: seq<string>, windows: seq<Window>,
                                    maxChars: int, overlapChars: int, i: nat) returns (k: nat)
    requires Packed(chunks, sentences, windows, maxChars, overlapChars)
    requires windows != [] && i < windows[|windows| - 1].end
    ensures k < |windows| && windows[k].first <= i < windows[k].end
    decreases |windows|
  {
    var n := |windows| - 1;
    if windows[n].first <= i {
      k := n;
    } else {
      k := WindowOf(chunks[..n], sentences, windows[..n], maxChars, overlapChars, i);
    }
  }

  // ---- ChunkText ----

  const CHARS_PER_TOKEN := 4

  /** `masked` is the trimmed text with its abbreviation dots masked. */
  method ChunkText(text: string, masked: string, maxTokens: int, overlapTokens: int)
      returns (chunks: seq<string>, ghost windows: seq<Window>)
    ensures Text.TrimSpace(text) == "" ==> chunks == []
    ensures Text.TrimSpace(text) != "" && (|text| <= maxTokens * 4 || Sentences.Parts(masked, 0) == []) ==>
              chunks == [text]
    ensures Text.TrimSpace(text) != "" && |text| > maxTokens * 4 && Sentences.Parts(masked, 0) != [] ==>
              var sentences := Sentences.Parts(masked, 0);
              && Sentences.CutAtBoundaries(masked, sentences)
              && Packing(chunks, sentences, windows, maxTokens * 4, overlapTokens * 4)
  {
    windows := [];
    if Text.TrimSpace(text) == "" {
      return [], [];
    }
    if |text| <= maxTokens * CHARS_PER_TOKEN {
      return [text], [];
    }
    var maxChars := maxTokens * CHARS_PER_TOKEN;
    var overlapChars := overlapTokens * CHARS_PER_TOKEN;
    var sentences := Sentences.SplitSentences(text, masked);
    if |sentences| == 0 {
      return [text], [];
    }
    chunks, windows := ChunkSentences(sentences, maxChars, overlapChars);
  }

  /** The chunks of a text, less their carried overlaps, hold the whole text but for white space. */
  lemma ChunksKeepText(text: string, masked: string, chunks: seq<string>, windows: seq<Window>, maxChars: int, overlapChars: int)
    requires Sentences.Masks(Text.TrimSpace(text), masked)
    requires forall i :: 0 <= i < |Text.TrimSpace(text)| ==> Text.TrimSpace(text)[i] != Sentences.MASK
    requires Packing(chunks, Sentences.Parts(masked, 0), windows, maxChars, overlapChars)
    ensures Sentences.Condense(Sentences.Concat(NewParts(Sentences.Parts(masked, 0), windows))) == Sentences.Condense(text)
  {
    var sentences := Sentences.Parts(masked, 0);
    OverlapsRemoved(chunks, sentences, windows, maxChars, overlapChars);
    assert sentences[..|sentences|] == sentences;
    Sentences.SplitKeepsText(text, masked);
  }

  /** With maxChars 4 and overlapChars 4, "aaaa" then "bb" gives "aaaa" and the overlong "aaaa bb". */
  lemma ExamplePacking()
    ensures Packing(["aaaa", "aaaa bb"], ["aaaa", "bb"], [Window(0, 0, 1), Window(0, 1, 2)], 4, 4)
  {
    var sentences := ["aaaa", "bb"];
    var first, second := Window(0, 0, 1), Window(0, 1, 2);
    assert sentences[0..1] == ["aaaa"] && sentences[0..2] == sentences && sentences[..1] == ["aaaa"];
    assert Join(["aaaa"]) == "aaaa" && Join(sentences) == "aaaa bb";
    assert Longest(["aaaa"]) == 4 by {
      assert ["aaaa"][..0] == [];
    }
    assert Longest(sentences) == 4;
    assert Packed([], sentences, [], 4, 4);
    CloseWindow([], sentences, [], first, "aaaa", 4, 4);
    assert ["aaaa"][0..] == ["aaaa"];
    assert LongestSuffix(["aaaa"], 0, 4);
    CloseWindow(["aaaa"], sentences, [first], second, "aaaa bb", 4, 4);
    assert [] + [first] == [first] && [first] + [second] == [first, second];
    assert [] + ["aaaa"] == ["aaaa"] && ["aaaa"] + ["aaaa bb"] == ["aaaa", "aaaa bb"];
  }

  /** A chunk can exceed the limit though every sentence fits it: these sentences have no other packing. */
  method OverlapCanExceedWindow() returns (chunks: seq<string>)
    ensures chunks == ["aaaa", "aaaa bb"]
  {
    var sentences := ["aaaa", "bb"];
    ghost var windows;
    chunks, windows := ChunkSentences(sentences, 4, 4);
    ExamplePacking();
    PackingUnique(chunks, windows, ["aaaa", "aaaa bb"], [Window(0, 0, 1), Window(0, 1, 2)], sentences, 4, 4);
  }
}
