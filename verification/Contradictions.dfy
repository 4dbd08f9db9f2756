/**
 * Contradiction detection: memories whose nearest neighbours look contradictory get a
 * contradicts edge, first by a text heuristic and then, for a bounded number of leftover
 * pairs, by asking a language model. Memories are visited in arbitrary order.
 */
module Contradictions {
  import opened Basics
  import opened MemoryGraph

  const MAX_CHUNK_LEN := 400
  const DEFAULT_MAX_CALLS := 10

  type Pair = (string, string)

  datatype Chunk = Chunk(memoryId: string, text: string)

  datatype Hit = Hit(memoryId: string, text: string, distance: real)

  /** A pair the heuristic let through, kept for the second pass. */
  datatype Leftover = Leftover(source: string, target: string, strength: real)

  /** The answer to one model call. */
  datatype Verdict = Failed | Compatible | Contradictory

  /**
   * The inputs of a pass. `hits` are the neighbours found for each memory (none where its edges or
   * its neighbours cannot be read); `contradicts` is the text heuristic, which need not be symmetric.
   */
  datatype Scan = Scan(context: set<string>, hits: map<string, seq<Hit>>, contradicts: (string, string) -> bool,
                       minSimilarity: real)

  function Similarity(h: Hit): real {
    1.0 - h.distance
  }

  // ---- One chunk per memory ----

  predicate Suitable(scan: Scan, c: Chunk) {
    c.memoryId !in scan.context && |c.text| <= 400
  }

  /** The text of the first suitable chunk of each memory that has one. */
  ghost predicate FirstSuitable(scan: Scan, chunks: seq<Chunk>, texts: map<string, string>) {
    && (forall i :: 0 <= i < |chunks| && Suitable(scan, chunks[i]) ==> chunks[i].memoryId in texts)
    && (forall id :: id in texts ==> IsFirst(scan, chunks, id, texts[id]))
  }

  ghost predicate IsFirst(scan: Scan, chunks: seq<Chunk>, id: string, text: string) {
    exists i :: 0 <= i < |chunks| && chunks[i] == Chunk(id, text) && Suitable(scan, chunks[i])
                && (forall j :: 0 <= j < i && chunks[j].memoryId == id ==> !Suitable(scan, chunks[j]))
  }

  lemma FirstStays(scan: Scan, chunks: seq<Chunk>, c: Chunk, id: string, text: string)
    requires IsFirst(scan, chunks, id, text)
    ensures IsFirst(scan, chunks + [c], id, text)
  {
    var i :| 0 <= i < |chunks| && chunks[i] == Chunk(id, text) && Suitable(scan, chunks[i])
             && (forall j :: 0 <= j < i && chunks[j].memoryId == id ==> !Suitable(scan, chunks[j]));
    assert (chunks + [c])[i] == Chunk(id, text);
  }

  lemma NewFirst(scan: Scan, chunks: seq<Chunk>, c: Chunk)
    requires Suitable(scan, c)
    requires forall i :: 0 <= i < |chunks| && chunks[i].memoryId == c.memoryId ==> !Suitable(scan, chunks[i])
    ensures IsFirst(scan, chunks + [c], c.memoryId, c.text)
  {
    assert (chunks + [c])[|chunks|] == Chunk(c.memoryId, c.text);
  }

  method SelectTexts(scan: Scan, chunks: seq<Chunk>) returns (texts: map<string, string>)
    ensures FirstSuitable(scan, chunks, texts)
  {
    texts := map[];
    for n := 0 to |chunks|
      invariant FirstSuitable(scan, chunks[..n], texts)
    {
      var c := chunks[n];
      assert chunks[..n + 1] == chunks[..n] + [c];
      forall id | id in texts ensures IsFirst(scan, chunks[..n + 1], id, texts[id]) {
        FirstStays(scan, chunks[..n], c, id, texts[id]);
      }
      if c.memoryId !in scan.context && |c.text| <= MAX_CHUNK_LEN && c.memoryId !in texts {
        NewFirst(scan, chunks[..n], c);
        texts := texts[c.memoryId := c.text];
      }
    }
    assert chunks[..|chunks|] == chunks;
  }

  // ---- What every point of a pass keeps ----

  predicate HasEdge(rels: Relations, a: string, b: string) {
    Edge(a, b, Contradicts) in rels || Edge(b, a, Contradicts) in rels
  }

  predicate Eligible(scan: Scan, id: string, h: Hit) {
    h.memoryId != id && h.memoryId !in scan.context && |h.text| <= 400
  }

  /** No memory contradicts itself and no pair is recorded in both directions. */
  predicate Clean(rels: Relations) {
    forall e :: e in rels && e.kind.Contradicts? ==>
                  e.source != e.target && Edge(e.target, e.source, Contradicts) !in rels
  }

  /**
   * Some eligible neighbour of `source` is `target`, as similar as `strength` says and similar
   * enough, and the heuristic does or does not call the two texts contradictory.
   */
  ghost predicate FoundAs(scan: Scan, texts: map<string, string>, source: string, target: string, strength: real,
                          flagged: bool) {
    && source in texts && source in scan.hits && strength >= scan.minSimilarity
    && IsNeighbour(scan, texts[source], source, target, strength, flagged)
  }

  ghost predicate IsNeighbour(scan: Scan, text: string, source: string, target: string, strength: real, flagged: bool)
    requires source in scan.hits
  {
    exists i :: 0 <= i < |scan.hits[source]| && Eligible(scan, source, scan.hits[source][i])
                && scan.hits[source][i].memoryId == target && Similarity(scan.hits[source][i]) == strength
                && scan.contradicts(text, scan.hits[source][i].text) == flagged
  }

  /** The heuristic flagged this pair, or passed it over and the model confirmed it. */
  ghost predicate Explained(scan: Scan, texts: map<string, string>, confirmed: set<Leftover>, e: Edge, strength: real) {
    && e.kind.Contradicts?
    && (|| FoundAs(scan, texts, e.source, e.target, strength, true)
        || (FoundAs(scan, texts, e.source, e.target, strength, false)
            && Leftover(e.source, e.target, strength) in confirmed))
  }

  /** `rels` adds `created` contradictions, all of them explained, to `rels0` and changes nothing else. */
  ghost predicate Adds(scan: Scan, texts: map<string, string>, confirmed: set<Leftover>, rels0: Relations, rels: Relations,
                       created: nat) {
    && (forall e :: e in rels0 ==> e in rels && rels[e] == rels0[e])
    && (forall e :: e in rels && e !in rels0 ==> Explained(scan, texts, confirmed, e, rels[e]))
    && |rels| == |rels0| + created
  }

  ghost predicate Grows(scan: Scan, texts: map<string, string>, confirmed: set<Leftover>, rels0: Relations, rels: Relations,
                        created: nat) {
    (Clean(rels0) ==> Clean(rels)) && Adds(scan, texts, confirmed, rels0, rels, created)
  }

  function Key(p: Leftover): Pair {
    Canonical(p.source, p.target)
  }

  ghost predicate Waiting(scan: Scan, texts: map<string, string>, rels: Relations, p: Leftover) {
    FoundAs(scan, texts, p.source, p.target, p.strength, false) && !HasEdge(rels, p.source, p.target)
  }

  predicate DistinctKeys(queue: seq<Leftover>) {
    forall i, j :: 0 <= i < j < |queue| ==> Key(queue[i]) != Key(queue[j])
  }

  /** The leftovers are different pairs, all processed, none with an edge yet. */
  ghost predicate Queued(scan: Scan, texts: map<string, string>, rels: Relations, processed: set<Pair>, queue: seq<Leftover>) {
    && (forall i :: 0 <= i < |queue| ==> Waiting(scan, texts, rels, queue[i]) && Key(queue[i]) in processed)
    && DistinctKeys(queue)
  }

  predicate IsHit(scan: Scan, id: string, h: Hit, key: Pair) {
    Eligible(scan, id, h) && Canonical(id, h.memoryId) == key
  }

  /** Some eligible hit of this pair is too dissimilar. */
  ghost predicate TooFar(scan: Scan, texts: map<string, string>, key: Pair) {
    exists id, i :: id in texts && id in scan.hits && 0 <= i < |scan.hits[id]|
                    && IsHit(scan, id, scan.hits[id][i], key) && Similarity(scan.hits[id][i]) < scan.minSimilarity
  }

  /** Some eligible hit of this pair was not flagged by the heuristic. */
  ghost predicate Unflagged(scan: Scan, texts: map<string, string>, key: Pair) {
    exists id, i :: id in texts && id in scan.hits && 0 <= i < |scan.hits[id]|
                    && IsHit(scan, id, scan.hits[id][i], key) && !scan.contradicts(texts[id], scan.hits[id][i].text)
  }

  predicate InQueue(queue: seq<Leftover>, key: Pair) {
    exists i :: 0 <= i < |queue| && Key(queue[i]) == key
  }

  /** The pair has an edge, a hit that is too dissimilar, or one that was not flagged and, with a model, is queued. */
  ghost predicate Decided(scan: Scan, texts: map<string, string>, rels: Relations, useModel: bool, queue: seq<Leftover>,
                          key: Pair) {
    || HasEdge(rels, key.0, key.1) || TooFar(scan, texts, key)
    || (Unflagged(scan, texts, key) && (useModel ==> InQueue(queue, key)))
  }

  ghost predicate Justified(scan: Scan, texts: map<string, string>, rels: Relations, useModel: bool, queue: seq<Leftover>,
                            processed: set<Pair>) {
    forall k :: k in processed ==> Decided(scan, texts, rels, useModel, queue, k)
  }

  ghost predicate Pass(scan: Scan, texts: map<string, string>, useModel: bool, rels0: Relations, rels: Relations,
                       created: nat, processed: set<Pair>, queue: seq<Leftover>) {
    && Grows(scan, texts, {}, rels0, rels, created)
    && Queued(scan, texts, rels, processed, queue)
    && Justified(scan, texts, rels, useModel, queue, processed)
  }

  /** `already` holds recorded pairs; an edge missing from it was written since, and then its pair is processed. */
  ghost predicate Accounted(rels: Relations, id: string, already: set<string>, processed: set<Pair>) {
    && (forall x :: x in already ==> HasEdge(rels, id, x))
    && forall x :: HasEdge(rels, id, x) ==> x in already || Canonical(id, x) in processed
  }

  function Opposite(e: Edge, id: string): string {
    if e.source == id then e.target else e.source
  }

  function AlreadyContradicts(rels: Relations, id: string): set<string> {
    set e | e in RelationsOf(rels, id) && e.kind.Contradicts? :: Opposite(e, id)
  }

  lemma AlreadyAccounts(rels: Relations, id: string, processed: set<Pair>)
    ensures Accounted(rels, id, AlreadyContradicts(rels, id), processed)
  {
    forall x | HasEdge(rels, id, x) ensures x in AlreadyContradicts(rels, id) {
      var e := if Edge(id, x, Contradicts) in rels then Edge(id, x, Contradicts) else Edge(x, id, Contradicts);
      assert e in RelationsOf(rels, id) && Opposite(e, id) == x;
    }
  }

  // ---- Small steps ----

  lemma AddKeepsAdds(scan: Scan, texts: map<string, string>, confirmed: set<Leftover>, rels0: Relations, rels: Relations,
                     created: nat, a: string, b: string, strength: real)
    requires Adds(scan, texts, confirmed, rels0, rels, created) && !HasEdge(rels, a, b)
    requires Explained(scan, texts, confirmed, Edge(a, b, Contradicts), strength)
    ensures Adds(scan, texts, confirmed, rels0, rels[Edge(a, b, Contradicts) := strength], created + 1)
  {
    var rels' := rels[Edge(a, b, Contradicts) := strength];
    assert rels'.Keys == rels.Keys + {Edge(a, b, Contradicts)};
    assert |rels'| == |rels'.Keys| && |rels| == |rels.Keys|;
  }

  lemma AddKeepsGrowth(scan: Scan, texts: map<string, string>, confirmed: set<Leftover>, rels0: Relations, rels: Relations,
                       created: nat, a: string, b: string, strength: real)
    requires Grows(scan, texts, confirmed, rels0, rels, created) && a != b && !HasEdge(rels, a, b)
    requires Explained(scan, texts, confirmed, Edge(a, b, Contradicts), strength)
    ensures Grows(scan, texts, confirmed, rels0, rels[Edge(a, b, Contradicts) := strength], created + 1)
  {
    AddKeepsAdds(scan, texts, confirmed, rels0, rels, created, a, b, strength);
  }

  /** With more pairs confirmed, what was explained still is. */
  lemma ConfirmMore(scan: Scan, texts: map<string, string>, confirmed: set<Leftover>, more: set<Leftover>,
                    rels0: Relations, rels: Relations, created: nat)
    requires Grows(scan, texts, confirmed, rels0, rels, created) && confirmed <= more
    ensures Grows(scan, texts, more, rels0, rels, created)
  {
    forall e | e in rels && e !in rels0 ensures Explained(scan, texts, more, e, rels[e]) {
      assert Explained(scan, texts, confirmed, e, rels[e]);
    }
  }

  lemma FoundApart(scan: Scan, texts: map<string, string>, a: string, b: string, strength: real, flagged: bool)
    requires FoundAs(scan, texts, a, b, strength, flagged)
    ensures a != b
  {
  }

  lemma AddKeepsWaiting(scan: Scan, texts: map<string, string>, rels: Relations, p: Leftover,
                        a: string, b: string, strength: real)
    requires Waiting(scan, texts, rels, p) && Canonical(a, b) != Key(p)
    ensures Waiting(scan, texts, rels[Edge(a, b, Contradicts) := strength], p)
  {
    CanonicalIsUnordered(a, b, p.source, p.target);
  }

  lemma AddKeepsQueued(scan: Scan, texts: map<string, string>, rels: Relations, processed: set<Pair>, queue: seq<Leftover>,
                       a: string, b: string, strength: real)
    requires Queued(scan, texts, rels, processed, queue) && Canonical(a, b) !in processed
    ensures Queued(scan, texts, rels[Edge(a, b, Contradicts) := strength], processed + {Canonical(a, b)}, queue)
  {
    forall i | 0 <= i < |queue| ensures Waiting(scan, texts, rels[Edge(a, b, Contradicts) := strength], queue[i]) {
      AddKeepsWaiting(scan, texts, rels, queue[i], a, b, strength);
    }
  }

  lemma AddKeepsJustified(scan: Scan, texts: map<string, string>, rels: Relations, useModel: bool, queue: seq<Leftover>,
                          processed: set<Pair>, a: string, b: string, strength: real)
    requires Justified(scan, texts, rels, useModel, queue, processed)
    ensures Justified(scan, texts, rels[Edge(a, b, Contradicts) := strength], useModel, queue, processed + {Canonical(a, b)})
  {
    forall k | k in processed + {Canonical(a, b)}
      ensures Decided(scan, texts, rels[Edge(a, b, Contradicts) := strength], useModel, queue, k)
    {
      if k in processed {
        assert Decided(scan, texts, rels, useModel, queue, k);
      }
    }
  }

  /** Writing the edge of a flagged pair that is neither recorded nor processed. */
  lemma AddKeepsPass(scan: Scan, texts: map<string, string>, useModel: bool, rels0: Relations, rels: Relations, created: nat,
                     processed: set<Pair>, queue: seq<Leftover>, a: string, b: string, strength: real)
    requires Pass(scan, texts, useModel, rels0, rels, created, processed, queue)
    requires FoundAs(scan, texts, a, b, strength, true) && !HasEdge(rels, a, b) && Canonical(a, b) !in processed
    ensures Pass(scan, texts, useModel, rels0, rels[Edge(a, b, Contradicts) := strength], created + 1,
                 processed + {Canonical(a, b)}, queue)
  {
    FoundApart(scan, texts, a, b, strength, true);
    AddKeepsGrowth(scan, texts, {}, rels0, rels, created, a, b, strength);
    AddKeepsQueued(scan, texts, rels, processed, queue, a, b, strength);
    AddKeepsJustified(scan, texts, rels, useModel, queue, processed, a, b, strength);
  }

  /** Passing over a pair for good. */
  lemma SkipKeepsPass(scan: Scan, texts: map<string, string>, useModel: bool, rels0: Relations, rels: Relations, created: nat,
                      processed: set<Pair>, queue: seq<Leftover>, key: Pair)
    requires Pass(scan, texts, useModel, rels0, rels, created, processed, queue)
    requires Decided(scan, texts, rels, useModel, queue, key)
    ensures Pass(scan, texts, useModel, rels0, rels, created, processed + {key}, queue)
  {
  }

  lemma QueueGrows(queue: seq<Leftover>, p: Leftover, key: Pair)
    requires InQueue(queue, key) || key == Key(p)
    ensures InQueue(queue + [p], key)
  {
    if InQueue(queue, key) {
      var i :| 0 <= i < |queue| && Key(queue[i]) == key;
      assert Key((queue + [p])[i]) == key;
    } else {
      assert Key((queue + [p])[|queue|]) == key;
    }
  }

  lemma QueueKeepsJustified(scan: Scan, texts: map<string, string>, rels: Relations, useModel: bool, queue: seq<Leftover>,
                            processed: set<Pair>, p: Leftover)
    requires Justified(scan, texts, rels, useModel, queue, processed) && Unflagged(scan, texts, Key(p))
    ensures Justified(scan, texts, rels, useModel, queue + [p], processed + {Key(p)})
  {
    forall k | k in processed + {Key(p)} ensures Decided(scan, texts, rels, useModel, queue + [p], k) {
      if k in processed {
        assert Decided(scan, texts, rels, useModel, queue, k);
      }
      if InQueue(queue, k) || k == Key(p) {
        QueueGrows(queue, p, k);
      }
    }
  }

  /** Keeping a pair for the model. */
  lemma QueueKeepsPass(scan: Scan, texts: map<string, string>, useModel: bool, rels0: Relations, rels: Relations, created: nat,
                       processed: set<Pair>, queue: seq<Leftover>, p: Leftover)
    requires Pass(scan, texts, useModel, rels0, rels, created, processed, queue)
    requires Unflagged(scan, texts, Key(p)) && Waiting(scan, texts, rels, p) && Key(p) !in processed
    ensures Pass(scan, texts, useModel, rels0, rels, created, processed + {Key(p)}, queue + [p])
  {
    QueueKeepsJustified(scan, texts, rels, useModel, queue, processed, p);
    QueueKeepsQueued(scan, texts, rels, processed, queue, p);
  }

  lemma QueueKeepsQueued(scan: Scan, texts: map<string, string>, rels: Relations, processed: set<Pair>, queue: seq<Leftover>,
                         p: Leftover)
    requires Queued(scan, texts, rels, processed, queue) && Waiting(scan, texts, rels, p) && Key(p) !in processed
    ensures Queued(scan, texts, rels, processed + {Key(p)}, queue + [p])
  {
  }

  /** A hit that is too dissimilar or not flagged accounts for passing its pair over. */
  lemma PassedOver(scan: Scan, texts: map<string, string>, id: string, i: nat)
    requires id in texts && id in scan.hits && i < |scan.hits[id]| && Eligible(scan, id, scan.hits[id][i])
    ensures var h, key := scan.hits[id][i], Canonical(id, scan.hits[id][i].memoryId);
            && (Similarity(h) < scan.minSimilarity ==> TooFar(scan, texts, key))
            && (!scan.contradicts(texts[id], h.text) ==> Unflagged(scan, texts, key))
  {
    assert IsHit(scan, id, scan.hits[id][i], Canonical(id, scan.hits[id][i].memoryId));
  }

  /** Reading around a memory or storing an edge goes wrong; nothing else stops a pass. */
  ghost predicate SomethingFails(scan: Scan, texts: map<string, string>, faults: set<Edge>) {
    faults != {} || exists id :: id in texts && id !in scan.hits
  }

  // ---- The pass itself ----

  class Store {
    var rels: Relations

    constructor (rs: Relations)
      ensures rels == rs
    {
      rels := rs;
    }

    method StoreContradiction(a: string, b: string, strength: real, faults: set<Edge>) returns (ok: bool)
      modifies this
      ensures ok <==> Edge(a, b, Contradicts) !in faults
      ensures rels == if ok then old(rels)[Edge(a, b, Contradicts) := strength] else old(rels)
    {
      ok := Edge(a, b, Contradicts) !in faults;
      if ok {
        rels := rels[Edge(a, b, Contradicts) := strength];
      }
    }

    /** One neighbour of a memory. */
    method ReviewHit(scan: Scan, texts: map<string, string>, id: string, i: nat, already: set<string>, useModel: bool,
                     faults: set<Edge>, processed: set<Pair>, queue: seq<Leftover>, ghost rels0: Relations, ghost created: nat)
        returns (processed': set<Pair>, queue': seq<Leftover>, added: nat, ok: bool)
      requires id in texts && id in scan.hits && i < |scan.hits[id]|
      requires Pass(scan, texts, useModel, rels0, rels, created, processed, queue) && Accounted(rels, id, already, processed)
      modifies this
      ensures Pass(scan, texts, useModel, rels0, rels, created + added, processed', queue')
      ensures Accounted(rels, id, already, processed') && processed <= processed'
      ensures !useModel ==> queue' == queue
      ensures ok && Eligible(scan, id, scan.hits[id][i]) ==> Canonical(id, scan.hits[id][i].memoryId) in processed'
      ensures !ok ==> faults != {}
    {
      processed', queue', added, ok := processed, queue, 0, true;
      var h := scan.hits[id][i];
      var key := Canonical(id, h.memoryId);
      if h.memoryId == id || h.memoryId in scan.context || |h.text| > MAX_CHUNK_LEN || key in processed {
        return;
      }
      PassedOver(scan, texts, id, i);
      if Similarity(h) < scan.minSimilarity {
        SkipKeepsPass(scan, texts, useModel, rels0, rels, created, processed, queue, key);
        processed' := processed + {key};
        return;
      }
      assert FoundAs(scan, texts, id, h.memoryId, Similarity(h), scan.contradicts(texts[id], h.text));
      if h.memoryId in already {
        SkipKeepsPass(scan, texts, useModel, rels0, rels, created, processed, queue, key);
        processed' := processed + {key};
        return;
      }
      if !scan.contradicts(texts[id], h.text) {
        if useModel {
          QueueKeepsPass(scan, texts, useModel, rels0, rels, created, processed, queue,
                         Leftover(id, h.memoryId, Similarity(h)));
          queue' := queue + [Leftover(id, h.memoryId, Similarity(h))];
        } else {
          SkipKeepsPass(scan, texts, useModel, rels0, rels, created, processed, queue, key);
        }
        processed' := processed + {key};
        return;
      }
      AddKeepsPass(scan, texts, useModel, rels0, rels, created, processed, queue, id, h.memoryId, Similarity(h));
      ok := StoreContradiction(id, h.memoryId, Similarity(h), faults);
      if ok {
        processed', added := processed + {key}, 1;
      }
    }

    /** All neighbours of one memory. */
    method ReviewMemory(scan: Scan, texts: map<string, string>, id: string, useModel: bool, faults: set<Edge>,
                        processed: set<Pair>, queue: seq<Leftover>, created: nat, ghost rels0: Relations)
        returns (processed': set<Pair>, queue': seq<Leftover>, created': nat, ok: bool)
      requires id in texts && id in scan.hits
      requires Pass(scan, texts, useModel, rels0, rels, created, processed, queue)
      modifies this
      ensures Pass(scan, texts, useModel, rels0, rels, created', processed', queue') && processed <= processed'
      ensures !useModel ==> queue' == queue
      ensures ok ==> Reviewed(scan, id, |scan.hits[id]|, processed')
      ensures !ok ==> faults != {}
    {
      processed', queue', created', ok := processed, queue, created, true;
      var already := AlreadyContradicts(rels, id);
      AlreadyAccounts(rels, id, processed);
      for i := 0 to |scan.hits[id]|
        invariant ok && Pass(scan, texts, useModel, rels0, rels, created', processed', queue')
        invariant Accounted(rels, id, already, processed')
        invariant processed <= processed'
        invariant !useModel ==> queue' == queue
        invariant Reviewed(scan, id, i, processed')
      {
        var added;
        ghost var before := processed';
        processed', queue', added, ok :=
          ReviewHit(scan, texts, id, i, already, useModel, faults, processed', queue', rels0, created');
        created' := created' + added;
        if !ok {
          return;
        }
        ReviewedNext(scan, id, i, before, processed');
      }
    }

    /** The heuristic pass over all selected memories, in any order; it stops at the first error. */
    method Heuristic(scan: Scan, texts: map<string, string>, useModel: bool, faults: set<Edge>)
        returns (processed: set<Pair>, queue: seq<Leftover>, created: nat, ok: bool)
      modifies this
      ensures Pass(scan, texts, useModel, old(rels), rels, created, processed, queue)
      ensures !useModel ==> queue == []
      ensures ok ==> AllReviewed(scan, texts.Keys, processed)
      ensures !ok ==> SomethingFails(scan, texts, faults)
    {
      ghost var rels0 := rels;
      processed, queue, created, ok := {}, [], 0, true;
      var todo := texts.Keys;
      while todo != {}
        invariant ok && todo <= texts.Keys && Pass(scan, texts, useModel, rels0, rels, created, processed, queue)
        invariant !useModel ==> queue == []
        invariant AllReviewed(scan, texts.Keys - todo, processed)
        decreases todo
      {
        var id :| id in todo;
        if id !in scan.hits {
          ok := false;
          return;
        }
        ghost var before := processed;
        processed, queue, created, ok := ReviewMemory(scan, texts, id, useModel, faults, processed, queue, created, rels0);
        if !ok {
          return;
        }
        ReviewedAnother(scan, texts.Keys - todo, id, before, processed);
        assert texts.Keys - (todo - {id}) == texts.Keys - todo + {id};
        todo := todo - {id};
      }
      assert texts.Keys - todo == texts.Keys;
    }

    /** The model's answer for the next leftover. */
    method SettleNext(scan: Scan, texts: map<string, string>, queue: seq<Leftover>, answer: Verdict, faults: set<Edge>,
                      created: nat, ghost confirmed: set<Leftover>, ghost rels0: Relations)
        returns (created': nat, ok: bool)
      requires |queue| > 0 && Grows(scan, texts, confirmed, rels0, rels, created) && Tail(scan, texts, rels, queue)
      modifies this
      ensures Grows(scan, texts, if answer.Contradictory? then confirmed + {queue[0]} else confirmed, rels0, rels, created')
      ensures old(rels).Keys <= rels.Keys
      ensures ok ==> Tail(scan, texts, rels, queue[1..])
      ensures ok && answer.Contradictory? ==> HasEdge(rels, queue[0].source, queue[0].target)
      ensures !ok ==> faults != {}
    {
      created', ok := created, true;
      if answer.Contradictory? {
        var p := queue[0];
        ConfirmedGrows(scan, texts, confirmed, rels0, rels, created, p);
        AddKeepsTail(scan, texts, rels, queue);
        ok := StoreContradiction(p.source, p.target, p.strength, faults);
        created' := if ok then created + 1 else created;
      } else {
        DropKeepsTail(scan, texts, rels, queue);
      }
    }

    /** Leftovers are put to the model, whose n-th answer is `answers(n)`; every attempt counts, failed ones are skipped. */
    method SecondPass(scan: Scan, texts: map<string, string>, queue: seq<Leftover>, maxCalls: int, answers: nat -> Verdict,
                      faults: set<Edge>, created: nat, ghost rels0: Relations)
        returns (created': nat, calls: nat, ok: bool)
      requires Grows(scan, texts, {}, rels0, rels, created) && Tail(scan, texts, rels, queue)
      modifies this
      ensures calls <= CallLimit(maxCalls) && calls <= |queue|
      ensures Grows(scan, texts, Confirmed(queue[..calls], answers), rels0, rels, created') && old(rels).Keys <= rels.Keys
      ensures ok ==> calls == Min(CallLimit(maxCalls), |queue|) && Heeded(queue, answers, calls, rels)
      ensures !ok ==> faults != {}
    {
      created', calls, ok := created, 0, true;
      var limit := CallLimit(maxCalls);
      assert queue[0..] == queue;
      NoneConfirmed(queue[..0], answers);
      while calls < |queue| && calls < limit
        invariant ok && calls <= |queue| && calls <= limit && old(rels).Keys <= rels.Keys
        invariant Grows(scan, texts, Confirmed(queue[..calls], answers), rels0, rels, created')
        invariant Tail(scan, texts, rels, queue[calls..])
        invariant Heeded(queue, answers, calls, rels)
        decreases |queue| - calls
      {
        var answer := answers(calls);
        ghost var before := rels;
        assert queue[calls..][1..] == queue[calls + 1..];
        created', ok :=
          SettleNext(scan, texts, queue[calls..], answer, faults, created', Confirmed(queue[..calls], answers), rels0);
        ConfirmedNext(queue, answers, calls);
        calls := calls + 1;
        if !ok {
          return;
        }
        HeededNext(queue, answers, calls - 1, before, rels);
      }
    }

    /** A whole pass. `asked` are the pairs put to the model, in order. */
    method Detect(scan: Scan, chunks: seq<Chunk>, useModel: bool, maxCalls: int, answers: nat -> Verdict, faults: set<Edge>)
        returns (created: nat, calls: nat, texts: map<string, string>, ghost asked: seq<Leftover>, ok: bool)
      modifies this
      ensures FirstSuitable(scan, chunks, texts)
      ensures |asked| == calls <= (if !useModel then 0 else if maxCalls <= 0 then 10 else maxCalls)
      ensures Questions(scan, texts, asked)
      ensures Adds(scan, texts, Confirmed(asked, answers), old(rels), rels, created)
      ensures Clean(old(rels)) ==> Clean(rels)
      ensures !useModel && NothingFlagged(scan, texts) ==> rels == old(rels)
      ensures ok ==> Complete(scan, texts, rels, useModel && calls < CallLimit(maxCalls), asked)
      ensures ok ==> Heeded(asked, answers, calls, rels)
      ensures !ok ==> SomethingFails(scan, texts, faults)
    {
      texts := SelectTexts(scan, chunks);
      ghost var rels0 := rels;
      var processed, queue;
      processed, queue, created, ok := Heuristic(scan, texts, useModel, faults);
      calls, asked := 0, [];
      NoneConfirmed(asked, answers);
      NothingToAdd(scan, texts, rels0, rels, created);
      if !ok {
        return;
      }
      ghost var rels1 := rels;
      JustifiedMeansComplete(scan, texts, rels, useModel, queue, processed);
      if useModel && |queue| > 0 {
        created, calls, ok := SecondPass(scan, texts, queue, maxCalls, answers, faults, created, rels0);
        asked := queue[..calls];
      }
      QuestionsPrefix(scan, texts, rels1, processed, queue, calls);
      if ok {
        assert queue[..|queue|] == queue;
        CompleteStays(scan, texts, rels1, rels, useModel, queue, useModel && calls < CallLimit(maxCalls), asked);
      }
    }
  }

  /** Different pairs, each found similar enough and not flagged. */
  ghost predicate Questions(scan: Scan, texts: map<string, string>, asked: seq<Leftover>) {
    && DistinctKeys(asked)
    && forall i :: 0 <= i < |asked| ==> FoundAs(scan, texts, asked[i].source, asked[i].target, asked[i].strength, false)
  }

  lemma QuestionsPrefix(scan: Scan, texts: map<string, string>, rels: Relations, processed: set<Pair>, queue: seq<Leftover>,
                        n: nat)
    requires Queued(scan, texts, rels, processed, queue) && n <= |queue|
    ensures Questions(scan, texts, queue[..n])
  {
    forall i | 0 <= i < n
      ensures FoundAs(scan, texts, queue[i].source, queue[i].target, queue[i].strength, false)
    {
      assert Waiting(scan, texts, rels, queue[i]);
    }
  }

  /** The pairs the model called contradictory. */
  ghost function Confirmed(asked: seq<Leftover>, answers: nat -> Verdict): set<Leftover> {
    set n: nat | n < |asked| && answers(n).Contradictory? :: asked[n]
  }

  lemma NoneConfirmed(asked: seq<Leftover>, answers: nat -> Verdict)
    requires asked == []
    ensures Confirmed(asked, answers) == {}
  {
  }

  lemma ConfirmedNext(queue: seq<Leftover>, answers: nat -> Verdict, n: nat)
    requires n < |queue|
    ensures Confirmed(queue[..n + 1], answers)
            == Confirmed(queue[..n], answers) + (if answers(n).Contradictory? then {queue[n]} else {})
  {
    var now, next := Confirmed(queue[..n], answers), Confirmed(queue[..n + 1], answers);
    forall p | p in now ensures p in next {
      var i: nat :| i < n && answers(i).Contradictory? && queue[..n][i] == p;
      assert queue[..n + 1][i] == p;
    }
    if answers(n).Contradictory? {
      assert queue[..n + 1][n] in next;
    }
    forall p | p in next ensures p in now || (p == queue[n] && answers(n).Contradictory?) {
      var i: nat :| i < n + 1 && answers(i).Contradictory? && queue[..n + 1][i] == p;
      if i < n {
        assert queue[..n][i] == p;
      }
    }
  }

  /** Writing the edge of a pair the model confirmed. */
  lemma ConfirmedGrows(scan: Scan, texts: map<string, string>, confirmed: set<Leftover>, rels0: Relations, rels: Relations,
                       created: nat, p: Leftover)
    requires Grows(scan, texts, confirmed, rels0, rels, created) && Waiting(scan, texts, rels, p)
    ensures Grows(scan, texts, confirmed + {p}, rels0, rels, created)
    ensures Grows(scan, texts, confirmed + {p}, rels0, rels[Edge(p.source, p.target, Contradicts) := p.strength], created + 1)
  {
    ConfirmMore(scan, texts, confirmed, confirmed + {p}, rels0, rels, created);
    FoundApart(scan, texts, p.source, p.target, p.strength, false);
    AddKeepsGrowth(scan, texts, confirmed + {p}, rels0, rels, created, p.source, p.target, p.strength);
  }

  /** The heuristic calls none of the neighbours contradictory. */
  ghost predicate NothingFlagged(scan: Scan, texts: map<string, string>) {
    forall id, i :: id in texts && id in scan.hits && 0 <= i < |scan.hits[id]| ==>
                      !scan.contradicts(texts[id], scan.hits[id][i].text)
  }

  lemma UnflaggedUnexplained(scan: Scan, texts: map<string, string>, e: Edge, strength: real)
    requires NothingFlagged(scan, texts)
    ensures !Explained(scan, texts, {}, e, strength)
  {
  }

  lemma NothingToAdd(scan: Scan, texts: map<string, string>, rels0: Relations, rels: Relations, created: nat)
    requires Adds(scan, texts, {}, rels0, rels, created)
    ensures NothingFlagged(scan, texts) ==> rels == rels0
  {
    if NothingFlagged(scan, texts) {
      forall e | e in rels ensures e in rels0 {
        UnflaggedUnexplained(scan, texts, e, rels[e]);
      }
    }
  }

  function CallLimit(maxCalls: int): (limit: nat) {
    if maxCalls <= 0 then DEFAULT_MAX_CALLS else maxCalls
  }

  /** The first `n` neighbours of this memory have been decided. */
  predicate Reviewed(scan: Scan, id: string, n: nat, processed: set<Pair>) {
    id in scan.hits && n <= |scan.hits[id]|
    && forall i :: 0 <= i < n && Eligible(scan, id, scan.hits[id][i]) ==> Canonical(id, scan.hits[id][i].memoryId) in processed
  }

  lemma ReviewedNext(scan: Scan, id: string, i: nat, before: set<Pair>, processed: set<Pair>)
    requires Reviewed(scan, id, i, before) && before <= processed && i < |scan.hits[id]|
    requires Eligible(scan, id, scan.hits[id][i]) ==> Canonical(id, scan.hits[id][i].memoryId) in processed
    ensures Reviewed(scan, id, i + 1, processed)
  {
  }

  predicate AllReviewed(scan: Scan, ids: set<string>, processed: set<Pair>) {
    forall id :: id in ids ==> id in scan.hits && Reviewed(scan, id, |scan.hits[id]|, processed)
  }

  lemma ReviewedAnother(scan: Scan, ids: set<string>, id: string, before: set<Pair>, processed: set<Pair>)
    requires AllReviewed(scan, ids, before) && before <= processed
    requires id in scan.hits && Reviewed(scan, id, |scan.hits[id]|, processed)
    ensures AllReviewed(scan, ids + {id}, processed)
  {
    forall x | x in ids ensures x in scan.hits && Reviewed(scan, x, |scan.hits[x]|, processed) {
      assert Reviewed(scan, x, |scan.hits[x]|, before);
    }
  }

  /** The leftovers still to be asked about. */
  ghost predicate Tail(scan: Scan, texts: map<string, string>, rels: Relations, queue: seq<Leftover>) {
    DistinctKeys(queue) && forall i :: 0 <= i < |queue| ==> Waiting(scan, texts, rels, queue[i])
  }

  /** The first `n` pairs the model called contradictory have their edge. */
  ghost predicate Heeded(queue: seq<Leftover>, answers: nat -> Verdict, n: nat, rels: Relations)
    requires n <= |queue|
  {
    forall i: nat :: i < n && answers(i).Contradictory? ==> HasEdge(rels, queue[i].source, queue[i].target)
  }

  lemma HeededNext(queue: seq<Leftover>, answers: nat -> Verdict, n: nat, rels: Relations, rels': Relations)
    requires n < |queue| && Heeded(queue, answers, n, rels) && rels.Keys <= rels'.Keys
    requires answers(n).Contradictory? ==> HasEdge(rels', queue[n].source, queue[n].target)
    ensures Heeded(queue, answers, n + 1, rels')
  {
  }

  lemma DropKeepsTail(scan: Scan, texts: map<string, string>, rels: Relations, queue: seq<Leftover>)
    requires |queue| > 0 && Tail(scan, texts, rels, queue)
    ensures Tail(scan, texts, rels, queue[1..])
  {
  }

  lemma AddKeepsTail(scan: Scan, texts: map<string, string>, rels: Relations, queue: seq<Leftover>)
    requires |queue| > 0 && Tail(scan, texts, rels, queue)
    ensures Tail(scan, texts, rels[Edge(queue[0].source, queue[0].target, Contradicts) := queue[0].strength], queue[1..])
  {
    var p := queue[0];
    forall i | 1 <= i < |queue|
      ensures Waiting(scan, texts, rels[Edge(p.source, p.target, Contradicts) := p.strength], queue[i])
    {
      assert Key(queue[0]) != Key(queue[i]);
      AddKeepsWaiting(scan, texts, rels, queue[i], p.source, p.target, p.strength);
    }
  }

  /**
   * Every pair of neighbours has an edge unless one of its hits was too dissimilar, or was not
   * flagged; if all leftovers were put to the model, such a pair was among them.
   */
  ghost predicate Complete(scan: Scan, texts: map<string, string>, rels: Relations, allAsked: bool, asked: seq<Leftover>) {
    forall id :: id in texts ==> id in scan.hits && CompleteFor(scan, texts, rels, allAsked, asked, id)
  }

  ghost predicate CompleteFor(scan: Scan, texts: map<string, string>, rels: Relations, allAsked: bool, asked: seq<Leftover>,
                              id: string)
    requires id in scan.hits
  {
    forall i :: 0 <= i < |scan.hits[id]| && Eligible(scan, id, scan.hits[id][i]) ==>
                  Decided(scan, texts, rels, allAsked, asked, Canonical(id, scan.hits[id][i].memoryId))
  }

  lemma JustifiedMeansComplete(scan: Scan, texts: map<string, string>, rels: Relations, useModel: bool, queue: seq<Leftover>,
                               processed: set<Pair>)
    requires Justified(scan, texts, rels, useModel, queue, processed) && AllReviewed(scan, texts.Keys, processed)
    ensures Complete(scan, texts, rels, useModel, queue)
  {
    forall id | id in texts ensures id in scan.hits && CompleteFor(scan, texts, rels, useModel, queue, id) {
      assert id in scan.hits && Reviewed(scan, id, |scan.hits[id]|, processed);
    }
  }

  lemma DecidedStays(scan: Scan, texts: map<string, string>, rels: Relations, rels': Relations, useModel: bool,
                     queue: seq<Leftover>, allAsked: bool, asked: seq<Leftover>, key: Pair)
    requires Decided(scan, texts, rels, useModel, queue, key) && rels.Keys <= rels'.Keys
    requires allAsked ==> useModel && asked == queue
    ensures Decided(scan, texts, rels', allAsked, asked, key)
  {
  }

  lemma CompleteStays(scan: Scan, texts: map<string, string>, rels: Relations, rels': Relations, useModel: bool,
                      queue: seq<Leftover>, allAsked: bool, asked: seq<Leftover>)
    requires Complete(scan, texts, rels, useModel, queue) && rels.Keys <= rels'.Keys
    requires allAsked ==> useModel && asked == queue
    ensures Complete(scan, texts, rels', allAsked, asked)
  {
    forall id | id in texts ensures id in scan.hits && CompleteFor(scan, texts, rels', allAsked, asked, id) {
      assert CompleteFor(scan, texts, rels, useModel, queue, id);
      forall i | 0 <= i < |scan.hits[id]| && Eligible(scan, id, scan.hits[id][i])
        ensures Decided(scan, texts, rels', allAsked, asked, Canonical(id, scan.hits[id][i].memoryId))
      {
        DecidedStays(scan, texts, rels, rels', useModel, queue, allAsked, asked, Canonical(id, scan.hits[id][i].memoryId));
      }
    }
  }

  /** The inputs of one pass out of many. */
  datatype PassInput = PassInput(scan: Scan, chunks: seq<Chunk>, useModel: bool, maxCalls: int, answers: nat -> Verdict,
                                 faults: set<Edge>)

  function PassLimit(p: PassInput): nat {
    if p.useModel then CallLimit(p.maxCalls) else 0
  }

  /** The texts and the asked pairs of this pass explain the edge. */
  ghost predicate FoundWith(p: PassInput, e: Edge, strength: real, texts: map<string, string>, asked: seq<Leftover>) {
    && FirstSuitable(p.scan, p.chunks, texts) && |asked| <= PassLimit(p)
    && Explained(p.scan, texts, Confirmed(asked, p.answers), e, strength)
  }

  /** This pass found the pair at or above its threshold, and flagged it or had it confirmed within its call limit. */
  ghost predicate FoundIn(p: PassInput, e: Edge, strength: real) {
    exists texts, asked :: FoundWith(p, e, strength, texts, asked)
  }

  ghost predicate FoundBefore(passes: seq<PassInput>, n: nat, e: Edge, strength: real) {
    exists i :: 0 <= i < n && i < |passes| && FoundIn(passes[i], e, strength)
  }

  /** What the first `n` passes did to the relations. */
  ghost predicate PassesAdd(passes: seq<PassInput>, n: nat, rels0: Relations, rels: Relations, created: nat) {
    && (Clean(rels0) ==> Clean(rels)) && |rels| == |rels0| + created
    && (forall e :: e in rels0 ==> e in rels && rels[e] == rels0[e])
    && (forall e :: e in rels && e !in rels0 ==> FoundBefore(passes, n, e, rels[e]))
  }

  lemma PassAdds(passes: seq<PassInput>, n: nat, texts: map<string, string>, asked: seq<Leftover>,
                 rels0: Relations, rels: Relations, rels': Relations, created: nat, made: nat)
    requires n < |passes| && PassesAdd(passes, n, rels0, rels, created)
    requires FirstSuitable(passes[n].scan, passes[n].chunks, texts) && (Clean(rels) ==> Clean(rels'))
    requires Adds(passes[n].scan, texts, Confirmed(asked, passes[n].answers), rels, rels', made)
    requires |asked| <= PassLimit(passes[n])
    ensures PassesAdd(passes, n + 1, rels0, rels', created + made)
  {
    forall e | e in rels' && e !in rels0 ensures FoundBefore(passes, n + 1, e, rels'[e]) {
      if e in rels {
        var i :| 0 <= i < n && i < |passes| && FoundIn(passes[i], e, rels[e]);
        assert FoundIn(passes[i], e, rels'[e]);
      } else {
        assert FoundWith(passes[n], e, rels'[e], texts, asked);
        assert FoundIn(passes[n], e, rels'[e]);
      }
    }
  }

  /**
   * Any number of passes, failed ones included, never records a pair twice or a memory against
   * itself; every new edge is a neighbour some pass found similar enough and flagged or had
   * confirmed, and no pass asks the model more often than it may.
   */
  method DetectRepeatedly(store: Store, passes: seq<PassInput>) returns (created: nat, calls: seq<nat>)
    modifies store
    ensures PassesAdd(passes, |passes|, old(store.rels), store.rels, created)
    ensures |calls| == |passes| && forall n :: 0 <= n < |passes| ==> calls[n] <= PassLimit(passes[n])
  {
    created, calls := 0, [];
    for n := 0 to |passes|
      invariant PassesAdd(passes, n, old(store.rels), store.rels, created)
      invariant |calls| == n && forall i :: 0 <= i < n ==> calls[i] <= PassLimit(passes[i])
    {
      var p := passes[n];
      ghost var before := store.rels;
      var made, count, texts, asked, ok := store.Detect(p.scan, p.chunks, p.useModel, p.maxCalls, p.answers, p.faults);
      PassAdds(passes, n, texts, asked, old(store.rels), before, store.rels, created, made);
      created, calls := created + made, calls + [count];
    }
  }

  /** In a clean graph two contradictions between the same two memories are the same edge. */
  lemma OneEdgePerPair(rels: Relations, e: Edge, f: Edge)
    requires Clean(rels) && e in rels && f in rels && e.kind.Contradicts? && f.kind.Contradicts?
    requires Canonical(e.source, e.target) == Canonical(f.source, f.target)
    ensures e == f && e.source != e.target
  {
    CanonicalIsUnordered(e.source, e.target, f.source, f.target);
  }
}
