/**
 * What a plan promises the table it will be run against: every retired atom is
 * available, retired once, not an event, and closed no earlier than it started.
 */
module PlanFacts {
  import opened Basics
  import opened Atoms
  import opened Dedup
  import opened DedupLaws
  import AtomTable
  import StableSort

  /** All atoms that exist, stored or planned, by id; their content never changes. */
  type Registry = map<string, Atom>

  ghost predicate Known(a: Atom, known: Registry) {
    a.id in known && known[a.id] == a.Content()
  }

  /** An atom as the worker hands it to planning: identified, dated, open and unlinked. */
  ghost predicate Candidate(a: Atom, known: Registry) {
    Known(a, known) && a.id != "" && a.observedAt.Some? && a.Active() && a.supersedes == ""
  }

  ghost predicate Stored(a: Atom, known: Registry) {
    Known(a, known) && a.id != "" && a.observedAt.Some?
  }

  /** A link a plan may write: same key, never an event, closed at the successor's assertion. */
  ghost predicate SoundPair(p: Pair, known: Registry) {
    && Stored(p.retired, known) && Stored(p.successor, known)
    && KeyOf(p.retired) == KeyOf(p.successor) && !p.retired.Event()
    && p.successor.supersedes == p.retired.id != p.successor.id
    && p.successor.Active()
    && p.retired.validTo == Some(AssertionTime(p.successor, 0))
    && ValidityStart(p.retired, 0) <= AssertionTime(p.successor, 0)
  }

  ghost function NovelIds(p: Plan): set<string> {
    set a | a in p.novel :: a.id
  }

  ghost function SuccessorIds(pairs: seq<Pair>): set<string> {
    set q | q in pairs :: q.successor.id
  }

  ghost function RetiredIds(pairs: seq<Pair>): set<string> {
    set q | q in pairs :: q.retired.id
  }

  /** Every head is sound and still open once the plan so far has been carried out. */
  ghost predicate HeadsOpen(p: Plan, known: Registry, ids: set<string>) {
    forall k :: k in p.index ==>
      && KeyOf(p.index[k]) == k
      && Stored(p.index[k], known)
      && p.index[k].id in ids + NovelIds(p) + SuccessorIds(p.superseded)
      && p.index[k].id !in RetiredIds(p.superseded)
  }

  /** Pair i retires an atom that is stored, newly inserted, or a successor of an earlier pair. */
  ghost predicate Available(novel: set<string>, pairs: seq<Pair>, ids: set<string>) {
    forall i :: 0 <= i < |pairs| ==>
      && pairs[i].retired.id in ids + novel + SuccessorIds(pairs[..i])
      && pairs[i].retired.id !in RetiredIds(pairs[..i])
  }

  /** Planned ids are new and used once. */
  ghost predicate FreshIds(p: Plan, ids: set<string>, used: set<string>) {
    && NovelIds(p) + SuccessorIds(p.superseded) <= used
    && ids !! used
    && NovelIds(p) !! SuccessorIds(p.superseded)
    && (forall i, j :: 0 <= i < j < |p.novel| ==> p.novel[i].id != p.novel[j].id)
    && (forall i, j :: 0 <= i < j < |p.superseded| ==> p.superseded[i].successor.id != p.superseded[j].successor.id)
  }

  ghost predicate PlanInv(p: Plan, known: Registry, ids: set<string>, used: set<string>) {
    && HeadsOpen(p, known, ids)
    && Available(NovelIds(p), p.superseded, ids)
    && FreshIds(p, ids, used)
    && (forall a :: a in p.novel ==> Candidate(a, known))
    && (forall q :: q in p.superseded ==> SoundPair(q, known))
  }

  // ---- One planning step keeps the invariant ----

  lemma NovelSets(p: Plan, c: Atom, index: map<Key, Atom>)
    ensures NovelIds(p.(novel := p.novel + [c], index := index)) == NovelIds(p) + {c.id}
  {
    var q := p.(novel := p.novel + [c], index := index);
    assert c in q.novel;
    forall a | a in p.novel ensures a in q.novel {
    }
  }

  lemma NovelStep(p: Plan, c: Atom, known: Registry, ids: set<string>, used: set<string>, head: bool)
    requires PlanInv(p, known, ids, used) && Candidate(c, known) && c.id !in ids + used
    ensures var q := p.(novel := p.novel + [c], index := if head then p.index[KeyOf(c) := c] else p.index);
            PlanInv(q, known, ids, used + {c.id})
  {
    var q := p.(novel := p.novel + [c], index := if head then p.index[KeyOf(c) := c] else p.index);
    NovelSets(p, c, q.index);
    RetiredAreKnown(NovelIds(p), p.superseded, ids);
    assert HeadsOpen(q, known, ids);
    assert FreshIds(q, ids, used + {c.id});
    assert Available(NovelIds(q), q.superseded, ids);
  }

  lemma RetiredAreKnown(novel: set<string>, pairs: seq<Pair>, ids: set<string>)
    requires Available(novel, pairs, ids)
    ensures RetiredIds(pairs) <= ids + novel + SuccessorIds(pairs)
  {
    forall x | x in RetiredIds(pairs) ensures x in ids + novel + SuccessorIds(pairs) {
      var q :| q in pairs && q.retired.id == x;
      var i :| 0 <= i < |pairs| && pairs[i] == q;
      assert forall r :: r in pairs[..i] ==> r in pairs;
    }
  }

  lemma PairSets(pairs: seq<Pair>, q: Pair)
    ensures SuccessorIds(pairs + [q]) == SuccessorIds(pairs) + {q.successor.id}
    ensures RetiredIds(pairs + [q]) == RetiredIds(pairs) + {q.retired.id}
  {
    assert q in pairs + [q];
    forall r | r in pairs ensures r in pairs + [q] {
    }
  }

  lemma AvailableSnoc(novel: set<string>, pairs: seq<Pair>, q: Pair, ids: set<string>)
    requires Available(novel, pairs, ids)
    requires q.retired.id in ids + novel + SuccessorIds(pairs) && q.retired.id !in RetiredIds(pairs)
    ensures Available(novel, pairs + [q], ids)
  {
    var all := pairs + [q];
    forall i | 0 <= i < |all|
      ensures all[i].retired.id in ids + novel + SuccessorIds(all[..i]) && all[i].retired.id !in RetiredIds(all[..i])
    {
      if i < |pairs| {
        assert all[..i] == pairs[..i] && all[i] == pairs[i];
      } else {
        assert all[..i] == pairs;
      }
    }
  }

  /** The pair a supersession step writes, as a sound link. */
  lemma SupersedePairSound(p: Plan, c: Atom, known: Registry, ids: set<string>, now: int)
    requires HeadsOpen(p, known, ids) && Candidate(c, known)
    requires KeyOf(c) in p.index && Decide(p.index[KeyOf(c)], c, now).Supersede? && p.index[KeyOf(c)].id != c.id
    ensures SoundPair(Pair(p.index[KeyOf(c)].(validTo := Some(AssertionTime(c, now))),
                           c.(supersedes := p.index[KeyOf(c)].id)), known)
  {
    var current := p.index[KeyOf(c)];
    var pair := Pair(current.(validTo := Some(AssertionTime(c, now))), c.(supersedes := current.id));
    assert KeyOf(pair.retired) == KeyOf(current) && KeyOf(pair.successor) == KeyOf(c);
    assert pair.retired.Content() == current.Content() && pair.successor.Content() == c.Content();
  }

  /** After a supersession every other head is still open, and the successor is the new head. */
  lemma SupersedeHeads(p: Plan, q: Plan, c: Atom, pair: Pair, known: Registry, ids: set<string>, used: set<string>)
    requires HeadsOpen(p, known, ids) && KeyOf(c) in p.index && Stored(pair.successor, known)
    requires q == Plan(p.index[KeyOf(c) := pair.successor], p.novel, p.superseded + [pair])
    requires KeyOf(pair.successor) == KeyOf(c) && pair.retired.id == p.index[KeyOf(c)].id != pair.successor.id
    requires pair.successor.id !in RetiredIds(p.superseded)
    ensures HeadsOpen(q, known, ids)
  {
    PairSets(p.superseded, pair);
    assert NovelIds(q) == NovelIds(p);
    forall h | h in q.index ensures KeyOf(q.index[h]) == h && Stored(q.index[h], known)
                              && q.index[h].id in ids + NovelIds(q) + SuccessorIds(q.superseded)
                              && q.index[h].id !in RetiredIds(q.superseded)
    {
      if h != KeyOf(c) {
        DistinctHeads(p, known, ids, h, KeyOf(c));
      }
    }
  }

  lemma SupersedeStep(p: Plan, c: Atom, known: Registry, ids: set<string>, used: set<string>, now: int)
    requires PlanInv(p, known, ids, used) && Candidate(c, known) && c.id !in ids + used
    requires KeyOf(c) in p.index && Decide(p.index[KeyOf(c)], c, now).Supersede?
    ensures PlanInv(PlanStep(p, c, now), known, ids, used + {c.id})
  {
    var current := p.index[KeyOf(c)];
    var pair := Pair(current.(validTo := Some(AssertionTime(c, now))), c.(supersedes := current.id));
    var q := PlanStep(p, c, now);
    assert q == Plan(p.index[KeyOf(c) := pair.successor], p.novel, p.superseded + [pair]);
    RetiredAreKnown(NovelIds(p), p.superseded, ids);
    SupersedePairSound(p, c, known, ids, now);
    PairSets(p.superseded, pair);
    AvailableSnoc(NovelIds(p), p.superseded, pair, ids);
    SupersedeHeads(p, q, c, pair, known, ids, used);
    assert NovelIds(q) == NovelIds(p);
    SupersedeFresh(p, q, pair, ids, used);
  }

  lemma SupersedeFresh(p: Plan, q: Plan, pair: Pair, ids: set<string>, used: set<string>)
    requires FreshIds(p, ids, used) && q.novel == p.novel && q.superseded == p.superseded + [pair]
    requires pair.successor.id !in ids + used
    ensures FreshIds(q, ids, used + {pair.successor.id})
  {
    PairSets(p.superseded, pair);
    assert NovelIds(q) == NovelIds(p);
    forall i | 0 <= i < |p.superseded| ensures p.superseded[i].successor.id in SuccessorIds(p.superseded) {
      assert p.superseded[i] in p.superseded;
    }
  }

  /** Content determines the key, so heads of different keys are different atoms. */
  lemma DistinctHeads(p: Plan, known: Registry, ids: set<string>, h: Key, k: Key)
    requires HeadsOpen(p, known, ids) && h in p.index && k in p.index && h != k
    ensures p.index[h].id != p.index[k].id
  {
    assert KeyOf(p.index[h]) == KeyOf(p.index[h].Content());
    assert KeyOf(p.index[k]) == KeyOf(p.index[k].Content());
  }

  lemma StepKeepsPlanInv(p: Plan, c: Atom, known: Registry, ids: set<string>, used: set<string>, now: int)
    requires PlanInv(p, known, ids, used) && Candidate(c, known) && c.id !in ids + used
    ensures PlanInv(PlanStep(p, c, now), known, ids, used + {c.id})
  {
    var k := KeyOf(c);
    if k !in p.index {
      NovelStep(p, c, known, ids, used, !c.Event());
    } else {
      match Decide(p.index[k], c, now)
      case Drop =>
      case Keep => NovelStep(p, c, known, ids, used, false);
      case Supersede => SupersedeStep(p, c, known, ids, used, now);
    }
  }

  // ---- A whole plan ----

  ghost function IdsOf(s: seq<Atom>): set<string> {
    set a | a in s :: a.id
  }

  lemma {:induction false} UniqueKeepsPairwise(s: seq<Atom>, r: (Atom, Atom) -> bool)
    requires Pairwise(s, r)
    ensures Pairwise(Unique(s), r)
  {
    if s != [] {
      var front, c := s[..|s| - 1], s[|s| - 1];
      PairwisePrefix(s, |s| - 1, r);
      UniqueKeepsPairwise(front, r);
      forall i | 0 <= i < |Unique(front)| ensures r(Unique(front)[i], c) && r(c, Unique(front)[i]) {
        UniqueMembers(front, Unique(front)[i]);
        var j :| 0 <= j < |front| && front[j] == Unique(front)[i];
        assert s[j] == front[j];
      }
    }
  }

  lemma BatchMembers(candidates: seq<Atom>, now: int)
    requires Pairwise(candidates, AtomTable.DifferentIds())
    ensures Pairwise(Batch(candidates, now), AtomTable.DifferentIds())
    ensures forall c :: c in Batch(candidates, now) ==> c in candidates
  {
    var u := Unique(candidates);
    UniqueKeepsPairwise(candidates, AtomTable.DifferentIds());
    StableSort.SortPermutes(u, Order(now));
    PairwisePermutes(u, Batch(candidates, now), AtomTable.DifferentIds());
    PermutationMembers(u, Batch(candidates, now));
    forall c | c in u ensures c in candidates {
      UniqueMembers(candidates, c);
    }
  }

  lemma {:induction false} PlanAllKeepsInv(p: Plan, batch: seq<Atom>, known: Registry, ids: set<string>, now: int)
    requires PlanInv(p, known, ids, {}) && ids !! IdsOf(batch)
    requires Pairwise(batch, AtomTable.DifferentIds())
    requires forall c :: c in batch ==> Candidate(c, known)
    ensures PlanInv(PlanAll(p, batch, now), known, ids, IdsOf(batch))
  {
    if batch != [] {
      var front, c := batch[..|batch| - 1], batch[|batch| - 1];
      assert batch == front + [c];
      PairwisePrefix(batch, |batch| - 1, AtomTable.DifferentIds());
      assert IdsOf(batch) == IdsOf(front) + {c.id} by {
        assert c in batch;
        forall a | a in front ensures a in batch {
        }
      }
      PlanAllKeepsInv(p, front, known, ids, now);
      assert c.id !in IdsOf(front) by {
        forall a | a in front ensures a.id != c.id {
          var j :| 0 <= j < |front| && front[j] == a;
          assert AtomTable.DifferentIds()(batch[j], batch[|batch| - 1]);
        }
      }
      StepKeepsPlanInv(PlanAll(p, front, now), c, known, ids, IdsOf(front), now);
    }
  }

  /** Every plan made from distinct stored atoms and new distinct candidates is sound. */
  lemma PlanIsSound(existing: seq<Atom>, candidates: seq<Atom>, known: Registry, now: int)
    requires Pairwise(candidates, AtomTable.DifferentIds())
    requires forall a :: a in existing ==> Stored(a, known)
    requires forall c :: c in candidates ==> Candidate(c, known)
    requires IdsOf(existing) !! IdsOf(candidates)
    ensures PlanInv(FinalPlan(existing, candidates, now), known, IdsOf(existing), IdsOf(candidates))
  {
    var start := Plan(Index(existing, now), [], []);
    IndexHoldsLatest(existing, now);
    BatchMembers(candidates, now);
    var batch := Batch(candidates, now);
    forall x | x in IdsOf(batch) ensures x in IdsOf(candidates) {
      var c :| c in batch && c.id == x;
      assert c in candidates;
    }
    PlanAllKeepsInv(start, batch, known, IdsOf(existing), now);
  }
}
