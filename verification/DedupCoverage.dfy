/** What planning does with every candidate: no reported value is lost, and events are judged on their own. */
module DedupCoverage {
  import opened Basics
  import opened Atoms
  import opened Dedup
  import opened DedupLaws
  import opened DedupHead
  import StableSort
  import Text

  // ---- No value is lost ----

  /** The atom is stored, planned for insertion, or planned as a successor. */
  ghost predicate Appears(p: Plan, existing: seq<Atom>, a: Atom) {
    a in existing || a in p.novel || Succeeds(p, a)
  }

  ghost predicate Succeeds(p: Plan, a: Atom) {
    exists q :: q in p.superseded && q.successor == a
  }

  predicate SaysTheSame(a: Atom, c: Atom) {
    KeyOf(a) == KeyOf(c) && Text.Normalize(a.value) == Text.Normalize(c.value)
  }

  /** Some stored or planned atom says what `c` says. */
  ghost predicate Carries(p: Plan, existing: seq<Atom>, c: Atom) {
    exists a :: Appears(p, existing, a) && SaysTheSame(a, c)
  }

  ghost predicate HeadsAppear(p: Plan, existing: seq<Atom>) {
    forall k :: k in p.index ==> Appears(p, existing, p.index[k]) && KeyOf(p.index[k]) == k
  }

  lemma AppearsStays(p: Plan, existing: seq<Atom>, c: Atom, now: int, a: Atom)
    requires Appears(p, existing, a)
    ensures Appears(PlanStep(p, c, now), existing, a)
  {
    if Succeeds(p, a) {
      var q :| q in p.superseded && q.successor == a;
      assert q in PlanStep(p, c, now).superseded;
    }
  }

  /** A successor written by a step appears in its plan. */
  lemma SuccessorAppears(p: Plan, existing: seq<Atom>, pair: Pair)
    requires p.superseded != [] && p.superseded[|p.superseded| - 1] == pair
    ensures Appears(p, existing, pair.successor)
  {
    assert pair in p.superseded;
  }

  lemma StepKeepsHeads(p: Plan, existing: seq<Atom>, c: Atom, now: int)
    requires HeadsAppear(p, existing)
    ensures HeadsAppear(PlanStep(p, c, now), existing)
    ensures Carries(PlanStep(p, c, now), existing, c)
  {
    var p' := PlanStep(p, c, now);
    var k := KeyOf(c);
    if k in p.index && Decide(p.index[k], c, now).Supersede? {
      var pair := p'.superseded[|p'.superseded| - 1];
      SuccessorAppears(p', existing, pair);
      assert SaysTheSame(pair.successor, c);
    } else if k in p.index && Decide(p.index[k], c, now).Drop? {
      assert Appears(p', existing, p.index[k]) && SaysTheSame(p.index[k], c);
    } else {
      assert Appears(p', existing, c) && SaysTheSame(c, c);
    }
    forall h | h in p'.index ensures Appears(p', existing, p'.index[h]) && KeyOf(p'.index[h]) == h {
      if h in p.index && p'.index[h] == p.index[h] {
        AppearsStays(p, existing, c, now, p.index[h]);
      }
    }
  }

  lemma CarriesStays(p: Plan, existing: seq<Atom>, c: Atom, now: int, d: Atom)
    requires Carries(p, existing, d)
    ensures Carries(PlanStep(p, c, now), existing, d)
  {
    var a :| Appears(p, existing, a) && SaysTheSame(a, d);
    AppearsStays(p, existing, c, now, a);
  }

  lemma {:induction false} BatchCarried(p: Plan, existing: seq<Atom>, batch: seq<Atom>, now: int)
    requires HeadsAppear(p, existing)
    ensures HeadsAppear(PlanAll(p, batch, now), existing)
    ensures forall c :: c in batch ==> Carries(PlanAll(p, batch, now), existing, c)
  {
    if batch != [] {
      var front, last := batch[..|batch| - 1], batch[|batch| - 1];
      BatchCarried(p, existing, front, now);
      StepKeepsHeads(PlanAll(p, front, now), existing, last, now);
      forall c | c in batch ensures Carries(PlanAll(p, batch, now), existing, c) {
        if c in front {
          CarriesStays(PlanAll(p, front, now), existing, last, now, c);
        }
      }
    }
  }

  lemma IndexAppears(existing: seq<Atom>, now: int)
    ensures HeadsAppear(Plan(Index(existing, now), [], []), existing)
  {
    IndexHoldsLatest(existing, now);
  }

  /** The batch holds a candidate with the same batch key. */
  lemma BatchHolds(candidates: seq<Atom>, c: Atom, now: int) returns (kept: Atom)
    requires c in candidates
    ensures kept in Batch(candidates, now) && SaysTheSame(kept, c)
  {
    var u, b := Unique(candidates), Batch(candidates, now);
    FirstCarrierKept(candidates, c);
    kept :| kept in u && BatchKeyOf(kept) == BatchKeyOf(c);
    StableSort.SortPermutes(u, Order(now));
    PermutationMembers(b, u);
  }

  lemma CarriesSame(p: Plan, existing: seq<Atom>, kept: Atom, c: Atom)
    requires Carries(p, existing, kept) && SaysTheSame(kept, c)
    ensures Carries(p, existing, c)
  {
    var a :| Appears(p, existing, a) && SaysTheSame(a, kept);
    assert SaysTheSame(a, c);
  }

  /** Whatever a candidate reports, an atom with its key and value is stored or planned. */
  lemma NoValueLost(existing: seq<Atom>, candidates: seq<Atom>, c: Atom, now: int)
    requires c in candidates
    ensures Carries(FinalPlan(existing, candidates, now), existing, c)
  {
    var kept := BatchHolds(candidates, c, now);
    IndexAppears(existing, now);
    BatchCarried(Plan(Index(existing, now), [], []), existing, Batch(candidates, now), now);
    CarriesSame(FinalPlan(existing, candidates, now), existing, kept, c);
  }

  // ---- Which candidates are one report ----

  predicate SameText(s: string, t: string) {
    Text.Normalize(s) == Text.Normalize(t)
  }

  /** The day an event happened on; undated events share one. */
  function Day(a: Atom): int {
    if a.validFrom.Some? then a.validFrom.value / 86400 else 0
  }

  /**
   * Two candidates are one report exactly when project, type, subject, relation and value agree up to
   * case and surrounding space and, for events, the day of the occurrence agrees too.
   */
  lemma SameReportIff(a: Atom, b: Atom)
    ensures SameReport(a, b) <==>
              && a.project == b.project && a.kind == b.kind
              && SameText(a.subject, b.subject) && SameText(a.relation, b.relation) && SameText(a.value, b.value)
              && (a.kind == "event" ==> Day(a) == Day(b))
  {
    OccurrenceDates(if a.validFrom.Some? then a.validFrom.value else 0, if b.validFrom.Some? then b.validFrom.value else 0);
  }

  // ---- Events ----

  /** An event is inserted unless the stored atom says the same without a different date. */
  predicate EventKept(index: map<Key, Atom>, c: Atom) {
    || KeyOf(c) !in index
    || Text.Normalize(index[KeyOf(c)].value) != Text.Normalize(c.value)
    || (index[KeyOf(c)].validFrom.Some? && c.validFrom.Some?
        && index[KeyOf(c)].validFrom.value / 86400 != c.validFrom.value / 86400)
  }

  ghost predicate SameEvents(p: Plan, q: Plan) {
    forall k: Key :: k.kind == TYPE_EVENT ==>
       (k in p.index <==> k in q.index) && (k in p.index ==> p.index[k] == q.index[k])
  }

  /** Planning never touches what the index says about events. */
  lemma {:induction false} EventIndexFixed(p: Plan, batch: seq<Atom>, now: int)
    ensures SameEvents(p, PlanAll(p, batch, now))
  {
    if batch != [] {
      EventIndexFixed(p, batch[..|batch| - 1], now);
    }
  }

  lemma OccurrenceDates(s: int, t: int)
    ensures OccurrenceDate(s) == OccurrenceDate(t) <==> s / 86400 == t / 86400
  {
  }

  lemma EventDecision(current: Atom, c: Atom, index: map<Key, Atom>, now: int)
    requires c.Event() && KeyOf(c) in index && index[KeyOf(c)] == current
    ensures Decide(current, c, now).Keep? <==> EventKept(index, c)
    ensures !Decide(current, c, now).Supersede?
  {
    if current.validFrom.Some? && c.validFrom.Some? {
      OccurrenceDates(current.validFrom.value, c.validFrom.value);
    }
  }

  lemma EventStep(p: Plan, last: Atom, c: Atom, index: map<Key, Atom>, now: int)
    requires c.Event() && (KeyOf(c) in p.index <==> KeyOf(c) in index)
    requires KeyOf(c) in index ==> p.index[KeyOf(c)] == index[KeyOf(c)]
    ensures c in PlanStep(p, last, now).novel <==> c in p.novel || (c == last && EventKept(index, c))
  {
    if KeyOf(c) in index {
      EventDecision(index[KeyOf(c)], c, index, now);
    }
  }

  lemma {:induction false} EventsPlanned(p: Plan, batch: seq<Atom>, c: Atom, now: int)
    requires c.Event()
    ensures c in PlanAll(p, batch, now).novel <==> c in p.novel || (c in batch && EventKept(p.index, c))
  {
    if batch != [] {
      var front, last := batch[..|batch| - 1], batch[|batch| - 1];
      assert batch == front + [last];
      EventsPlanned(p, front, c, now);
      EventIndexFixed(p, front, now);
      EventStep(PlanAll(p, front, now), last, c, p.index, now);
    }
  }

  /**
   * Every event candidate is judged against the stored atoms alone: it is inserted exactly when it
   * survives batch deduplication and the stored atom of its key, if any, differs in value or date.
   */
  lemma EventsJudgedAlone(existing: seq<Atom>, candidates: seq<Atom>, c: Atom, now: int)
    requires c.Event()
    ensures c in Planned(existing, candidates, now).novel <==> c in Unique(candidates) && EventKept(Index(existing, now), c)
  {
    var u, b := Unique(candidates), Batch(candidates, now);
    StableSort.SortPermutes(u, Order(now));
    PermutationMembers(b, u);
    EventsPlanned(Plan(Index(existing, now), [], []), b, c, now);
  }
}
