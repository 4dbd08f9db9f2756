/**
 * When a candidate replaces the stored atom: keys are planned independently of each other, every
 * supersession has passed both gates, and a sole candidate that passes them is always one.
 */
module DedupGates {
  import opened Basics
  import opened Atoms
  import opened Dedup
  import opened DedupLaws
  import opened DedupHead
  import StableSort
  import Text

  /** The atom is more confident by over 0.2, up to rounding. */
  predicate Outweighs(current: Atom, c: Atom) {
    current.confidence > c.confidence + 0.2 + 0.000000001
  }

  /** The candidate was asserted before the atom became valid; undated atoms are asserted now. */
  predicate Predates(c: Atom, current: Atom, now: int) {
    var asserted := if c.observedAt.Some? then c.observedAt.value else now;
    if current.validFrom.Some? then asserted < current.validFrom.value
    else if current.observedAt.Some? then asserted < current.observedAt.value
    else asserted < now
  }

  predicate SameValue(a: Atom, b: Atom) {
    Text.Normalize(a.value) == Text.Normalize(b.value)
  }

  /** What being superseded does to an atom and superseding it to its successor. */
  function Closing(current: Atom, c: Atom, now: int): Pair {
    Pair(current.(validTo := if c.observedAt.Some? then c.observedAt else Some(now)), c.(supersedes := current.id))
  }

  // ---- Every supersession has passed both gates ----

  ghost predicate PassedGates(q: Pair, now: int) {
    && KeyOf(q.retired) == KeyOf(q.successor) && !q.successor.Event() && !SameValue(q.retired, q.successor)
    && !Outweighs(q.retired, q.successor) && !Predates(q.successor, q.retired, now)
    && q.successor.supersedes == q.retired.id
    && q.retired.validTo == (if q.successor.observedAt.Some? then q.successor.observedAt else Some(now))
  }

  ghost predicate KeyedIndex(index: map<Key, Atom>) {
    forall k :: k in index ==> KeyOf(index[k]) == k
  }

  ghost predicate AllPassed(p: Plan, now: int) {
    KeyedIndex(p.index) && forall i :: 0 <= i < |p.superseded| ==> PassedGates(p.superseded[i], now)
  }

  lemma StepPasses(p: Plan, c: Atom, now: int)
    requires AllPassed(p, now)
    ensures AllPassed(PlanStep(p, c, now), now)
  {
    var k := KeyOf(c);
    if k in p.index && Decide(p.index[k], c, now).Supersede? {
      assert KeyOf(p.index[k]) == k;
      var q := PlanStep(p, c, now);
      assert q.superseded == p.superseded + [Closing(p.index[k], c, now)];
      assert PassedGates(Closing(p.index[k], c, now), now);
    }
  }

  lemma {:induction false} AllStepsPass(p: Plan, batch: seq<Atom>, now: int)
    requires AllPassed(p, now)
    ensures AllPassed(PlanAll(p, batch, now), now)
  {
    if batch != [] {
      AllStepsPass(p, batch[..|batch| - 1], now);
      StepPasses(PlanAll(p, batch[..|batch| - 1], now), batch[|batch| - 1], now);
    }
  }

  /** Nothing is superseded by a candidate that is much less confident, too early, an event or no news. */
  lemma SupersessionsPassedGates(existing: seq<Atom>, candidates: seq<Atom>, now: int, q: Pair)
    requires q in Planned(existing, candidates, now).superseded
    ensures PassedGates(q, now)
  {
    IndexHoldsLatest(existing, now);
    AllStepsPass(Plan(Index(existing, now), [], []), Batch(candidates, now), now);
  }

  // ---- Keys are planned on their own ----

  function HasKey(k: Key): Atom -> bool {
    (a: Atom) => KeyOf(a) == k
  }

  function PairHasKey(k: Key): Pair -> bool {
    (q: Pair) => KeyOf(q.successor) == k
  }

  function Lookup(p: Plan, k: Key): Option<Atom> {
    if k in p.index then Some(p.index[k]) else None
  }

  /** Two plans that cannot be told apart under key k. */
  ghost predicate SameUnder(p: Plan, q: Plan, k: Key) {
    && Filter(p.novel, HasKey(k)) == Filter(q.novel, HasKey(k))
    && Filter(p.superseded, PairHasKey(k)) == Filter(q.superseded, PairHasKey(k))
    && Lookup(p, k) == Lookup(q, k)
  }

  /** The plan grows by these and has this head under k. */
  ghost predicate Grown(p: Plan, p': Plan, novel: seq<Atom>, pairs: seq<Pair>, k: Key, head: Option<Atom>) {
    p'.novel == p.novel + novel && p'.superseded == p.superseded + pairs && Lookup(p', k) == head
  }

  lemma GrownFilters(p: Plan, p': Plan, novel: seq<Atom>, pairs: seq<Pair>, k: Key, head: Option<Atom>)
    requires Grown(p, p', novel, pairs, k, head)
    ensures Filter(p'.novel, HasKey(k)) == Filter(p.novel, HasKey(k)) + Filter(novel, HasKey(k))
    ensures Filter(p'.superseded, PairHasKey(k)) == Filter(p.superseded, PairHasKey(k)) + Filter(pairs, PairHasKey(k))
  {
    FilterAppend(p.novel, novel, HasKey(k));
    FilterAppend(p.superseded, pairs, PairHasKey(k));
  }

  /** What a step adds depends on the candidate and the head of its key alone. */
  function Added(head: Option<Atom>, c: Atom, now: int): Result {
    if head.None? then Result([c], [])
    else match Decide(head.value, c, now)
      case Drop => Result([], [])
      case Keep => Result([c], [])
      case Supersede => Result([], [Closing(head.value, c, now)])
  }

  function NewHead(head: Option<Atom>, c: Atom, now: int): Option<Atom> {
    if head.None? then (if c.Event() then None else Some(c))
    else if Decide(head.value, c, now).Supersede? then Some(c.(supersedes := head.value.id))
    else head
  }

  lemma StepAdds(p: Plan, c: Atom, k: Key, now: int)
    ensures var r := Added(Lookup(p, KeyOf(c)), c, now);
            Grown(p, PlanStep(p, c, now), r.novel, r.superseded, k,
                  if KeyOf(c) == k then NewHead(Lookup(p, k), c, now) else Lookup(p, k))
  {
  }

  lemma AddedKeys(head: Option<Atom>, c: Atom, k: Key, now: int)
    ensures var r := Added(head, c, now);
            && Filter(r.novel, HasKey(k)) == (if KeyOf(c) == k then r.novel else [])
            && Filter(r.superseded, PairHasKey(k)) == (if KeyOf(c) == k then r.superseded else [])
  {
    var r := Added(head, c, now);
    FilterSingle(r.novel, HasKey(k));
    FilterSingle(r.superseded, PairHasKey(k));
  }

  lemma FilterSingle<T>(s: seq<T>, p: T -> bool)
    requires |s| <= 1
    ensures Filter(s, p) == if s != [] && p(s[0]) then s else []
  {
  }

  lemma OtherKeyStep(p: Plan, q: Plan, c: Atom, k: Key, now: int)
    requires SameUnder(p, q, k) && KeyOf(c) != k
    ensures SameUnder(PlanStep(p, c, now), q, k)
  {
    var r := Added(Lookup(p, KeyOf(c)), c, now);
    StepAdds(p, c, k, now);
    AddedKeys(Lookup(p, KeyOf(c)), c, k, now);
    GrownFilters(p, PlanStep(p, c, now), r.novel, r.superseded, k, Lookup(p, k));
  }

  lemma SameKeyStep(p: Plan, q: Plan, c: Atom, now: int)
    requires SameUnder(p, q, KeyOf(c))
    ensures SameUnder(PlanStep(p, c, now), PlanStep(q, c, now), KeyOf(c))
  {
    var k := KeyOf(c);
    var r, head := Added(Lookup(p, k), c, now), NewHead(Lookup(p, k), c, now);
    StepAdds(p, c, k, now);
    StepAdds(q, c, k, now);
    GrownFilters(p, PlanStep(p, c, now), r.novel, r.superseded, k, head);
    GrownFilters(q, PlanStep(q, c, now), r.novel, r.superseded, k, head);
  }

  lemma FilterSnoc<T>(s: seq<T>, x: T, p: T -> bool)
    ensures Filter(s + [x], p) == if p(x) then Filter(s, p) + [x] else Filter(s, p)
  {
    FilterAppend(s, [x], p);
  }

  /** Candidates of other keys have no influence on what is planned under a key. */
  lemma {:induction false} KeysPlannedAlone(p: Plan, batch: seq<Atom>, k: Key, now: int)
    ensures SameUnder(PlanAll(p, batch, now), PlanAll(p, Filter(batch, HasKey(k)), now), k)
  {
    if batch != [] {
      var front, c := batch[..|batch| - 1], batch[|batch| - 1];
      assert batch == front + [c];
      KeysPlannedAlone(p, front, k, now);
      FilterSnoc(front, c, HasKey(k));
      var alone := Filter(front, HasKey(k));
      if KeyOf(c) == k {
        SameKeyStep(PlanAll(p, front, now), PlanAll(p, alone, now), c, now);
        assert (alone + [c])[..|alone|] == alone;
      } else {
        OtherKeyStep(PlanAll(p, front, now), PlanAll(p, alone, now), c, k, now);
      }
    }
  }

  // ---- A sole candidate ----

  /** Sorting leaves a sole candidate of its key the sole one. */
  lemma SoleInBatch(candidates: seq<Atom>, c: Atom, now: int)
    requires Filter(Unique(candidates), HasKey(KeyOf(c))) == [c]
    ensures Filter(Batch(candidates, now), HasKey(KeyOf(c))) == [c]
  {
    var u, b, p := Unique(candidates), Batch(candidates, now), HasKey(KeyOf(c));
    StableSort.SortPermutes(u, Order(now));
    SamePartMultiset(b, u, p);
    PermutationMembers(Filter(b, p), [c]);
    assert Filter(b, p)[0] in Filter(b, p);
  }

  /** What is planned under a key. */
  function PlannedUnder(r: Result, k: Key): Result {
    Result(Filter(r.novel, HasKey(k)), Filter(r.superseded, PairHasKey(k)))
  }

  lemma OneStep(index: map<Key, Atom>, c: Atom, now: int)
    requires !c.Event()
    ensures var p := PlanStep(Plan(index, [], []), c, now);
            PlannedUnder(Result(p.novel, p.superseded), KeyOf(c)) == SoleFate(index, c, now)
  {
    var start, k := Plan(index, [], []), KeyOf(c);
    StepAdds(start, c, k, now);
    AddedKeys(Lookup(start, k), c, k, now);
    var p, r := PlanStep(start, c, now), Added(Lookup(start, k), c, now);
    assert p.novel == r.novel && p.superseded == r.superseded;
    AddedIsFate(index, c, now);
  }

  lemma AddedIsFate(index: map<Key, Atom>, c: Atom, now: int)
    requires !c.Event()
    ensures Added(Lookup(Plan(index, [], []), KeyOf(c)), c, now) == SoleFate(index, c, now)
  {
  }

  /** The candidate is new, known, held back beside the stored atom, or its successor. */
  function SoleFate(index: map<Key, Atom>, c: Atom, now: int): Result {
    if KeyOf(c) !in index then Result([c], [])
    else
      var current := index[KeyOf(c)];
      if SameValue(current, c) then Result([], [])
      else if Outweighs(current, c) || Predates(c, current, now) then Result([c], [])
      else Result([], [Closing(current, c, now)])
  }

  /**
   * Whatever else is in the batch, a sole candidate of its key that is no event is inserted beside
   * a stored atom of another value exactly when that atom outweighs it or it predates that atom;
   * otherwise it supersedes that atom, and nothing else is planned under the key.
   */
  lemma SoleCandidate(existing: seq<Atom>, candidates: seq<Atom>, c: Atom, now: int)
    requires Filter(Unique(candidates), HasKey(KeyOf(c))) == [c] && !c.Event()
    ensures PlannedUnder(Planned(existing, candidates, now), KeyOf(c)) == SoleFate(Index(existing, now), c, now)
  {
    var start, b := Plan(Index(existing, now), [], []), Batch(candidates, now);
    SoleInBatch(candidates, c, now);
    KeysPlannedAlone(start, b, KeyOf(c), now);
    assert [c][..0] == [];
    assert PlanAll(start, [c], now) == PlanStep(start, c, now);
    OneStep(Index(existing, now), c, now);
  }
}
