/**
 * Deduplication: reconciling a batch of candidate atoms with the active atoms
 * of a project into novel atoms and supersession pairs.
 */
module Dedup {
  import opened Basics
  import opened Atoms
  import StableSort
  import Text

  datatype Pair = Pair(retired: Atom, successor: Atom)
  datatype Result = Result(novel: seq<Atom>, superseded: seq<Pair>)

  // ---- The index of existing atoms ----

  function Index(existing: seq<Atom>, now: int): map<Key, Atom> {
    if existing == [] then map[]
    else IndexStep(Index(existing[..|existing| - 1], now), existing[|existing| - 1], now)
  }

  function IndexStep(index: map<Key, Atom>, a: Atom, now: int): map<Key, Atom> {
    var k := KeyOf(a);
    if k !in index || Later(a, index[k], now) then index[k := a] else index
  }

  // ---- The batch ----

  function Unique(candidates: seq<Atom>): seq<Atom> {
    if candidates == [] then []
    else
      var front, c := candidates[..|candidates| - 1], candidates[|candidates| - 1];
      if BatchKeyOf(c) in BatchKeys(front) then Unique(front) else Unique(front) + [c]
  }

  function BatchKeys(candidates: seq<Atom>): set<BatchKey> {
    if candidates == [] then {}
    else BatchKeys(candidates[..|candidates| - 1]) + {BatchKeyOf(candidates[|candidates| - 1])}
  }

  function Order(now: int): (Atom, Atom) -> bool {
    (x, y) => BatchBefore(x, y, now)
  }

  function Batch(candidates: seq<Atom>, now: int): seq<Atom> {
    StableSort.Sort(Unique(candidates), Order(now))
  }

  // ---- The plan ----

  datatype Decision = Keep | Drop | Supersede

  predicate DistinctDatedOccurrence(existing: Atom, candidate: Atom) {
    && candidate.Event() && existing.validFrom.Some? && candidate.validFrom.Some?
    && OccurrenceDate(existing.validFrom.value) != OccurrenceDate(candidate.validFrom.value)
  }

  /** What to do with candidate `c` when `current` holds its key. */
  function Decide(current: Atom, c: Atom, now: int): Decision {
    if Text.Normalize(current.value) == Text.Normalize(c.value) then
      if DistinctDatedOccurrence(current, c) then Keep else Drop
    else if c.Event() then Keep
    else if c.confidence + CONFIDENCE_TOLERANCE + CONFIDENCE_EPSILON < current.confidence then Keep
    else if AssertionTime(c, now) < ValidityStart(current, now) then Keep
    else Supersede
  }

  datatype Plan = Plan(index: map<Key, Atom>, novel: seq<Atom>, superseded: seq<Pair>)

  function PlanStep(p: Plan, c: Atom, now: int): Plan {
    var k := KeyOf(c);
    if k !in p.index then
      p.(novel := p.novel + [c], index := if c.Event() then p.index else p.index[k := c])
    else
      match Decide(p.index[k], c, now)
      case Drop => p
      case Keep => p.(novel := p.novel + [c])
      case Supersede =>
        var linked := c.(supersedes := p.index[k].id);
        var outgoing := p.index[k].(validTo := Some(AssertionTime(c, now)));
        p.(superseded := p.superseded + [Pair(outgoing, linked)], index := p.index[k := linked])
  }

  function PlanAll(p: Plan, batch: seq<Atom>, now: int): Plan {
    if batch == [] then p
    else PlanStep(PlanAll(p, batch[..|batch| - 1], now), batch[|batch| - 1], now)
  }

  function FinalPlan(existing: seq<Atom>, candidates: seq<Atom>, now: int): Plan {
    PlanAll(Plan(Index(existing, now), [], []), Batch(candidates, now), now)
  }

  function Planned(existing: seq<Atom>, candidates: seq<Atom>, now: int): Result {
    var p := FinalPlan(existing, candidates, now);
    Result(p.novel, p.superseded)
  }

  // ---- The code: one loop for the index, one for the batch, one for the plan ----

  method BuildIndex(existing: seq<Atom>, now: int) returns (index: map<Key, Atom>)
    ensures index == Index(existing, now)
  {
    index := map[];
    for i := 0 to |existing|
      invariant index == Index(existing[..i], now)
    {
      var a := existing[i];
      var k := KeyOf(a);
      if k !in index || Later(a, index[k], now) {
        index := index[k := a];
      }
      assert existing[..i + 1][..i] == existing[..i];
    }
    assert existing[..|existing|] == existing;
  }

  method DropRepeats(candidates: seq<Atom>) returns (unique: seq<Atom>)
    ensures unique == Unique(candidates)
  {
    var seen: set<BatchKey> := {};
    unique := [];
    for i := 0 to |candidates|
      invariant seen == BatchKeys(candidates[..i])
      invariant unique == Unique(candidates[..i])
    {
      assert candidates[..i + 1][..i] == candidates[..i];
      var batchKey := BatchKeyOf(candidates[i]);
      if batchKey !in seen {
        unique := unique + [candidates[i]];
      }
      seen := seen + {batchKey};
    }
    assert candidates[..|candidates|] == candidates;
  }

  method PlanBatch(start: map<Key, Atom>, batch: seq<Atom>, now: int) returns (r: Result)
    ensures var p := PlanAll(Plan(start, [], []), batch, now);
            r == Result(p.novel, p.superseded)
  {
    var index := start;
    var novel: seq<Atom> := [];
    var superseded: seq<Pair> := [];
    for i := 0 to |batch|
      invariant Plan(index, novel, superseded) == PlanAll(Plan(start, [], []), batch[..i], now)
    {
      assert batch[..i + 1][..i] == batch[..i];
      var c := batch[i];
      var k := KeyOf(c);
      if k !in index {
        novel := novel + [c];
        if !c.Event() {
          index := index[k := c];
        }
        continue;
      }
      var current := index[k];
      if Text.Normalize(current.value) == Text.Normalize(c.value) {
        if DistinctDatedOccurrence(current, c) {
          novel := novel + [c];
        }
        continue;
      }
      if c.Event() {
        novel := novel + [c];
        continue;
      }
      if c.confidence + CONFIDENCE_TOLERANCE + CONFIDENCE_EPSILON < current.confidence {
        novel := novel + [c];
        continue;
      }
      var candidateAssertion := AssertionTime(c, now);
      if candidateAssertion < ValidityStart(current, now) {
        novel := novel + [c];
        continue;
      }
      c := c.(supersedes := current.id);
      superseded := superseded + [Pair(current.(validTo := Some(candidateAssertion)), c)];
      index := index[k := c];
    }
    assert batch[..|batch|] == batch;
    r := Result(novel, superseded);
  }

  method Deduplicate(existing: seq<Atom>, candidates: seq<Atom>, now: int) returns (r: Result)
    ensures r == Planned(existing, candidates, now)
  {
    var index := BuildIndex(existing, now);
    var unique := DropRepeats(candidates);
    var batch := StableSort.Sort(unique, Order(now));
    r := PlanBatch(index, batch, now);
  }
}
