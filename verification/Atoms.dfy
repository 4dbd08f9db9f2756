/**
 * Atoms: typed beliefs extracted from memories, the keys that make two atoms
 * compete, and the two clocks that order them (assertion time and validity).
 *
 * Times are integers counted from Go's zero time, so 0 is `time.Time{}`.
 */
module Atoms {
  import opened Basics
  import Text

  const TYPE_EVENT := "event"
  const TYPE_STATUS_CHANGE := "status_change"
  const SECONDS_PER_DAY := 86400

  /** A candidate may supersede an atom up to 0.2 more confident than itself. */
  const CONFIDENCE_TOLERANCE: real := 0.2
  const CONFIDENCE_EPSILON: real := 0.000000001

  /** `supersedes == ""` is the SQL NULL: the atom replaces nothing. */
  datatype Atom = Atom(
    id: string,
    project: string,
    kind: string,
    subject: string,
    relation: string,
    value: string,
    statement: string,
    validFrom: Option<int>,
    validTo: Option<int>,
    observedAt: Option<int>,
    confidence: real,
    supersedes: string,
    createdAt: int)
  {
    predicate Active() {
      validTo.None?
    }

    predicate Event() {
      kind == TYPE_EVENT
    }

    predicate StatusChange() {
      kind == TYPE_STATUS_CHANGE
    }

    /** The part of an atom no store operation ever rewrites. */
    function Content(): Atom {
      this.(validTo := None, supersedes := "", createdAt := 0)
    }
  }

  datatype Key = Key(project: string, kind: string, subject: string, relation: string)

  function KeyOf(a: Atom): Key {
    Key(a.project, a.kind, Text.Normalize(a.subject), Text.Normalize(a.relation))
  }

  function OccurrenceDate(t: int): int {
    t - t % SECONDS_PER_DAY
  }

  /** Candidates with equal batch keys are one candidate. */
  datatype BatchKey = BatchKey(key: Key, value: string, eventDate: int)

  function BatchKeyOf(a: Atom): BatchKey {
    BatchKey(KeyOf(a), Text.Normalize(a.value),
             if a.Event() && a.validFrom.Some? then OccurrenceDate(a.validFrom.value) else 0)
  }

  function AssertionTime(a: Atom, now: int): int {
    if a.observedAt.Some? then a.observedAt.value else now
  }

  function ValidityStart(a: Atom, now: int): int {
    if a.validFrom.Some? then a.validFrom.value else AssertionTime(a, now)
  }

  /** Asserted later, with creation time breaking ties. */
  predicate Later(a: Atom, b: Atom, now: int) {
    var ta, tb := AssertionTime(a, now), AssertionTime(b, now);
    if ta != tb then ta > tb else a.createdAt > b.createdAt
  }

  predicate KeyLess(a: Key, b: Key) {
    if a.project != b.project then Text.Less(a.project, b.project)
    else if a.kind != b.kind then Text.Less(a.kind, b.kind)
    else if a.subject != b.subject then Text.Less(a.subject, b.subject)
    else Text.Less(a.relation, b.relation)
  }

  lemma KeyLessTransitive(a: Key, b: Key, c: Key)
    requires KeyLess(a, b) && KeyLess(b, c)
    ensures KeyLess(a, c)
  {
    LessOrder(a.project, b.project, c.project);
    LessOrder(a.kind, b.kind, c.kind);
    LessOrder(a.subject, b.subject, c.subject);
    LessOrder(a.relation, b.relation, c.relation);
  }

  lemma LessOrder(a: string, b: string, c: string)
    ensures !Text.Less(a, a) && !Text.Less(b, b) && !Text.Less(c, c)
    ensures Text.Less(a, b) && Text.Less(b, c) ==> Text.Less(a, c)
    ensures Text.Less(a, b) ==> !Text.Less(b, a)
  {
    Text.LessIrreflexive(a);
    Text.LessIrreflexive(b);
    Text.LessIrreflexive(c);
    if Text.Less(a, b) && Text.Less(b, c) {
      Text.LessTransitive(a, b, c);
    }
    if Text.Less(a, b) && Text.Less(b, a) {
      Text.LessTransitive(a, b, a);
    }
  }

  lemma KeyLessIrreflexive(a: Key)
    ensures !KeyLess(a, a)
  {
    Text.LessIrreflexive(a.relation);
  }

  lemma KeyLessTotal(a: Key, b: Key)
    ensures a == b || KeyLess(a, b) || KeyLess(b, a)
  {
    Text.LessTotal(a.project, b.project);
    Text.LessTotal(a.kind, b.kind);
    Text.LessTotal(a.subject, b.subject);
    Text.LessTotal(a.relation, b.relation);
  }

  /** The batch order: other atoms first, then status changes by key and assertion time. */
  predicate BatchBefore(left: Atom, right: Atom, now: int) {
    if left.StatusChange() != right.StatusChange() then !left.StatusChange()
    else if !left.StatusChange() then false
    else if KeyOf(left) != KeyOf(right) then KeyLess(KeyOf(left), KeyOf(right))
    else AssertionTime(left, now) < AssertionTime(right, now)
  }
}
