/**
 * The atom store as an object and one extraction job run against it: load the
 * active atoms, plan, insert the novel atoms, then retire predecessors one by one.
 */
module AtomWorker {
  import opened Basics
  import opened Atoms
  import opened AtomTable
  import opened AtomWrites
  import opened Chains
  import opened Dedup
  import opened PlanFacts
  import StableSort

  /** `ORDER BY observed_at DESC NULLS LAST, created_at DESC`. */
  predicate MoreRecent(a: Atom, b: Atom) {
    if a.observedAt != b.observedAt then
      a.observedAt.Some? && (b.observedAt.None? || a.observedAt.value > b.observedAt.value)
    else a.createdAt > b.createdAt
  }

  lemma MoreRecentIsWeak()
    ensures StableSort.StrictWeakOrder(MoreRecent)
  {
  }

  /** Observed most recently first, undated atoms last, and among equals created most recently first. */
  ghost predicate RecentFirst(atoms: seq<Atom>) {
    forall i, j :: 0 <= i < j < |atoms| ==>
      && (atoms[j].observedAt.Some? ==> atoms[i].observedAt.Some? && atoms[i].observedAt.value >= atoms[j].observedAt.value)
      && (atoms[i].observedAt == atoms[j].observedAt ==> atoms[i].createdAt >= atoms[j].createdAt)
  }

  lemma OrderedIsRecentFirst(atoms: seq<Atom>)
    requires StableSort.Ordered(atoms, MoreRecent)
    ensures RecentFirst(atoms)
  {
    forall i, j | 0 <= i < j < |atoms| ensures !MoreRecent(atoms[j], atoms[i]) {
    }
  }

  /** `insertAtom` makes up an id for an atom that has none. */
  function WithId(a: Atom, newId: string): Atom {
    if a.id == "" then a.(id := newId) else a
  }

  /** What is written for an atom: an id, a creation and an observation time if missing; nothing else is touched. */
  lemma StampedFields(a: Atom, newId: string, clock: int)
    ensures var b := Stamped(WithId(a, newId), clock);
            && b.id == (if a.id == "" then newId else a.id)
            && b.createdAt == (if a.createdAt == 0 then clock else a.createdAt)
            && b.observedAt == (if a.observedAt.None? then Some(b.createdAt) else a.observedAt)
            && b == a.(id := b.id, createdAt := b.createdAt, observedAt := b.observedAt)
  {
  }

  class AtomStore {
    var rows: seq<Atom>

    constructor ()
      ensures rows == []
    {
      rows := [];
    }

    /** `fault` stands for a failed statement: nothing is written. */
    method InsertAtom(a: Atom, newId: string, clock: int, fault: bool) returns (ok: bool)
      modifies this
      ensures ok == !fault
      ensures rows == if ok then Insert(old(rows), Stamped(WithId(a, newId), clock)) else old(rows)
    {
      if fault {
        return false;
      }
      rows := Insert(rows, Stamped(WithId(a, newId), clock));
      return true;
    }

    method RetireAtom(id: string, validTo: int, superseding: Atom, newId: string, clock: int, fault: bool) returns (ok: bool)
      modifies this
      ensures ok <==> !fault && Retire(old(rows), id, validTo, Stamped(WithId(superseding, newId), clock)).Some?
      ensures rows == if ok then Retire(old(rows), id, validTo, Stamped(WithId(superseding, newId), clock)).value
                      else old(rows)
    {
      var before := rows;
      if fault {
        return false;
      }
      var n := Stamped(WithId(superseding, newId), clock);
      if Position(rows, n.id) < |rows| {
        return false;
      }
      rows := rows + [n];
      PositionIsFirst(rows, id);
      var i := Position(rows, id);
      if i == |rows| || !rows[i].Active() {
        rows := before;
        return false;
      }
      rows := rows[i := rows[i].(validTo := Some(validTo))];
      return true;
    }

    method GetActiveAtoms(project: string) returns (atoms: seq<Atom>)
      requires UniqueIds(rows)
      ensures IsSnapshot(atoms, rows, project) && RecentFirst(atoms)
    {
      var found: seq<Atom> := [];
      for i := 0 to |rows|
        invariant forall a :: a in found <==> a in rows[..i] && a.project == project && a.Active()
        invariant Pairwise(found, DifferentIds())
      {
        if rows[i].project == project && rows[i].Active() {
          forall a | a in found ensures a.id != rows[i].id {
            var j :| 0 <= j < i && rows[j] == a;
          }
          found := found + [rows[i]];
        }
        assert rows[..i + 1] == rows[..i] + [rows[i]];
      }
      assert rows[..|rows|] == rows;
      atoms := StableSort.Sort(found, MoreRecent);
      StableSort.SortPermutes(found, MoreRecent);
      MoreRecentIsWeak();
      StableSort.SortOrders(found, MoreRecent);
      OrderedIsRecentFirst(atoms);
      PermutationMembers(atoms, found);
      PairwisePermutes(found, atoms, DifferentIds());
    }
  }

  datatype Outcome = Done | Failed

  /** The id if there was none, the project and the observation time if there was none; nothing else is touched. */
  predicate CompletedFrom(c: Atom, a: Atom, newId: string, project: string, sessionDate: int) {
    && (if a.id == "" then c.id == newId else c.id == a.id) && c.project == project
    && (if a.observedAt.None? then c.observedAt == Some(sessionDate) else c.observedAt == a.observedAt)
    && c == a.(id := c.id, project := c.project, observedAt := c.observedAt)
  }

  predicate IsPrepared(candidates: seq<Atom>, extracted: seq<Atom>, newIds: seq<string>, project: string, sessionDate: int) {
    && |candidates| == |extracted| == |newIds|
    && forall i :: 0 <= i < |extracted| ==> CompletedFrom(candidates[i], extracted[i], newIds[i], project, sessionDate)
  }

  method PrepareCandidates(extracted: seq<Atom>, newIds: seq<string>, project: string, sessionDate: int)
      returns (candidates: seq<Atom>)
    requires |newIds| == |extracted|
    ensures IsPrepared(candidates, extracted, newIds, project, sessionDate)
  {
    candidates := [];
    for i := 0 to |extracted|
      invariant |candidates| == i
      invariant forall j :: 0 <= j < i ==> CompletedFrom(candidates[j], extracted[j], newIds[j], project, sessionDate)
    {
      var c := extracted[i];
      if c.id == "" {
        c := c.(id := newIds[i]);
      }
      c := c.(project := project);
      if c.observedAt.None? {
        c := c.(observedAt := Some(sessionDate));
      }
      candidates := candidates + [c];
    }
  }

  // ---- The writes of a plan, as tables ----

  function Inserted(t: Table, atoms: seq<Atom>, clock: nat -> int): Table {
    if atoms == [] then t
    else
      var n := |atoms| - 1;
      Insert(Inserted(t, atoms[..n], clock), Stamped(atoms[n], clock(n)))
  }

  function RetirePair(t: Table, pair: Pair, clock: int, dryRun: bool): Option<Table> {
    if pair.retired.validTo.None? then Some(t)
    else if dryRun then Some(Insert(t, Stamped(pair.successor.(supersedes := ""), clock)))
    else Retire(t, pair.retired.id, pair.retired.validTo.value, Stamped(pair.successor, clock))
  }

  /** None as soon as one retirement does not commit. */
  function Retired(t: Table, pairs: seq<Pair>, clock: nat -> int, dryRun: bool): Option<Table> {
    if pairs == [] then Some(t)
    else
      var n := |pairs| - 1;
      match Retired(t, pairs[..n], clock, dryRun)
      case None => None
      case Some(u) => RetirePair(u, pairs[n], clock(n), dryRun)
  }

  // ---- A dry run retires nothing ----

  /** This row is the n-th successor, stored without its link and otherwise as given. */
  predicate Unlinked(row: Atom, pairs: seq<Pair>, n: nat) {
    && n < |pairs| && row.supersedes == "" && row.id == pairs[n].successor.id
    && row.Content() == pairs[n].successor.(observedAt := row.observedAt).Content()
    && row.validTo == pairs[n].successor.validTo
    && (pairs[n].successor.observedAt.Some? ==> row.observedAt == pairs[n].successor.observedAt)
  }

  ghost predicate SomeUnlinked(row: Atom, pairs: seq<Pair>) {
    exists n: nat :: Unlinked(row, pairs, n)
  }

  /** Every old row is as it was, every new one is a successor without its link, and no successor is missing. */
  ghost predicate OnlyUnlinked(t: Table, u: Table, pairs: seq<Pair>) {
    && |t| <= |u| && u[..|t|] == t
    && (forall i :: |t| <= i < |u| ==> SomeUnlinked(u[i], pairs))
    && (forall n :: 0 <= n < |pairs| && pairs[n].retired.validTo.Some? ==> Has(u, pairs[n].successor.id))
  }

  lemma OneUnlinked(t: Table, u: Table, front: seq<Pair>, q: Pair, clock: int)
    requires OnlyUnlinked(t, u, front)
    ensures RetirePair(u, q, clock, true).Some? && OnlyUnlinked(t, RetirePair(u, q, clock, true).value, front + [q])
  {
    var v, pairs := RetirePair(u, q, clock, true).value, front + [q];
    InsertEffect(u, Stamped(q.successor.(supersedes := ""), clock));
    assert |v| > |u| ==> v[|u|].id == q.successor.id && Unlinked(v[|u|], pairs, |front|);
    forall i | |t| <= i < |v| ensures SomeUnlinked(v[i], pairs) {
      if i < |u| {
        assert v[i] == u[i] && SomeUnlinked(u[i], front);
        var n: nat :| Unlinked(u[i], front, n);
        assert Unlinked(v[i], pairs, n);
      }
    }
    forall n | 0 <= n < |pairs| && pairs[n].retired.validTo.Some? ensures Has(v, pairs[n].successor.id) {
      if n < |front| {
        assert pairs[n] == front[n] && Has(u, front[n].successor.id);
        var i :| 0 <= i < |u| && u[i].id == front[n].successor.id;
        assert v[i].id == pairs[n].successor.id;
      }
    }
  }

  /** A dry run never fails to commit and leaves every stored row as it was. */
  lemma {:induction false} DryRunRetiresNothing(t: Table, pairs: seq<Pair>, clock: nat -> int)
    ensures Retired(t, pairs, clock, true).Some? && OnlyUnlinked(t, Retired(t, pairs, clock, true).value, pairs)
  {
    if pairs != [] {
      var n := |pairs| - 1;
      DryRunRetiresNothing(t, pairs[..n], clock);
      assert pairs == pairs[..n] + [pairs[n]];
      OneUnlinked(t, Retired(t, pairs[..n], clock, true).value, pairs[..n], pairs[n], clock(n));
    }
  }

  /** Writes the novel atoms in order, stopping at the first failed statement. Candidates have ids by now. */
  method InsertAll(store: AtomStore, atoms: seq<Atom>, clock: nat -> int, faults: nat -> bool)
      returns (done: nat)
    modifies store
    ensures done <= |atoms| && (done < |atoms| ==> faults(done))
    ensures store.rows == Inserted(old(store.rows), atoms[..done], clock)
  {
    done := 0;
    while done < |atoms|
      invariant done <= |atoms| && store.rows == Inserted(old(store.rows), atoms[..done], clock)
    {
      assert atoms[..done + 1][..done] == atoms[..done];
      var ok := store.InsertAtom(atoms[done], "", clock(done), faults(done));
      if !ok {
        return;
      }
      done := done + 1;
    }
  }

  /** Carries out the supersessions in order, stopping at the first that fails or does not commit. */
  method RetireAll(store: AtomStore, pairs: seq<Pair>, clock: nat -> int, faults: nat -> bool, dryRun: bool)
      returns (done: nat)
    modifies store
    ensures done <= |pairs|
    ensures Retired(old(store.rows), pairs[..done], clock, dryRun) == Some(store.rows)
    ensures done < |pairs| ==> faults(done) || RetirePair(store.rows, pairs[done], clock(done), dryRun).None?
    ensures dryRun ==> OnlyUnlinked(old(store.rows), store.rows, pairs[..done])
  {
    done := 0;
    ghost var before := store.rows;
    while done < |pairs|
      invariant done <= |pairs| && Retired(old(store.rows), pairs[..done], clock, dryRun) == Some(store.rows)
    {
      assert pairs[..done + 1][..done] == pairs[..done];
      var pair := pairs[done];
      if pair.retired.validTo.Some? {
        var ok;
        if dryRun {
          ok := store.InsertAtom(pair.successor.(supersedes := ""), "", clock(done), faults(done));
        } else {
          ok := store.RetireAtom(pair.retired.id, pair.retired.validTo.value, pair.successor, "", clock(done), faults(done));
        }
        if !ok {
          DryRunRetiresNothing(before, pairs[..done], clock);
          return;
        }
      }
      done := done + 1;
    }
    DryRunRetiresNothing(before, pairs[..done], clock);
  }

  /**
   * One job after extraction. `loadFails` stands for a failed read of the active atoms, in
   * which case every candidate is inserted without deduplication.
   */
  method ProcessJob(store: AtomStore, project: string, candidates: seq<Atom>, now: int, loadFails: bool,
                    clock: nat -> int, insertFaults: nat -> bool, retireFaults: nat -> bool, dryRun: bool)
      returns (plan: Result, inserted: nat, retired: nat, outcome: Outcome)
    requires UniqueIds(store.rows)
    modifies store
    ensures if loadFails then plan == Result(candidates, [])
            else exists existing :: IsSnapshot(existing, old(store.rows), project)
                                    && plan == Planned(existing, candidates, now)
    ensures inserted <= |plan.novel| && retired <= |plan.superseded| && (inserted < |plan.novel| ==> retired == 0)
    ensures outcome.Done? <==> inserted == |plan.novel| && retired == |plan.superseded|
    ensures Retired(Inserted(old(store.rows), plan.novel[..inserted], clock),
                    plan.superseded[..retired], clock, dryRun) == Some(store.rows)
    ensures inserted < |plan.novel| ==> insertFaults(inserted)
    ensures inserted == |plan.novel| && retired < |plan.superseded| ==>
              || retireFaults(retired)
              || RetirePair(store.rows, plan.superseded[retired], clock(retired), dryRun).None?
  {
    if loadFails {
      plan := Result(candidates, []);
    } else {
      var existing := store.GetActiveAtoms(project);
      plan := Deduplicate(existing, candidates, now);
    }
    retired := 0;
    inserted := InsertAll(store, plan.novel, clock, insertFaults);
    if inserted < |plan.novel| {
      return plan, inserted, 0, Failed;
    }
    retired := RetireAll(store, plan.superseded, clock, retireFaults, dryRun);
    outcome := if retired < |plan.superseded| then Failed else Done;
  }

  // ---- An uninterrupted plan executes ----

  lemma OnlyClosesTransitive(t: Table, u: Table, v: Table)
    requires OnlyCloses(t, u) && OnlyCloses(u, v)
    ensures OnlyCloses(t, v)
  {
  }

  lemma IdsSnoc(s: seq<Atom>, a: Atom)
    ensures IdsOf(s + [a]) == IdsOf(s) + {a.id}
  {
    assert a in s + [a];
    forall b | b in s ensures b in s + [a] {
    }
  }

  ghost predicate NewDistinct(atoms: seq<Atom>, t: Table, known: Registry) {
    && (forall a :: a in atoms ==> Candidate(a, known) && !Has(t, a.id))
    && (forall i, j :: 0 <= i < j < |atoms| ==> atoms[i].id != atoms[j].id)
  }

  /** `u` extends `t` by `count` active rows and by exactly the ids `added`. */
  ghost predicate Grown(t: Table, u: Table, known: Registry, added: set<string>, count: nat) {
    && Sound(u, known) && OnlyCloses(t, u)
    && ActiveCount(u) == ActiveCount(t) + count
    && (forall x :: Has(u, x) <==> Has(t, x) || x in added)
  }

  /** Inserting new distinct candidates adds one active row for each. */
  lemma {:induction false} InsertsExecute(t: Table, atoms: seq<Atom>, clock: nat -> int, known: Registry)
    requires Sound(t, known) && NewDistinct(atoms, t, known)
    ensures Grown(t, Inserted(t, atoms, clock), known, IdsOf(atoms), |atoms|)
    ensures forall x :: ActiveId(Inserted(t, atoms, clock), x) <==> ActiveId(t, x) || x in IdsOf(atoms)
  {
    if atoms != [] {
      var n := |atoms| - 1;
      var front, a := atoms[..n], atoms[n];
      assert atoms == front + [a];
      assert a in atoms;
      InsertsExecute(t, front, clock, known);
      IdsSnoc(front, a);
      var u := Inserted(t, front, clock);
      assert !Has(u, a.id) by {
        assert a.id !in IdsOf(front);
      }
      InsertStep(u, a, clock(n), known);
      OnlyClosesTransitive(t, u, Inserted(t, atoms, clock));
    }
  }

  ghost predicate Runnable(t: Table, pairs: seq<Pair>, known: Registry) {
    && (forall q :: q in pairs ==> SoundPair(q, known) && !Has(t, q.successor.id))
    && (forall i, j :: 0 <= i < j < |pairs| ==> pairs[i].successor.id != pairs[j].successor.id)
    && (forall i :: 0 <= i < |pairs| ==>
          && (ActiveId(t, pairs[i].retired.id) || pairs[i].retired.id in SuccessorIds(pairs[..i]))
          && pairs[i].retired.id !in RetiredIds(pairs[..i]))
  }

  lemma RunnablePrefix(t: Table, pairs: seq<Pair>, n: nat, known: Registry)
    requires Runnable(t, pairs, known) && n <= |pairs|
    ensures Runnable(t, pairs[..n], known)
  {
    forall i | 0 <= i < n
      ensures pairs[..n][..i] == pairs[..i]
    {
    }
  }

  /** The active ids of `u`: those of `t` and the successors, less the retired. */
  ghost predicate Handover(t: Table, u: Table, pairs: seq<Pair>) {
    forall x :: ActiveId(u, x) <==> (ActiveId(t, x) || x in SuccessorIds(pairs)) && x !in RetiredIds(pairs)
  }

  lemma HandoverStep(t: Table, u: Table, v: Table, front: seq<Pair>, q: Pair)
    requires Handover(t, u, front) && q.successor.id !in RetiredIds(front) && q.successor.id != q.retired.id
    requires forall x :: ActiveId(v, x) <==> (ActiveId(u, x) && x != q.retired.id) || x == q.successor.id
    ensures Handover(t, v, front + [q])
  {
    PairSets(front, q);
  }

  lemma GrownStep(t: Table, u: Table, v: Table, known: Registry, added: set<string>, count: nat, id: string)
    requires Grown(t, u, known, added, count) && Sound(v, known) && OnlyCloses(u, v)
    requires ActiveCount(v) == ActiveCount(u)
    requires forall x :: Has(v, x) <==> Has(u, x) || x == id
    ensures Grown(t, v, known, added + {id}, count)
  {
    OnlyClosesTransitive(t, u, v);
  }

  lemma RetiredSnoc(t: Table, front: seq<Pair>, q: Pair, clock: nat -> int, dryRun: bool)
    requires Retired(t, front, clock, dryRun).Some?
    ensures Retired(t, front + [q], clock, dryRun)
            == RetirePair(Retired(t, front, clock, dryRun).value, q, clock(|front|), dryRun)
  {
    assert (front + [q])[..|front|] == front;
  }

  /** All of `pairs` have been carried out on `t`. */
  ghost predicate CarriedOut(t: Table, u: Option<Table>, pairs: seq<Pair>, known: Registry) {
    u.Some? && Grown(t, u.value, known, SuccessorIds(pairs), 0) && Handover(t, u.value, pairs)
  }

  lemma NothingToCarryOut(t: Table, known: Registry)
    requires Sound(t, known)
    ensures CarriedOut(t, Some(t), [], known)
  {
    assert SuccessorIds([]) == {} && RetiredIds([]) == {};
  }

  lemma CarryOutLast(t: Table, front: seq<Pair>, q: Pair, clock: nat -> int, known: Registry)
    requires Runnable(t, front + [q], known) && Runnable(t, front, known)
    requires CarriedOut(t, Retired(t, front, clock, false), front, known)
    ensures CarriedOut(t, Retired(t, front + [q], clock, false), front + [q], known)
  {
    RetiredSnoc(t, front, q, clock, false);
    RetireOneMore(t, Retired(t, front, clock, false).value, front, q, clock(|front|), known);
  }

  lemma RunnableFront(t: Table, front: seq<Pair>, q: Pair, known: Registry)
    requires Runnable(t, front + [q], known)
    ensures Runnable(t, front, known)
  {
    RunnablePrefix(t, front + [q], |front|, known);
    assert (front + [q])[..|front|] == front;
  }

  /** Every retirement of a runnable plan commits; the number of active atoms is conserved. */
  lemma {:induction false} RetiresExecute(t: Table, pairs: seq<Pair>, clock: nat -> int, known: Registry)
    requires Sound(t, known) && Runnable(t, pairs, known)
    ensures CarriedOut(t, Retired(t, pairs, clock, false), pairs, known)
  {
    if pairs == [] {
      NothingToCarryOut(t, known);
    } else {
      var front, q := pairs[..|pairs| - 1], pairs[|pairs| - 1];
      assert pairs == front + [q];
      RunnableFront(t, front, q, known);
      RetiresExecute(t, front, clock, known);
      CarryOutLast(t, front, q, clock, known);
    }
  }

  /** The next retirement of a runnable plan, after those before it. */
  lemma RetireOneMore(t: Table, u: Table, front: seq<Pair>, q: Pair, clock: int, known: Registry)
    requires Runnable(t, front + [q], known) && Runnable(t, front, known)
    requires CarriedOut(t, Some(u), front, known)
    ensures CarriedOut(t, RetirePair(u, q, clock, false), front + [q], known)
  {
    PairSets(front, q);
    SuccessorIsNew(t, u, front, q, known);
    RetiredAlreadyKnown(t, front, q, known);
    LastRunnable(t, front, q, known);
    RetireStep(u, q, clock, known);
    var v := RetirePair(u, q, clock, false).value;
    HandoverStep(t, u, v, front, q);
    GrownStep(t, u, v, known, SuccessorIds(front), 0, q.successor.id);
  }

  lemma LastRunnable(t: Table, front: seq<Pair>, q: Pair, known: Registry)
    requires Runnable(t, front + [q], known)
    ensures SoundPair(q, known) && !Has(t, q.successor.id) && q.retired.id !in RetiredIds(front)
    ensures ActiveId(t, q.retired.id) || q.retired.id in SuccessorIds(front)
  {
    assert (front + [q])[|front|] == q && q in front + [q] && (front + [q])[..|front|] == front;
  }

  lemma SuccessorIsNew(t: Table, u: Table, front: seq<Pair>, q: Pair, known: Registry)
    requires Runnable(t, front + [q], known) && Grown(t, u, known, SuccessorIds(front), 0)
    ensures q.successor.id !in SuccessorIds(front) && !Has(u, q.successor.id)
  {
    assert (front + [q])[|front|] == q && q in front + [q];
    assert forall i :: 0 <= i < |front| ==> (front + [q])[i] == front[i];
  }

  /** A new successor is none of the atoms already retired. */
  lemma RetiredAlreadyKnown(t: Table, front: seq<Pair>, q: Pair, known: Registry)
    requires Runnable(t, front, known) && !Has(t, q.successor.id) && q.successor.id !in SuccessorIds(front)
    ensures q.successor.id !in RetiredIds(front)
  {
    forall p | p in front ensures p.retired.id != q.successor.id {
      var i :| 0 <= i < |front| && front[i] == p;
      if ActiveId(t, p.retired.id) {
        assert Has(t, p.retired.id);
      } else {
        var s :| s in front[..i] && s.successor.id == p.retired.id;
        assert s in front;
      }
    }
  }

  /** A candidate batch ready to be planned against `t`. */
  ghost predicate Plannable(t: Table, candidates: seq<Atom>, known: Registry) {
    && Sound(t, known)
    && Pairwise(candidates, DifferentIds())
    && forall c :: c in candidates ==> Candidate(c, known) && !Has(t, c.id)
  }

  lemma SnapshotIds(t: Table, existing: seq<Atom>, candidates: seq<Atom>, project: string, known: Registry)
    requires Plannable(t, candidates, known) && IsSnapshot(existing, t, project)
    ensures forall a :: a in existing ==> Stored(a, known)
    ensures forall x :: x in IdsOf(existing) ==> ActiveId(t, x)
    ensures IdsOf(existing) !! IdsOf(candidates)
  {
    forall a | a in existing ensures Stored(a, known) && ActiveId(t, a.id) && Has(t, a.id) {
      var i :| 0 <= i < |t| && t[i] == a;
    }
  }

  /** After the novel inserts of a plan, its supersessions are runnable. */
  lemma PlanRunnable(t: Table, plan: Plan, u: Table, known: Registry, ids: set<string>, used: set<string>)
    requires PlanInv(plan, known, ids, used)
    requires forall x :: x in ids ==> ActiveId(t, x)
    requires forall x :: x in used ==> !Has(t, x)
    requires forall x :: Has(u, x) <==> Has(t, x) || x in NovelIds(plan)
    requires forall x :: ActiveId(u, x) <==> ActiveId(t, x) || x in NovelIds(plan)
    ensures Runnable(u, plan.superseded, known)
  {
    forall q | q in plan.superseded ensures !Has(u, q.successor.id) {
      assert q.successor.id in SuccessorIds(plan.superseded);
    }
  }

  /**
   * An uninterrupted plan always executes: after the novel inserts every retirement finds its
   * predecessor active and commits; exactly the planned predecessors are closed; the chains
   * still hold; and the number of active atoms grows by the number of novel atoms.
   */
  lemma PlanExecutes(t: Table, existing: seq<Atom>, candidates: seq<Atom>, project: string, now: int,
                     clock: nat -> int, known: Registry)
    requires Plannable(t, candidates, known) && IsSnapshot(existing, t, project)
    ensures var plan := Planned(existing, candidates, now);
            var u := Inserted(t, plan.novel, clock);
            var r := Retired(u, plan.superseded, clock, false);
            && r.Some?
            && Sound(r.value, known) && OnlyCloses(t, r.value) && DisjointChains(r.value)
            && ActiveCount(r.value) == ActiveCount(t) + |plan.novel|
            && Handover(u, r.value, plan.superseded)
  {
    SnapshotIds(t, existing, candidates, project, known);
    PlanIsSound(existing, candidates, known, now);
    var final := FinalPlan(existing, candidates, now);
    assert NewDistinct(final.novel, t, known) by {
      NovelAreNew(t, final, candidates, known, IdsOf(existing));
    }
    InsertsExecute(t, final.novel, clock, known);
    var u := Inserted(t, final.novel, clock);
    assert IdsOf(final.novel) == NovelIds(final);
    PlanRunnable(t, final, u, known, IdsOf(existing), IdsOf(candidates));
    RetiresExecute(u, final.superseded, clock, known);
    var v := Retired(u, final.superseded, clock, false).value;
    OnlyClosesTransitive(t, u, v);
    ChainedMeansChains(v);
  }

  lemma NovelAreNew(t: Table, plan: Plan, candidates: seq<Atom>, known: Registry, ids: set<string>)
    requires PlanInv(plan, known, ids, IdsOf(candidates)) && Plannable(t, candidates, known)
    ensures NewDistinct(plan.novel, t, known)
  {
    forall a | a in plan.novel ensures !Has(t, a.id) {
      assert a.id in NovelIds(plan);
      var c :| c in candidates && c.id == a.id;
    }
  }

  lemma {:induction false} RetiredPrefix(t: Table, pairs: seq<Pair>, n: nat, clock: nat -> int, dryRun: bool)
    requires n < |pairs| && Retired(t, pairs, clock, dryRun).Some?
    ensures Retired(t, pairs[..n], clock, dryRun).Some?
    ensures RetirePair(Retired(t, pairs[..n], clock, dryRun).value, pairs[n], clock(n), dryRun).Some?
  {
    var m := |pairs| - 1;
    if n < m {
      assert pairs[..m][..n] == pairs[..n];
      RetiredPrefix(t, pairs[..m], n, clock, dryRun);
    }
  }

  /** A job no statement of which fails completes, and conserves active atoms up to its novel ones. */
  method ProcessUninterrupted(store: AtomStore, project: string, candidates: seq<Atom>, now: int,
                              clock: nat -> int, ghost known: Registry)
      returns (plan: Result, outcome: Outcome)
    requires Plannable(store.rows, candidates, known)
    modifies store
    ensures outcome.Done?
    ensures Sound(store.rows, known) && OnlyCloses(old(store.rows), store.rows) && DisjointChains(store.rows)
    ensures ActiveCount(store.rows) == ActiveCount(old(store.rows)) + |plan.novel|
  {
    ghost var t := store.rows;
    var inserted, retired;
    plan, inserted, retired, outcome :=
      ProcessJob(store, project, candidates, now, false, clock, _ => false, _ => false, false);
    ghost var existing :| IsSnapshot(existing, t, project) && plan == Planned(existing, candidates, now);
    PlanExecutes(t, existing, candidates, project, now, clock, known);
    assert plan.novel[..inserted] == plan.novel;
    if retired < |plan.superseded| {
      RetiredPrefix(Inserted(t, plan.novel, clock), plan.superseded, retired, clock, false);
      assert false;
    }
    assert plan.superseded[..retired] == plan.superseded;
  }
}
