/** The worker's code and the protocol are one: a job is a sequence of protocol steps of its worker. */
module WorkerSteps {
  import opened Basics
  import opened Atoms
  import opened AtomTable
  import opened AtomWorker
  import opened Dedup
  import opened PlanFacts
  import opened WorkerProtocol

  // ---- Extraction ----

  /** What the extractor builds: no id yet, open, superseding nothing. */
  predicate Extracted(a: Atom) {
    a.id == "" && a.Active() && a.supersedes == ""
  }

  /** Ids as `uuid.NewString` makes them: different, never used and not empty. */
  ghost predicate NewIds(ids: seq<string>, known: Registry) {
    Distinct(ids) && forall i :: 0 <= i < |ids| ==> ids[i] != "" && ids[i] !in known
  }

  /** Prepared candidates may enter the protocol and planning. */
  lemma PreparedAreNew(candidates: seq<Atom>, extracted: seq<Atom>, newIds: seq<string>, project: string, sessionDate: int,
                       known: Registry)
    requires IsPrepared(candidates, extracted, newIds, project, sessionDate)
    requires (forall i :: 0 <= i < |extracted| ==> Extracted(extracted[i])) && NewIds(newIds, known)
    ensures NewCandidates(candidates, project, known)
    ensures forall c :: c in candidates ==> Candidate(c, Register(known, candidates))
  {
    assert forall i :: 0 <= i < |candidates| ==> candidates[i].id == newIds[i];
    forall i, j | 0 <= i < j < |candidates| ensures candidates[i].id != candidates[j].id {
      assert newIds[i] != newIds[j];
    }
    PairwiseIds(candidates);
    RegisterExtends(known, candidates);
  }

  // ---- Writing ----

  /** Steps of one worker, the latest outermost, each with the state it leads to. */
  datatype Trail = Start | Then(before: Trail, event: Event, state: System)

  function End(s: System, trail: Trail): System {
    match trail
    case Start => s
    case Then(_, _, state) => state
  }

  /** Every step of the trail is a protocol step of worker w. */
  ghost predicate Leads(s: System, w: int, trail: Trail) {
    match trail
    case Start => true
    case Then(before, event, state) => Leads(s, w, before) && Next(End(s, before), w, event, state)
  }

  /** Such steps keep what every run keeps. */
  lemma {:induction false} TrailKeepsInv(s: System, w: int, trail: Trail)
    requires Inv(s) && Leads(s, w, trail)
    ensures Inv(End(s, trail))
  {
    match trail
    case Start =>
    case Then(before, event, state) =>
      TrailKeepsInv(s, w, before);
      NextKeepsInv(End(s, before), w, event, state);
  }

  /** The worker, writing, after some of its inserts and supersessions. */
  function Wrote(s: System, w: int, rows: Table, job: string, novel: seq<Atom>, pairs: seq<Pair>): System
    requires w in s.workers
  {
    s.(rows := rows, workers := s.workers[w := s.workers[w].(phase := Writing(job, novel, pairs))])
  }

  lemma InsertIsStep(s: System, w: int, t: Table, job: string, novel: seq<Atom>, pairs: seq<Pair>, clock: nat -> int, k: nat)
    requires w in s.workers && k < |novel|
    ensures Next(Wrote(s, w, Inserted(t, novel[..k], clock), job, novel[k..], pairs), w, InsertNext(clock(k)),
                 Wrote(s, w, Inserted(t, novel[..k + 1], clock), job, novel[k + 1..], pairs))
  {
    assert novel[..k + 1][..k] == novel[..k] && novel[k..][0] == novel[k] && novel[k..][1..] == novel[k + 1..];
  }

  /** The first k inserts of a plan are k steps. */
  lemma {:induction false} InsertSteps(s: System, w: int, t: Table, job: string, novel: seq<Atom>, pairs: seq<Pair>,
                                       clock: nat -> int, before: Trail, k: nat) returns (trail: Trail)
    requires w in s.workers && k <= |novel|
    requires Leads(s, w, before) && End(s, before) == Wrote(s, w, t, job, novel, pairs)
    ensures Leads(s, w, trail)
    ensures End(s, trail) == Wrote(s, w, Inserted(t, novel[..k], clock), job, novel[k..], pairs)
  {
    if k == 0 {
      assert novel[0..] == novel && novel[..0] == [];
      trail := before;
    } else {
      trail := InsertSteps(s, w, t, job, novel, pairs, clock, before, k - 1);
      InsertIsStep(s, w, t, job, novel, pairs, clock, k - 1);
      trail := Then(trail, InsertNext(clock(k - 1)), Wrote(s, w, Inserted(t, novel[..k], clock), job, novel[k..], pairs));
    }
  }

  lemma RetireIsStep(s: System, w: int, t: Table, job: string, pairs: seq<Pair>, clock: nat -> int, dryRun: bool, k: nat)
    requires w in s.workers && k < |pairs| && Retired(t, pairs[..k + 1], clock, dryRun).Some?
    ensures Retired(t, pairs[..k], clock, dryRun).Some?
    ensures Next(Wrote(s, w, Retired(t, pairs[..k], clock, dryRun).value, job, [], pairs[k..]), w, RetireNext(clock(k), dryRun),
                 Wrote(s, w, Retired(t, pairs[..k + 1], clock, dryRun).value, job, [], pairs[k + 1..]))
  {
    assert pairs[..k + 1][..k] == pairs[..k] && pairs[k..][0] == pairs[k] && pairs[k..][1..] == pairs[k + 1..];
  }

  /** The first k supersessions of a plan, if they commit, are k steps. */
  lemma {:induction false} RetireSteps(s: System, w: int, t: Table, job: string, pairs: seq<Pair>, clock: nat -> int,
                                       dryRun: bool, before: Trail, k: nat) returns (trail: Trail)
    requires w in s.workers && k <= |pairs| && Retired(t, pairs[..k], clock, dryRun).Some?
    requires Leads(s, w, before) && End(s, before) == Wrote(s, w, t, job, [], pairs)
    ensures Leads(s, w, trail)
    ensures End(s, trail) == Wrote(s, w, Retired(t, pairs[..k], clock, dryRun).value, job, [], pairs[k..])
  {
    if k == 0 {
      assert pairs[0..] == pairs && pairs[..0] == [];
      trail := before;
    } else {
      RetireIsStep(s, w, t, job, pairs, clock, dryRun, k - 1);
      trail := RetireSteps(s, w, t, job, pairs, clock, dryRun, before, k - 1);
      trail := Then(trail, RetireNext(clock(k - 1), dryRun),
                    Wrote(s, w, Retired(t, pairs[..k], clock, dryRun).value, job, [], pairs[k..]));
    }
  }

  /** The system after the job: the rows written, the job closed, the worker ready for the next one. */
  function AfterJob(s: System, w: int, job: string, rows: Table, outcome: Outcome): System
    requires w in s.workers
  {
    s.(rows := rows, jobs := SetStatus(s.jobs, job, if outcome.Done? then Finished else Failure),
       workers := s.workers[w := s.workers[w].(phase := Ready)])
  }

  lemma EndIsStep(s: System, w: int, job: string, rows: Table, novel: seq<Atom>, pairs: seq<Pair>, outcome: Outcome)
    requires w in s.workers && (outcome.Done? ==> novel == [] && pairs == [])
    ensures Next(Wrote(s, w, rows, job, novel, pairs), w, if outcome.Done? then Complete else WriteFails,
                 AfterJob(s, w, job, rows, outcome))
  {
  }

  /** What a job did: a prefix of its inserts and, only after all of them, a prefix of its supersessions. */
  ghost predicate Executed(t: Table, plan: Result, inserted: nat, retired: nat, clock: nat -> int, dryRun: bool, rows: Table,
                           outcome: Outcome) {
    && inserted <= |plan.novel| && retired <= |plan.superseded| && (inserted < |plan.novel| ==> retired == 0)
    && (outcome.Done? <==> inserted == |plan.novel| && retired == |plan.superseded|)
    && Retired(Inserted(t, plan.novel[..inserted], clock), plan.superseded[..retired], clock, dryRun) == Some(rows)
  }

  lemma WritesAreSteps(s: System, w: int, job: string, plan: Result, inserted: nat, retired: nat, clock: nat -> int,
                       dryRun: bool, rows: Table, outcome: Outcome, before: Trail) returns (trail: Trail)
    requires w in s.workers && Executed(s.rows, plan, inserted, retired, clock, dryRun, rows, outcome)
    requires Leads(s, w, before) && End(s, before) == Wrote(s, w, s.rows, job, plan.novel, plan.superseded)
    ensures Leads(s, w, trail)
    ensures End(s, trail) == Wrote(s, w, rows, job, plan.novel[inserted..], plan.superseded[retired..])
  {
    trail := InsertSteps(s, w, s.rows, job, plan.novel, plan.superseded, clock, before, inserted);
    var u := Inserted(s.rows, plan.novel[..inserted], clock);
    if inserted == |plan.novel| {
      assert plan.novel[inserted..] == [];
      trail := RetireSteps(s, w, u, job, plan.superseded, clock, dryRun, trail, retired);
    } else {
      assert plan.superseded[..0] == [] && plan.superseded[0..] == plan.superseded;
    }
  }

  /** A job closed in this way is a trail of protocol steps. */
  ghost predicate JobRuns(s: System, w: int, job: string, rows: Table, outcome: Outcome) {
    w in s.workers && exists trail :: Leads(s, w, trail) && End(s, trail) == AfterJob(s, w, job, rows, outcome)
  }

  lemma JobIsSteps(s: System, w: int, job: string, planning: Event, plan: Result, inserted: nat, retired: nat,
                   clock: nat -> int, dryRun: bool, rows: Table, outcome: Outcome)
    requires w in s.workers && Next(s, w, planning, Wrote(s, w, s.rows, job, plan.novel, plan.superseded))
    requires Executed(s.rows, plan, inserted, retired, clock, dryRun, rows, outcome)
    ensures JobRuns(s, w, job, rows, outcome)
    ensures Inv(s) ==> Inv(AfterJob(s, w, job, rows, outcome))
  {
    var trail := Then(Start, planning, Wrote(s, w, s.rows, job, plan.novel, plan.superseded));
    trail := WritesAreSteps(s, w, job, plan, inserted, retired, clock, dryRun, rows, outcome, trail);
    EndIsStep(s, w, job, rows, plan.novel[inserted..], plan.superseded[retired..], outcome);
    var after := AfterJob(s, w, job, rows, outcome);
    trail := Then(trail, if outcome.Done? then Complete else WriteFails, after);
    assert Leads(s, w, trail) && End(s, trail) == after;
    if Inv(s) {
      TrailKeepsInv(s, w, trail);
    }
  }

  /** Whatever fails, running the code for a loaded job is a trail of protocol steps that closes the job. */
  method ProcessLoaded(store: AtomStore, ghost s: System, ghost w: int, ghost job: string, project: string,
                       candidates: seq<Atom>, now: int, loadFails: bool, clock: nat -> int,
                       insertFaults: nat -> bool, retireFaults: nat -> bool, dryRun: bool)
      returns (outcome: Outcome)
    requires UniqueIds(store.rows) && store.rows == s.rows
    requires w in s.workers && s.workers[w].phase == Loaded(job, candidates)
    requires job in s.jobs && s.jobs[job].project == project
    modifies store
    ensures JobRuns(s, w, job, store.rows, outcome)
    ensures Inv(s) ==> Inv(AfterJob(s, w, job, store.rows, outcome))
  {
    var plan, inserted, retired;
    plan, inserted, retired, outcome :=
      ProcessJob(store, project, candidates, now, loadFails, clock, insertFaults, retireFaults, dryRun);
    ghost var planning := PlanWithoutDedup;
    if !loadFails {
      ghost var existing :| IsSnapshot(existing, s.rows, project) && plan == Planned(existing, candidates, now);
      planning := PlanFrom(existing, now);
    }
    JobIsSteps(s, w, job, planning, plan, inserted, retired, clock, dryRun, store.rows, outcome);
  }
}
