/** No value is lost in any run: what a finished job extracted is in the table, however its steps interleaved. */
module WorkerCoverage {
  import opened Basics
  import opened Atoms
  import opened AtomTable
  import opened AtomWrites
  import opened AtomWorker
  import opened Dedup
  import opened DedupCoverage
  import opened PlanFacts
  import opened WorkerProtocol

  /** Some atom of `t` has the key and the value of `c`. */
  ghost predicate Reported(t: seq<Atom>, c: Atom) {
    exists i :: 0 <= i < |t| && SaysTheSame(t[i], c)
  }

  ghost predicate SucceedsSo(pairs: seq<Pair>, c: Atom) {
    exists i :: 0 <= i < |pairs| && SaysTheSame(pairs[i].successor, c)
  }

  predicate WorksOn(worker: Worker, id: string) {
    !worker.phase.Ready? && worker.phase.job == id
  }

  /** The worker has yet to write what `c` says. */
  ghost predicate Holds(p: Phase, c: Atom) {
    match p
    case Ready => false
    case Loaded(_, cs) => c in cs
    case Writing(_, novel, pairs) => Reported(novel, c) || SucceedsSo(pairs, c)
  }

  /** The job is unfinished, and whoever works on it still holds what `c` says. */
  ghost predicate InHand(s: System, id: string, c: Atom) {
    && id in s.jobs && !s.jobs[id].status.Finished?
    && forall w :: w in s.workers && WorksOn(s.workers[w], id) ==> Holds(s.workers[w].phase, c)
  }

  ghost predicate Tracked(s: System, id: string, c: Atom) {
    Spent(s, id) && (Reported(s.rows, c) || InHand(s, id, c))
  }

  // ---- Rows stay, and writes add what they say ----

  lemma ReportedStays(t: Table, u: Table, c: Atom)
    requires OnlyCloses(t, u) && Reported(t, c)
    ensures Reported(u, c)
  {
    var i :| 0 <= i < |t| && SaysTheSame(t[i], c);
    assert SaysTheSame(u[i], c);
  }

  lemma InsertReports(t: Table, a: Atom, clock: int, c: Atom)
    requires !Has(t, a.id) && SaysTheSame(a, c)
    ensures Reported(Insert(t, Stamped(a, clock)), c)
  {
    var b := Stamped(a, clock);
    InsertEffect(t, b);
    assert SaysTheSame((t + [b])[|t|], c);
  }

  lemma RetireReports(t: Table, pair: Pair, clock: int, dryRun: bool, known: Registry, c: Atom)
    requires UniqueIds(t) && SoundPair(pair, known) && !Has(t, pair.successor.id) && SaysTheSame(pair.successor, c)
    requires RetirePair(t, pair, clock, dryRun).Some?
    ensures Reported(RetirePair(t, pair, clock, dryRun).value, c)
  {
    var u := RetirePair(t, pair, clock, dryRun).value;
    if dryRun {
      InsertReports(t, pair.successor.(supersedes := ""), clock, c);
    } else {
      RetireEffect(t, pair.retired.id, pair.retired.validTo.value, Stamped(pair.successor, clock));
      assert |u| == |t| + 1 && u[|t|] == Stamped(pair.successor, clock);
      assert SaysTheSame(u[|t|], c);
    }
  }

  // ---- What planning and writing do with what a worker holds ----

  /** What the rest of a list does not say, its first element does. */
  lemma ReportedNext(t: seq<Atom>, c: Atom)
    requires Reported(t, c)
    ensures SaysTheSame(t[0], c) || Reported(t[1..], c)
  {
    var i :| 0 <= i < |t| && SaysTheSame(t[i], c);
    assert i > 0 ==> t[1..][i - 1] == t[i];
  }

  lemma SucceedsNext(pairs: seq<Pair>, c: Atom)
    requires SucceedsSo(pairs, c)
    ensures SaysTheSame(pairs[0].successor, c) || SucceedsSo(pairs[1..], c)
  {
    var i :| 0 <= i < |pairs| && SaysTheSame(pairs[i].successor, c);
    assert i > 0 ==> pairs[1..][i - 1] == pairs[i];
  }

  lemma MemberReports(t: seq<Atom>, a: Atom, c: Atom)
    requires a in t && SaysTheSame(a, c)
    ensures Reported(t, c)
  {
    var i :| 0 <= i < |t| && t[i] == a;
    assert SaysTheSame(t[i], c);
  }

  lemma PlanHolds(rows: Table, existing: seq<Atom>, project: string, cs: seq<Atom>, now: int, job: string, c: Atom)
    requires IsSnapshot(existing, rows, project) && c in cs
    ensures var plan := Planned(existing, cs, now);
            Reported(rows, c) || Holds(Writing(job, plan.novel, plan.superseded), c)
  {
    NoValueLost(existing, cs, c, now);
    var p := FinalPlan(existing, cs, now);
    var a :| Appears(p, existing, a) && SaysTheSame(a, c);
    if a in existing {
      MemberReports(rows, a, c);
    } else if a in p.novel {
      MemberReports(p.novel, a, c);
    } else {
      var q :| q in p.superseded && q.successor == a;
      var i :| 0 <= i < |p.superseded| && p.superseded[i] == q;
      assert SaysTheSame(p.superseded[i].successor, c);
    }
  }

  /** The worker of the job has written what `c` says, still holds it, or has given the job up. */
  ghost predicate Settles(s': System, w: int, id: string, c: Atom) {
    || Reported(s'.rows, c)
    || (w in s'.workers && id in s'.jobs && !s'.jobs[id].status.Finished?
        && (WorksOn(s'.workers[w], id) ==> Holds(s'.workers[w].phase, c)))
  }

  lemma InsertSettles(s: System, w: int, clock: int, s': System, id: string, c: Atom)
    requires Inv(s) && Next(s, w, InsertNext(clock), s') && id in s.jobs && !s.jobs[id].status.Finished?
    requires WorksOn(s.workers[w], id) && Holds(s.workers[w].phase, c)
    ensures Settles(s', w, id, c)
  {
    var phase := s.workers[w].phase;
    var novel := phase.novel;
    if Reported(novel, c) {
      ReportedNext(novel, c);
      if SaysTheSame(novel[0], c) {
        assert novel[0].id in Unwritten(phase);
        InsertReports(s.rows, novel[0], clock, c);
      }
    }
  }

  lemma RetireSettles(s: System, w: int, clock: int, dryRun: bool, s': System, id: string, c: Atom)
    requires Inv(s) && Next(s, w, RetireNext(clock, dryRun), s') && id in s.jobs && !s.jobs[id].status.Finished?
    requires WorksOn(s.workers[w], id) && Holds(s.workers[w].phase, c)
    ensures Settles(s', w, id, c)
  {
    var phase := s.workers[w].phase;
    var pairs := phase.pairs;
    SucceedsNext(pairs, c);
    if RetirePair(s.rows, pairs[0], clock, dryRun).Some? && SaysTheSame(pairs[0].successor, c) {
      assert PhaseOk(phase, s.known) && pairs[0] in pairs;
      assert pairs[0].successor.id in Unwritten(phase);
      RetireReports(s.rows, pairs[0], clock, dryRun, s.known, c);
    }
  }

  /** A step of the worker that holds `c`. */
  lemma HolderSettles(s: System, w: int, e: Event, s': System, id: string, c: Atom)
    requires Inv(s) && Next(s, w, e, s') && !e.Enqueue? && InHand(s, id, c)
    requires WorksOn(s.workers[w], id)
    ensures Settles(s', w, id, c)
  {
    var phase := s.workers[w].phase;
    match e
    case PlanFrom(existing, now) =>
      PlanHolds(s.rows, existing, s.jobs[id].project, phase.candidates, now, id, c);
    case PlanWithoutDedup => MemberReports(phase.candidates, c, c);
    case InsertNext(clock) => InsertSettles(s, w, clock, s', id, c);
    case RetireNext(clock, dryRun) => RetireSettles(s, w, clock, dryRun, s', id, c);
    case _ =>
  }

  /** A step of a worker that has nothing to do with the job. */
  lemma BystanderSettles(s: System, w: int, e: Event, s': System, id: string, c: Atom)
    requires Next(s, w, e, s') && !e.Enqueue? && Spent(s, id) && InHand(s, id, c)
    requires !WorksOn(s.workers[w], id)
    ensures Settles(s', w, id, c)
  {
    if e.Extract? {
      assert s.workers[w].queue[0] in s.workers[w].queue;
    }
  }

  lemma OthersStay(s: System, w: int, e: Event, s': System)
    requires Next(s, w, e, s') && !e.Enqueue?
    ensures s'.workers.Keys == s.workers.Keys
    ensures forall v :: v in s.workers && v != w ==> s'.workers[v] == s.workers[v]
  {
  }

  lemma StepTracks(s: System, w: int, e: Event, s': System, id: string, c: Atom)
    requires Inv(s) && Next(s, w, e, s') && Tracked(s, id, c)
    ensures Tracked(s', id, c)
  {
    SpentStays(s, w, e, s', id);
    NextOnlyCloses(s, w, e, s');
    if Reported(s.rows, c) {
      ReportedStays(s.rows, s'.rows, c);
    } else if !e.Enqueue? {
      OthersStay(s, w, e, s');
      if WorksOn(s.workers[w], id) {
        HolderSettles(s, w, e, s', id, c);
      } else {
        BystanderSettles(s, w, e, s', id, c);
      }
    }
  }

  // ---- A job that is taken up is under way and nobody else's ----

  /** Queued jobs are being processed, and no worker works on a job that is still queued. */
  ghost predicate UnderWay(s: System) {
    && QueuesOk(s)
    && (forall w, id :: w in s.workers && id in s.workers[w].queue ==> id in s.jobs && s.jobs[id].status.Processing?)
    && (forall w :: w in s.workers && !s.workers[w].phase.Ready? ==> Spent(s, s.workers[w].phase.job))
  }

  lemma NextKeepsSpent(s: System, w: int, e: Event, s': System)
    requires UnderWay(s) && Next(s, w, e, s')
    ensures forall v :: v in s'.workers && !s'.workers[v].phase.Ready? ==> Spent(s', s'.workers[v].phase.job)
  {
    forall v | v in s'.workers && !s'.workers[v].phase.Ready? ensures Spent(s', s'.workers[v].phase.job) {
      if v in s.workers && WorksOn(s.workers[v], s'.workers[v].phase.job) {
        SpentStays(s, w, e, s', s'.workers[v].phase.job);
      } else {
        TakeUpSpends(s, w, e, s', s'.workers[v].phase.job);
      }
    }
  }

  lemma NextKeepsProcessing(s: System, w: int, e: Event, s': System)
    requires UnderWay(s) && Next(s, w, e, s')
    ensures forall v, id :: v in s'.workers && id in s'.workers[v].queue ==> id in s'.jobs && s'.jobs[id].status.Processing?
  {
    forall v, id | v in s'.workers && id in s'.workers[v].queue ensures id in s'.jobs && s'.jobs[id].status.Processing? {
      QueuedStays(s, w, e, s', v, id);
    }
  }

  lemma QueuedStays(s: System, w: int, e: Event, s': System, v: int, id: string)
    requires UnderWay(s) && Next(s, w, e, s') && v in s'.workers && id in s'.workers[v].queue
    ensures id in s'.jobs && s'.jobs[id].status.Processing?
  {
    if e.ExtractFails? {
      TakeUpSpends(s, w, e, s', s.workers[w].queue[0]);
      assert id != s.workers[w].queue[0];
    }
    if !e.Claim? {
      assert v in s.workers && id in s.workers[v].queue;
    }
  }

  lemma {:induction false} RunUnderWay(states: seq<System>, actors: seq<int>, events: seq<Event>, i: nat)
    requires Run(states, actors, events) && i < |states|
    ensures UnderWay(states[i])
  {
    if i > 0 {
      RunUnderWay(states, actors, events, i - 1);
      NextKeepsQueues(states[i - 1], actors[i - 1], events[i - 1], states[i]);
      NextKeepsProcessing(states[i - 1], actors[i - 1], events[i - 1], states[i]);
      NextKeepsSpent(states[i - 1], actors[i - 1], events[i - 1], states[i]);
    }
  }

  /** Extraction puts every candidate in the hands of the one worker on the job. */
  lemma ExtractTracks(s: System, w: int, cs: seq<Atom>, s': System, id: string, c: Atom)
    requires UnderWay(s) && Next(s, w, Extract(cs), s') && TakesUp(s, w, Extract(cs), id) && c in cs
    ensures Tracked(s', id, c)
  {
    TakeUpSpends(s, w, Extract(cs), s', id);
    assert id in s.workers[w].queue;
  }

  lemma {:induction false} RunTracks(states: seq<System>, actors: seq<int>, events: seq<Event>,
                                     i: nat, j: nat, id: string, c: Atom)
    requires Run(states, actors, events) && i < j < |states|
    requires events[i].Extract? && TakesUp(states[i], actors[i], events[i], id) && c in events[i].candidates
    ensures Tracked(states[j], id, c)
    decreases j
  {
    if j == i + 1 {
      RunUnderWay(states, actors, events, i);
      assert Next(states[i], actors[i], events[i], states[i + 1]);
      ExtractTracks(states[i], actors[i], events[i].candidates, states[i + 1], id, c);
    } else {
      RunTracks(states, actors, events, i, j - 1, id, c);
      RunKeepsInv(states, actors, events, j - 1);
      StepTracks(states[j - 1], actors[j - 1], events[j - 1], states[j], id, c);
    }
  }

  /**
   * In every interleaving, whatever else fails or crashes: once a job is finished, every candidate
   * its extraction gave has a row with its key and value, and keeps it for good.
   */
  lemma FinishedJobIsStored(states: seq<System>, actors: seq<int>, events: seq<Event>,
                            i: nat, j: nat, k: nat, id: string, c: Atom)
    requires Run(states, actors, events) && i < j <= k < |states|
    requires events[i].Extract? && TakesUp(states[i], actors[i], events[i], id) && c in events[i].candidates
    requires id in states[j].jobs && states[j].jobs[id].status.Finished?
    ensures Reported(states[k].rows, c)
  {
    RunTracks(states, actors, events, i, j, id, c);
    RunOnlyCloses(states, actors, events, j, k);
    ReportedStays(states[j].rows, states[k].rows, c);
  }
}
