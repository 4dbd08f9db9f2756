/**
 * Any number of atom workers over one store. Every statement and every transaction is one
 * step; between two steps of a worker any other worker may run, fail or crash.
 */
module WorkerProtocol {
  import opened Basics
  import opened Atoms
  import opened AtomTable
  import opened AtomWrites
  import opened AtomWorker
  import opened Chains
  import opened Dedup
  import opened PlanFacts

  datatype Status = Pending | Processing | Finished | Failure
  datatype Job = Job(project: string, status: Status)

  /** Where a worker stands in its current job, and the jobs it has claimed after that. */
  datatype Phase =
    | Ready
    | Loaded(job: string, candidates: seq<Atom>)
    | Writing(job: string, novel: seq<Atom>, pairs: seq<Pair>)

  datatype Worker = Worker(queue: seq<string>, phase: Phase)

  /** `known` records every atom ever extracted, by id. */
  datatype System = System(rows: Table, jobs: map<string, Job>, workers: map<int, Worker>, known: Registry)

  datatype Event =
    | Enqueue(job: string, project: string)
    | Claim(claimed: seq<string>)
    | Extract(candidates: seq<Atom>)
    | ExtractFails
    | PlanFrom(existing: seq<Atom>, now: int)
    | PlanWithoutDedup
    | InsertNext(clock: int)
    | RetireNext(clock: int, dryRun: bool)
    | WriteFails
    | Complete
    | Crash

  function SetStatus(jobs: map<string, Job>, id: string, status: Status): map<string, Job> {
    if id in jobs then jobs[id := jobs[id].(status := status)] else jobs
  }

  function ClaimAll(jobs: map<string, Job>, claimed: seq<string>): map<string, Job> {
    map id | id in jobs :: if id in claimed then jobs[id].(status := Processing) else jobs[id]
  }

  /** New candidates: ids never used before, all different, as `uuid.NewString` gives them. */
  ghost predicate NewCandidates(cs: seq<Atom>, project: string, known: Registry) {
    && Pairwise(cs, DifferentIds())
    && forall c :: c in cs ==>
         && c.id !in known && c.id != "" && c.project == project
         && c.observedAt.Some? && c.Active() && c.supersedes == ""
  }

  function Register(known: Registry, cs: seq<Atom>): Registry {
    if cs == [] then known
    else Register(known, cs[..|cs| - 1])[cs[|cs| - 1].id := cs[|cs| - 1].Content()]
  }

  ghost predicate Next(s: System, w: int, e: Event, s': System) {
    if e.Enqueue? then
      s' == s.(jobs := if e.job in s.jobs then s.jobs else s.jobs[e.job := Job(e.project, Pending)])
    else
      && w in s.workers
      && var worker := s.workers[w];
         match e
         case Claim(claimed) =>
           && worker == Worker([], Ready)
           && Distinct(claimed)
           && (forall id :: id in claimed ==> id in s.jobs && s.jobs[id].status.Pending?)
           && s' == s.(jobs := ClaimAll(s.jobs, claimed), workers := s.workers[w := Worker(claimed, Ready)])
         case Extract(cs) =>
           && worker.phase.Ready? && worker.queue != [] && worker.queue[0] in s.jobs
           && NewCandidates(cs, s.jobs[worker.queue[0]].project, s.known)
           && s' == s.(known := Register(s.known, cs),
                       workers := s.workers[w := Worker(worker.queue[1..], Loaded(worker.queue[0], cs))])
         case ExtractFails =>
           && worker.phase.Ready? && worker.queue != []
           && s' == s.(jobs := SetStatus(s.jobs, worker.queue[0], Failure),
                       workers := s.workers[w := Worker(worker.queue[1..], Ready)])
         case PlanFrom(existing, now) =>
           && worker.phase.Loaded? && worker.phase.job in s.jobs
           && IsSnapshot(existing, s.rows, s.jobs[worker.phase.job].project)
           && var plan := Planned(existing, worker.phase.candidates, now);
              s' == s.(workers := s.workers[w := worker.(phase := Writing(worker.phase.job, plan.novel, plan.superseded))])
         case PlanWithoutDedup =>
           && worker.phase.Loaded?
           && s' == s.(workers := s.workers[w := worker.(phase := Writing(worker.phase.job, worker.phase.candidates, []))])
         case InsertNext(clock) =>
           && worker.phase.Writing? && worker.phase.novel != []
           && s' == s.(rows := Insert(s.rows, Stamped(worker.phase.novel[0], clock)),
                       workers := s.workers[w := worker.(phase := worker.phase.(novel := worker.phase.novel[1..]))])
         case RetireNext(clock, dryRun) =>
           && worker.phase.Writing? && worker.phase.novel == [] && worker.phase.pairs != []
           && (match RetirePair(s.rows, worker.phase.pairs[0], clock, dryRun)
               case Some(rows) =>
                 s' == s.(rows := rows,
                          workers := s.workers[w := worker.(phase := worker.phase.(pairs := worker.phase.pairs[1..]))])
               case None =>
                 s' == s.(jobs := SetStatus(s.jobs, worker.phase.job, Failure),
                          workers := s.workers[w := worker.(phase := Ready)]))
         case WriteFails =>
           && worker.phase.Writing?
           && s' == s.(jobs := SetStatus(s.jobs, worker.phase.job, Failure),
                       workers := s.workers[w := worker.(phase := Ready)])
         case Complete =>
           && worker.phase.Writing? && worker.phase.novel == [] && worker.phase.pairs == []
           && s' == s.(jobs := SetStatus(s.jobs, worker.phase.job, Finished),
                       workers := s.workers[w := worker.(phase := Ready)])
         case Crash =>
           s' == s.(workers := s.workers[w := Worker([], Ready)])
  }

  ghost predicate Initial(s: System) {
    && s.rows == [] && s.known == map[]
    && (forall id :: id in s.jobs ==> s.jobs[id].status.Pending?)
    && (forall w :: w in s.workers ==> s.workers[w] == Worker([], Ready))
  }

  /** A run: states s_0, s_1, ... linked by events of arbitrary workers. */
  ghost predicate Run(states: seq<System>, actors: seq<int>, events: seq<Event>) {
    && |states| == |events| + 1 == |actors| + 1
    && Initial(states[0])
    && forall i :: 0 <= i < |events| ==> Next(states[i], actors[i], events[i], states[i + 1])
  }

  // ---- What every step keeps ----

  ghost function Unwritten(p: Phase): set<string> {
    match p
    case Ready => {}
    case Loaded(_, cs) => IdsOf(cs)
    case Writing(_, novel, pairs) => IdsOf(novel) + SuccessorIds(pairs)
  }

  ghost predicate PairsOk(pairs: seq<Pair>, known: Registry) {
    && (forall q :: q in pairs ==> SoundPair(q, known))
    && (forall i, j :: 0 <= i < j < |pairs| ==> pairs[i].successor.id != pairs[j].successor.id)
  }

  ghost predicate AtomsOk(atoms: seq<Atom>, known: Registry) {
    && (forall a :: a in atoms ==> Candidate(a, known))
    && (forall i, j :: 0 <= i < j < |atoms| ==> atoms[i].id != atoms[j].id)
  }

  ghost predicate PhaseOk(p: Phase, known: Registry) {
    match p
    case Ready => true
    case Loaded(_, cs) => AtomsOk(cs, known)
    case Writing(_, novel, pairs) =>
      AtomsOk(novel, known) && PairsOk(pairs, known) && IdsOf(novel) !! SuccessorIds(pairs)
  }

  ghost predicate Unused(rows: Table, ids: set<string>) {
    forall x :: x in ids ==> !Has(rows, x)
  }

  ghost predicate PlansOk(s: System) {
    && (forall w :: w in s.workers ==>
          PhaseOk(s.workers[w].phase, s.known) && Unused(s.rows, Unwritten(s.workers[w].phase)))
    && (forall w, v :: w in s.workers && v in s.workers && w != v ==>
          Unwritten(s.workers[w].phase) !! Unwritten(s.workers[v].phase))
  }

  ghost predicate Inv(s: System) {
    Sound(s.rows, s.known) && PlansOk(s)
  }

  /** A worker that writes only what it had planned disturbs no other worker. */
  lemma WorkerMoves(s: System, w: int, rows: Table, jobs: map<string, Job>, worker: Worker, s': System)
    requires PlansOk(s) && w in s.workers
    requires s' == s.(rows := rows, jobs := jobs, workers := s.workers[w := worker])
    requires PhaseOk(worker.phase, s.known)
    requires Unwritten(worker.phase) <= Unwritten(s.workers[w].phase)
    requires forall x :: Has(rows, x) ==>
                           Has(s.rows, x) || x in Unwritten(s.workers[w].phase) - Unwritten(worker.phase)
    ensures PlansOk(s')
  {
  }

  lemma TailIds(atoms: seq<Atom>)
    requires atoms != []
    ensures IdsOf(atoms) == {atoms[0].id} + IdsOf(atoms[1..])
  {
    assert atoms[0] in atoms;
    forall a | a in atoms[1..] ensures a in atoms {
    }
  }

  lemma TailPairIds(pairs: seq<Pair>)
    requires pairs != []
    ensures SuccessorIds(pairs) == {pairs[0].successor.id} + SuccessorIds(pairs[1..])
  {
    assert pairs[0] in pairs;
    forall q | q in pairs[1..] ensures q in pairs {
    }
  }

  lemma InsertNextKeeps(s: System, w: int, clock: int, s': System)
    requires Inv(s) && Next(s, w, InsertNext(clock), s')
    ensures Inv(s')
  {
    var worker := s.workers[w];
    var novel := worker.phase.novel;
    TailIds(novel);
    assert novel[0] in novel;
    assert PhaseOk(worker.phase, s.known);
    assert novel[0].id in Unwritten(worker.phase);
    InsertStep(s.rows, novel[0], clock, s.known);
    var phase := worker.phase.(novel := novel[1..]);
    assert novel[0].id !in IdsOf(novel[1..]) by {
      forall a | a in novel[1..] ensures a.id != novel[0].id {
        var j :| 1 <= j < |novel| && novel[j] == a;
      }
    }
    WorkerMoves(s, w, s'.rows, s'.jobs, worker.(phase := phase), s');
  }

  /** The table after one supersession step, whichever way it goes. */
  lemma RetirePairStep(t: Table, pair: Pair, clock: int, dryRun: bool, known: Registry)
    requires Sound(t, known) && SoundPair(pair, known) && !Has(t, pair.successor.id)
    ensures var r := RetirePair(t, pair, clock, dryRun);
            r.Some? ==> Sound(r.value, known) && OnlyCloses(t, r.value)
                        && forall x :: Has(r.value, x) ==> Has(t, x) || x == pair.successor.id
  {
    if dryRun {
      var a := pair.successor.(supersedes := "");
      assert a.Content() == pair.successor.Content();
      InsertStep(t, a, clock, known);
    } else {
      RetireStep(t, pair, clock, known);
    }
  }

  lemma RetireNextKeeps(s: System, w: int, clock: int, dryRun: bool, s': System)
    requires Inv(s) && Next(s, w, RetireNext(clock, dryRun), s')
    ensures Inv(s')
  {
    var worker := s.workers[w];
    var pairs := worker.phase.pairs;
    TailPairIds(pairs);
    assert pairs[0] in pairs;
    assert PhaseOk(worker.phase, s.known);
    assert pairs[0].successor.id in Unwritten(worker.phase);
    RetirePairStep(s.rows, pairs[0], clock, dryRun, s.known);
    assert pairs[0].successor.id !in SuccessorIds(pairs[1..]) by {
      forall q | q in pairs[1..] ensures q.successor.id != pairs[0].successor.id {
        var j :| 1 <= j < |pairs| && pairs[j] == q;
      }
    }
    if RetirePair(s.rows, pairs[0], clock, dryRun).Some? {
      WorkerMoves(s, w, s'.rows, s'.jobs, worker.(phase := worker.phase.(pairs := pairs[1..])), s');
    } else {
      WorkerMoves(s, w, s'.rows, s'.jobs, worker.(phase := Ready), s');
    }
  }

  lemma PairwiseIds(cs: seq<Atom>)
    requires forall i, j :: 0 <= i < j < |cs| ==> cs[i].id != cs[j].id
    ensures Pairwise(cs, DifferentIds())
  {
  }

  lemma PlanKeeps(s: System, w: int, existing: seq<Atom>, now: int, s': System)
    requires Inv(s) && Next(s, w, PlanFrom(existing, now), s')
    ensures Inv(s')
  {
    var worker := s.workers[w];
    var cs := worker.phase.candidates;
    assert PhaseOk(worker.phase, s.known);
    PairwiseIds(cs);
    assert Plannable(s.rows, cs, s.known) by {
      forall c | c in cs ensures !Has(s.rows, c.id) {
        assert c.id in Unwritten(worker.phase);
      }
    }
    SnapshotIds(s.rows, existing, cs, s.jobs[worker.phase.job].project, s.known);
    PlanIsSound(existing, cs, s.known, now);
    var plan := FinalPlan(existing, cs, now);
    assert IdsOf(plan.novel) == NovelIds(plan);
    var phase := Writing(worker.phase.job, plan.novel, plan.superseded);
    assert PhaseOk(phase, s.known);
    WorkerMoves(s, w, s'.rows, s'.jobs, worker.(phase := phase), s');
  }

  // ---- New atoms leave old ones known ----

  ghost predicate Extends(known: Registry, known': Registry) {
    forall id :: id in known ==> id in known' && known'[id] == known[id]
  }

  lemma {:induction false} RegisterExtends(known: Registry, cs: seq<Atom>)
    requires forall c :: c in cs ==> c.id !in known
    requires forall i, j :: 0 <= i < j < |cs| ==> cs[i].id != cs[j].id
    ensures Extends(known, Register(known, cs))
    ensures forall c :: c in cs ==> Known(c, Register(known, cs))
  {
    if cs != [] {
      var front, c := cs[..|cs| - 1], cs[|cs| - 1];
      assert cs == front + [c];
      RegisterExtends(known, front);
      forall a | a in front ensures a.id != c.id {
        var j :| 0 <= j < |front| && front[j] == a;
        assert cs[j] == a;
      }
    }
  }

  lemma PhaseKnown(p: Phase, known: Registry)
    requires PhaseOk(p, known)
    ensures forall x :: x in Unwritten(p) ==> x in known
  {
  }

  lemma PhaseExtends(p: Phase, known: Registry, known': Registry)
    requires PhaseOk(p, known) && Extends(known, known')
    ensures PhaseOk(p, known')
  {
    match p
    case Ready =>
    case Loaded(_, cs) =>
      assert forall a :: a in cs ==> Candidate(a, known');
    case Writing(_, novel, pairs) =>
      assert forall a :: a in novel ==> Candidate(a, known');
      forall q | q in pairs ensures SoundPair(q, known') {
        assert Stored(q.retired, known) && Stored(q.successor, known);
      }
  }

  lemma ExtractKeeps(s: System, w: int, cs: seq<Atom>, s': System)
    requires Inv(s) && Next(s, w, Extract(cs), s')
    ensures Inv(s')
  {
    forall i, j | 0 <= i < j < |cs| ensures cs[i].id != cs[j].id {
      assert DifferentIds()(cs[i], cs[j]);
    }
    RegisterExtends(s.known, cs);
    assert Sound(s'.rows, s'.known);
    var phase := s'.workers[w].phase;
    assert PhaseOk(phase, s'.known);
    assert Unused(s.rows, IdsOf(cs)) by {
      forall c | c in cs ensures !Has(s.rows, c.id) {
        RowsAreKnown(s.rows, s.known, c.id);
      }
    }
    forall v | v in s.workers && v != w
      ensures PhaseOk(s.workers[v].phase, s'.known) && Unwritten(s.workers[v].phase) !! IdsOf(cs)
    {
      PhaseExtends(s.workers[v].phase, s.known, s'.known);
      PhaseKnown(s.workers[v].phase, s.known);
    }
  }

  lemma RowsAreKnown(t: Table, known: Registry, id: string)
    requires AllStored(t, known) && id !in known
    ensures !Has(t, id)
  {
  }

  /** No step of any worker breaks the chains or another worker's plan. */
  lemma NextKeepsInv(s: System, w: int, e: Event, s': System)
    requires Inv(s) && Next(s, w, e, s')
    ensures Inv(s')
  {
    if e.Enqueue? {
    } else {
      var worker := s.workers[w];
      match e
      case Claim(claimed) => WorkerMoves(s, w, s'.rows, s'.jobs, Worker(claimed, Ready), s');
      case Extract(cs) => ExtractKeeps(s, w, cs, s');
      case ExtractFails => WorkerMoves(s, w, s'.rows, s'.jobs, Worker(worker.queue[1..], Ready), s');
      case PlanFrom(existing, now) => PlanKeeps(s, w, existing, now, s');
      case PlanWithoutDedup =>
        assert PhaseOk(worker.phase, s.known);
        WorkerMoves(s, w, s'.rows, s'.jobs, s'.workers[w], s');
      case InsertNext(clock) => InsertNextKeeps(s, w, clock, s');
      case RetireNext(clock, dryRun) => RetireNextKeeps(s, w, clock, dryRun, s');
      case WriteFails => WorkerMoves(s, w, s'.rows, s'.jobs, worker.(phase := Ready), s');
      case Complete => WorkerMoves(s, w, s'.rows, s'.jobs, worker.(phase := Ready), s');
      case Crash => WorkerMoves(s, w, s'.rows, s'.jobs, Worker([], Ready), s');
    }
  }

  lemma {:induction false} RunKeepsInv(states: seq<System>, actors: seq<int>, events: seq<Event>, i: nat)
    requires Run(states, actors, events) && i < |states|
    ensures Inv(states[i])
  {
    if i > 0 {
      RunKeepsInv(states, actors, events, i - 1);
      NextKeepsInv(states[i - 1], actors[i - 1], events[i - 1], states[i]);
    }
  }

  /**
   * In every interleaving of any number of workers, after every step, the supersedes links
   * form disjoint acyclic chains within one key, each with exactly one active head.
   */
  lemma ChainsInEveryRun(states: seq<System>, actors: seq<int>, events: seq<Event>, i: nat)
    requires Run(states, actors, events) && i < |states|
    ensures Chained(states[i].rows) && DisjointChains(states[i].rows)
  {
    RunKeepsInv(states, actors, events, i);
    ChainedMeansChains(states[i].rows);
  }

  // ---- History is never rewritten ----

  lemma NextOnlyCloses(s: System, w: int, e: Event, s': System)
    requires Inv(s) && Next(s, w, e, s')
    ensures OnlyCloses(s.rows, s'.rows)
  {
    if e.InsertNext? {
      var worker := s.workers[w];
      assert PhaseOk(worker.phase, s.known);
      assert worker.phase.novel[0] in worker.phase.novel;
      assert worker.phase.novel[0].id in Unwritten(worker.phase);
      InsertStep(s.rows, worker.phase.novel[0], e.clock, s.known);
    } else if e.RetireNext? {
      var worker := s.workers[w];
      assert PhaseOk(worker.phase, s.known);
      assert worker.phase.pairs[0] in worker.phase.pairs;
      assert worker.phase.pairs[0].successor.id in Unwritten(worker.phase);
      RetirePairStep(s.rows, worker.phase.pairs[0], e.clock, e.dryRun, s.known);
    }
  }

  lemma StepOnlyCloses(states: seq<System>, actors: seq<int>, events: seq<Event>, k: nat)
    requires Run(states, actors, events) && k + 1 < |states|
    ensures OnlyCloses(states[k].rows, states[k + 1].rows)
  {
    RunKeepsInv(states, actors, events, k);
    NextOnlyCloses(states[k], actors[k], events[k], states[k + 1]);
  }

  /** Over any stretch of any run a row keeps its content and link, is closed at most once, and never if an event. */
  lemma {:induction false} RunOnlyCloses(states: seq<System>, actors: seq<int>, events: seq<Event>, i: nat, j: nat)
    requires Run(states, actors, events) && i <= j < |states|
    ensures OnlyCloses(states[i].rows, states[j].rows)
    decreases j
  {
    if i < j {
      RunOnlyCloses(states, actors, events, i, j - 1);
      StepOnlyCloses(states, actors, events, j - 1);
      OnlyClosesTransitive(states[i].rows, states[j - 1].rows, states[j].rows);
    }
  }

  // ---- Each job is taken up once ----

  /** Claimed jobs sit in one place of one queue and are no longer pending. */
  ghost predicate QueuesOk(s: System) {
    && (forall w :: w in s.workers ==> Distinct(s.workers[w].queue))
    && (forall w, id :: w in s.workers && id in s.workers[w].queue ==> id in s.jobs && !s.jobs[id].status.Pending?)
    && (forall w, v, id :: w in s.workers && v in s.workers && w != v && id in s.workers[w].queue ==>
                             id !in s.workers[v].queue)
  }

  /** The job is past its queue: not pending and waiting for no worker. */
  ghost predicate Spent(s: System, id: string) {
    && id in s.jobs && !s.jobs[id].status.Pending?
    && forall w :: w in s.workers ==> id !in s.workers[w].queue
  }

  /** A queue only shrinks between claims, and a job that is not pending stays so. */
  lemma QueueShrinks(s: System, w: int, queue: seq<string>, s': System)
    requires QueuesOk(s) && w in s.workers && s'.workers.Keys == s.workers.Keys
    requires s'.workers[w].queue == queue
    requires queue == s.workers[w].queue || queue == [] || (s.workers[w].queue != [] && queue == s.workers[w].queue[1..])
    requires forall v :: v in s.workers && v != w ==> s'.workers[v] == s.workers[v]
    requires forall id :: id in s.jobs && !s.jobs[id].status.Pending? ==> id in s'.jobs && !s'.jobs[id].status.Pending?
    ensures QueuesOk(s')
  {
    assert Distinct(s.workers[w].queue);
    ShorterQueue(s.workers[w].queue, queue);
    forall v | v in s.workers ensures Distinct(s'.workers[v].queue) && Within(s'.workers[v].queue, s.workers[v].queue) {
    }
    assert forall v, id :: v in s.workers && id in s'.workers[v].queue ==> id in s.workers[v].queue;
  }

  predicate Within(queue: seq<string>, whole: seq<string>) {
    forall id :: id in queue ==> id in whole
  }

  lemma ShorterQueue(whole: seq<string>, queue: seq<string>)
    requires Distinct(whole) && (queue == whole || queue == [] || (whole != [] && queue == whole[1..]))
    ensures Distinct(queue) && Within(queue, whole)
  {
  }

  lemma ClaimKeepsQueues(s: System, w: int, claimed: seq<string>, s': System)
    requires QueuesOk(s) && Next(s, w, Claim(claimed), s')
    ensures QueuesOk(s')
  {
  }

  lemma NextKeepsQueues(s: System, w: int, e: Event, s': System)
    requires QueuesOk(s) && Next(s, w, e, s')
    ensures QueuesOk(s')
  {
    if e.Claim? {
      ClaimKeepsQueues(s, w, e.claimed, s');
    } else if !e.Enqueue? {
      QueueShrinks(s, w, s'.workers[w].queue, s');
    }
  }

  lemma SpentStays(s: System, w: int, e: Event, s': System, id: string)
    requires Spent(s, id) && Next(s, w, e, s')
    ensures Spent(s', id)
  {
  }

  lemma {:induction false} RunKeepsQueues(states: seq<System>, actors: seq<int>, events: seq<Event>, i: nat)
    requires Run(states, actors, events) && i < |states|
    ensures QueuesOk(states[i])
  {
    if i > 0 {
      RunKeepsQueues(states, actors, events, i - 1);
      NextKeepsQueues(states[i - 1], actors[i - 1], events[i - 1], states[i]);
    }
  }

  /** Worker `w` takes up job `id` in this event. */
  ghost predicate TakesUp(s: System, w: int, e: Event, id: string) {
    (e.Extract? || e.ExtractFails?) && w in s.workers && s.workers[w].queue != [] && s.workers[w].queue[0] == id
  }

  lemma {:induction false} TakenUpStaysSpent(states: seq<System>, actors: seq<int>, events: seq<Event>,
                                              i: nat, j: nat, id: string)
    requires Run(states, actors, events) && i < j < |states| && TakesUp(states[i], actors[i], events[i], id)
    ensures Spent(states[j], id)
    decreases j
  {
    if j == i + 1 {
      RunKeepsQueues(states, actors, events, i);
      assert Next(states[i], actors[i], events[i], states[i + 1]);
      TakeUpSpends(states[i], actors[i], events[i], states[i + 1], id);
    } else {
      TakenUpStaysSpent(states, actors, events, i, j - 1, id);
      SpentStays(states[j - 1], actors[j - 1], events[j - 1], states[j], id);
    }
  }

  lemma TakeUpSpends(s: System, w: int, e: Event, s': System, id: string)
    requires QueuesOk(s) && Next(s, w, e, s') && TakesUp(s, w, e, id)
    ensures Spent(s', id)
  {
    var queue := s.workers[w].queue;
    assert queue[0] in queue;
    forall x | x in queue[1..] ensures x != queue[0] {
      var k :| 1 <= k < |queue| && queue[k] == x;
    }
  }

  /** No job is taken up twice, by one worker or by two. */
  lemma JobTakenUpOnce(states: seq<System>, actors: seq<int>, events: seq<Event>, i: nat, j: nat, id: string)
    requires Run(states, actors, events) && i < j < |events|
    requires TakesUp(states[i], actors[i], events[i], id)
    ensures !TakesUp(states[j], actors[j], events[j], id)
  {
    TakenUpStaysSpent(states, actors, events, i, j, id);
  }
}
