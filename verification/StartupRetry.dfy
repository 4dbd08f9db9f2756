/**
 * Waiting for a startup dependency: attempts separated by capped exponential backoff until one
 * succeeds, an error is permanent, the caller cancels, or the waiting time is used up. The clock,
 * the attempts and cancellation are the world's choice.
 */
module StartupRetry {
  import opened Basics

  const INT64_LIMIT := 0x8000_0000_0000_0000

  /** Nanoseconds in 64 bits. */
  type Duration = x: int | -INT64_LIMIT <= x < INT64_LIMIT

  const SECOND: int := 1_000_000_000
  const DEFAULT_INITIAL: Duration := SECOND
  const DEFAULT_MAX: Duration := 30 * SECOND

  datatype Config = Config(maxWait: Duration, initialBackoff: Duration, maxBackoff: Duration)

  datatype Outcome = Success | Failure(permanent: bool, canceled: bool)

  /**
   * Everything the loop cannot control, indexed by how many times it has looked: by how much the
   * clock moves at each look, whether the context is cancelled, how each attempt ends and whether
   * a sleep is interrupted.
   */
  datatype World = World(advance: nat -> nat, cancelled: nat -> bool, outcome: nat -> Outcome, interrupted: nat -> bool)

  datatype Result = Connected | Permanent | Aborted | Unavailable

  /** An attempt, with the clock as read just before it. */
  datatype Attempt = Attempt(at: int, outcome: Outcome)

  /** A requested sleep and the time that remained when it was requested. */
  datatype Pause = Pause(requested: int, remaining: int)

  // ---- Backoff ----

  /** Two's complement reduction to 64 bits. */
  function Wrap(x: int): int {
    (x + INT64_LIMIT) % (2 * INT64_LIMIT) - INT64_LIMIT
  }

  function NextBackoff(backoff: Duration, max: Duration): Duration {
    var next := Wrap(backoff * 2);
    if next > max || next <= 0 then max else next
  }

  /** Doubling never overflows unnoticed: it is a capped doubling. */
  lemma NextBackoffDoubles(backoff: Duration, max: Duration)
    requires backoff > 0 && max > 0
    ensures NextBackoff(backoff, max) == Min(2 * backoff, max)
  {
    if 2 * backoff < INT64_LIMIT {
      assert (2 * backoff + INT64_LIMIT) % (2 * INT64_LIMIT) == 2 * backoff + INT64_LIMIT;
    } else {
      assert (2 * backoff + INT64_LIMIT) % (2 * INT64_LIMIT) == 2 * backoff - INT64_LIMIT;
    }
  }

  function Pow2(n: nat): nat {
    if n == 0 then 1 else 2 * Pow2(n - 1)
  }

  function Initial(cfg: Config): Duration {
    if cfg.initialBackoff <= 0 then DEFAULT_INITIAL else cfg.initialBackoff
  }

  function Cap(cfg: Config): Duration {
    if cfg.maxBackoff <= 0 then DEFAULT_MAX else cfg.maxBackoff
  }

  /** The backoff after attempt n + 1: the first is taken as configured, later ones are capped. */
  function Backoff(cfg: Config, n: nat): int {
    if n == 0 then Initial(cfg) else Min(Initial(cfg) * Pow2(n), Cap(cfg))
  }

  lemma BackoffNext(cfg: Config, n: nat)
    ensures 0 < Backoff(cfg, n) < INT64_LIMIT
    ensures Backoff(cfg, n + 1) == NextBackoff(Backoff(cfg, n), Cap(cfg))
  {
    Pow2Positive(n);
    MulPositive(Initial(cfg), Pow2(n));
    NextBackoffDoubles(Backoff(cfg, n), Cap(cfg));
    assert Initial(cfg) * Pow2(n + 1) == 2 * (Initial(cfg) * Pow2(n));
  }

  lemma {:induction false} Pow2Positive(n: nat)
    ensures Pow2(n) >= 1
  {
    if n > 0 {
      Pow2Positive(n - 1);
    }
  }

  lemma MulPositive(a: int, b: int)
    requires a >= 1 && b >= 1
    ensures a * b >= 1
  {
    assert a * b >= a * 1;
  }

  /** With the initial backoff within the cap, every backoff is the capped power of two. */
  lemma BackoffCapped(cfg: Config, n: nat)
    requires Initial(cfg) <= Cap(cfg)
    ensures Backoff(cfg, n) == Min(Initial(cfg) * Pow2(n), Cap(cfg))
  {
  }

  /** Without settings the schedule is one second, doubled up to thirty. */
  lemma DefaultSchedule(cfg: Config, n: nat)
    requires cfg.initialBackoff <= 0 && cfg.maxBackoff <= 0
    ensures Backoff(cfg, n) == Min(1_000_000_000 * Pow2(n), 30_000_000_000)
  {
    BackoffCapped(cfg, n);
  }

  // ---- The loop ----

  function TotalSleep(pauses: seq<Pause>): int {
    if pauses == [] then 0 else TotalSleep(pauses[..|pauses| - 1]) + pauses[|pauses| - 1].requested
  }

  predicate Transient(o: Outcome) {
    o.Failure? && !o.permanent
  }

  /** The first n attempts failed with errors worth retrying. */
  predicate FailedBefore(attempts: seq<Attempt>, n: nat) {
    forall i :: 0 <= i < n && i < |attempts| ==> Transient(attempts[i].outcome)
  }

  /** The caller cancelled or a sleep was interrupted. */
  ghost predicate Interfered(world: World) {
    exists k: nat :: world.cancelled(k) || world.interrupted(k)
  }

  predicate StartedBy(attempts: seq<Attempt>, deadline: int) {
    forall i :: 0 <= i < |attempts| ==> attempts[i].at < deadline
  }

  /** Each sleep is the scheduled backoff, cut to the time that remains. */
  predicate Scheduled(cfg: Config, pauses: seq<Pause>) {
    forall i :: 0 <= i < |pauses| ==>
      pauses[i].remaining > 0 && pauses[i].requested == Min(Backoff(cfg, i), pauses[i].remaining)
  }

  /**
   * Attempts are reported as they happened, each at least its pause after the one before, and none
   * in a round entered with the context cancelled or after an interrupted sleep.
   */
  predicate Faithful(world: World, attempts: seq<Attempt>, pauses: seq<Pause>) {
    && (forall i: nat :: i < |attempts| ==> attempts[i].outcome == world.outcome(i) && !world.cancelled(4 * i))
    && (forall i: nat :: i < |attempts| - 1 ==> !world.interrupted(i))
    && (forall i {:trigger pauses[i]} :: 0 <= i < |pauses| && i < |attempts| - 1 ==>
          attempts[i + 1].at >= attempts[i].at + pauses[i].requested)
  }

  lemma FaithfulAttempt(world: World, attempts: seq<Attempt>, pauses: seq<Pause>, a: Attempt)
    requires Faithful(world, attempts, pauses) && |attempts| == |pauses|
    requires a.outcome == world.outcome(|attempts|) && !world.cancelled(4 * |attempts|)
    requires attempts == [] || !world.interrupted(|attempts| - 1)
    requires attempts == [] || a.at >= attempts[|attempts| - 1].at + pauses[|pauses| - 1].requested
    ensures Faithful(world, attempts + [a], pauses)
  {
  }

  lemma FaithfulPause(world: World, attempts: seq<Attempt>, pauses: seq<Pause>, p: Pause)
    requires Faithful(world, attempts, pauses) && |attempts| == |pauses| + 1
    ensures Faithful(world, attempts, pauses + [p])
  {
  }

  /** What one round of the loop did; without a result the loop goes on. */
  datatype Round = Round(result: Option<Result>, attempt: Option<Attempt>, pause: Option<Pause>, clock: int)

  /** The n-th round is given up: cancelled at its beginning or by its attempt, or its sleep interrupted. */
  predicate Aborts(world: World, n: nat, r: Round) {
    if r.attempt.None? then world.cancelled(4 * n)
    else if r.pause.None? then
      Transient(r.attempt.value.outcome) && r.attempt.value.outcome.canceled && world.cancelled(4 * n + 1)
    else world.interrupted(n)
  }

  /** The n-th round, entered at `clock`. */
  ghost predicate RoundOk(world: World, n: nat, deadline: int, backoff: int, clock: int, r: Round) {
    && r.clock >= clock
    && (r.attempt.Some? ==> clock <= r.attempt.value.at < deadline && r.attempt.value.outcome == world.outcome(n))
    && (world.cancelled(4 * n) ==> r.attempt.None?)
    && (r.result == Some(Aborted) <==> Aborts(world, n, r))
    && (r.pause.Some? ==>
          && r.attempt.Some? && Transient(r.attempt.value.outcome)
          && 0 < r.pause.value.remaining <= deadline - clock
          && r.pause.value.requested == Min(backoff, r.pause.value.remaining))
    && match r.result
       case None => r.pause.Some? && r.clock >= r.attempt.value.at + r.pause.value.requested
       case Some(Connected) => r.attempt.Some? && r.attempt.value.outcome.Success?
       case Some(Permanent) => r.attempt.Some? && r.attempt.value.outcome.Failure? && r.attempt.value.outcome.permanent
       case Some(Aborted) => Interfered(world) && (r.attempt.Some? ==> Transient(r.attempt.value.outcome))
       case Some(Unavailable) => r.clock >= deadline && (r.attempt.Some? ==> Transient(r.attempt.value.outcome))
  }

  method RunRound(world: World, n: nat, deadline: int, backoff: int, clock: int) returns (r: Round)
    requires backoff > 0
    ensures RoundOk(world, n, deadline, backoff, clock, r)
  {
    var looks := 4 * n;
    if world.cancelled(looks) {
      return Round(Some(Aborted), None, None, clock);
    }
    var now := clock + world.advance(looks);
    var remaining := deadline - now;
    if remaining <= 0 {
      return Round(Some(Unavailable), None, None, now);
    }
    var outcome := world.outcome(n);
    var attempt := Some(Attempt(now, outcome));
    now := now + world.advance(looks + 1);
    if outcome.Success? {
      return Round(Some(Connected), attempt, None, now);
    }
    if outcome.permanent {
      return Round(Some(Permanent), attempt, None, now);
    }
    if outcome.canceled && world.cancelled(looks + 1) {
      return Round(Some(Aborted), attempt, None, now);
    }
    now := now + world.advance(looks + 2);
    remaining := deadline - now;
    if remaining <= 0 {
      return Round(Some(Unavailable), attempt, None, now);
    }
    var sleepFor := if backoff > remaining then remaining else backoff;
    if world.interrupted(n) {
      return Round(Some(Aborted), attempt, Some(Pause(sleepFor, remaining)), now);
    }
    return Round(None, attempt, Some(Pause(sleepFor, remaining)), now + sleepFor + world.advance(looks + 3));
  }

  /** What holds of every attempt and pause so far. */
  predicate Waited(cfg: Config, world: World, start: int, attempts: seq<Attempt>, pauses: seq<Pause>) {
    && Faithful(world, attempts, pauses)
    && StartedBy(attempts, start + cfg.maxWait)
    && Scheduled(cfg, pauses) && 0 <= TotalSleep(pauses) <= cfg.maxWait
  }

  lemma WaitedAttempt(cfg: Config, world: World, start: int, attempts: seq<Attempt>, pauses: seq<Pause>, a: Attempt)
    requires Waited(cfg, world, start, attempts, pauses) && |attempts| == |pauses|
    requires a.outcome == world.outcome(|attempts|) && !world.cancelled(4 * |attempts|)
    requires attempts == [] || !world.interrupted(|attempts| - 1)
    requires attempts == [] || a.at >= attempts[|attempts| - 1].at + pauses[|pauses| - 1].requested
    requires a.at < start + cfg.maxWait
    ensures Waited(cfg, world, start, attempts + [a], pauses)
  {
    FaithfulAttempt(world, attempts, pauses, a);
  }

  lemma WaitedPause(cfg: Config, world: World, start: int, attempts: seq<Attempt>, pauses: seq<Pause>, p: Pause)
    requires Waited(cfg, world, start, attempts, pauses) && |attempts| == |pauses| + 1
    requires 0 < p.remaining <= cfg.maxWait - TotalSleep(pauses) && p.requested == Min(Backoff(cfg, |pauses|), p.remaining)
    ensures Waited(cfg, world, start, attempts, pauses + [p])
    ensures TotalSleep(pauses + [p]) == TotalSleep(pauses) + p.requested && p.requested > 0
  {
    FaithfulPause(world, attempts, pauses, p);
    BackoffNext(cfg, |pauses|);
    assert (pauses + [p])[..|pauses|] == pauses;
  }

  function More<T>(s: seq<T>, o: Option<T>): seq<T> {
    if o.Some? then s + [o.value] else s
  }

  /** The state of the loop between rounds. */
  predicate Between(cfg: Config, world: World, start: int, attempts: seq<Attempt>, pauses: seq<Pause>, clock: int) {
    && |attempts| == |pauses| && Waited(cfg, world, start, attempts, pauses)
    && FailedBefore(attempts, |attempts|) && (attempts != [] ==> !world.interrupted(|attempts| - 1))
    && (attempts != [] ==> attempts[|attempts| - 1].at + pauses[|attempts| - 1].requested <= clock)
    && TotalSleep(pauses) <= clock - start
  }

  lemma RoundGoesOn(cfg: Config, world: World, start: int, attempts: seq<Attempt>, pauses: seq<Pause>, clock: int, r: Round)
    requires Between(cfg, world, start, attempts, pauses, clock)
    requires RoundOk(world, |attempts|, start + cfg.maxWait, Backoff(cfg, |attempts|), clock, r)
    ensures Waited(cfg, world, start, More(attempts, r.attempt), More(pauses, r.pause))
    ensures r.result.None? ==>
              Between(cfg, world, start, More(attempts, r.attempt), More(pauses, r.pause), r.clock) && r.clock > clock
  {
    if r.attempt.Some? {
      WaitedAttempt(cfg, world, start, attempts, pauses, r.attempt.value);
      if r.pause.Some? {
        WaitedPause(cfg, world, start, attempts + [r.attempt.value], pauses, r.pause.value);
      }
    }
  }

  /**
   * What a caller may rely on: success means exactly that the last attempt succeeded, and all
   * before it failed transiently; no attempt starts after the deadline; sleeps follow the schedule
   * and add up to at most the waiting time; a permanent error ends the loop, which otherwise stops
   * only at the deadline or on cancellation.
   */
  ghost predicate Report(cfg: Config, world: World, start: int, result: Result, attempts: seq<Attempt>, pauses: seq<Pause>,
                   clock: int) {
    && Waited(cfg, world, start, attempts, pauses)
    && |pauses| <= |attempts| <= |pauses| + 1
    && FailedBefore(attempts, |attempts| - (if attempts == [] then 0 else 1))
    && (result.Connected? <==> attempts != [] && attempts[|attempts| - 1].outcome.Success?)
    && (result.Permanent? <==> attempts != [] && attempts[|attempts| - 1].outcome.Failure?
                               && attempts[|attempts| - 1].outcome.permanent)
    && (result.Aborted? ==> Interfered(world))
    && (result.Unavailable? ==> clock >= start + cfg.maxWait)
  }

  lemma RoundEnds(cfg: Config, world: World, start: int, attempts: seq<Attempt>, pauses: seq<Pause>, clock: int, r: Round)
    requires Between(cfg, world, start, attempts, pauses, clock) && r.result.Some?
    requires RoundOk(world, |attempts|, start + cfg.maxWait, Backoff(cfg, |attempts|), clock, r)
    ensures Report(cfg, world, start, r.result.value, More(attempts, r.attempt), More(pauses, r.pause), r.clock)
  {
    RoundGoesOn(cfg, world, start, attempts, pauses, clock, r);
    var a := More(attempts, r.attempt);
    if r.attempt.None? {
      assert a == attempts;
      assert attempts != [] ==> Transient(attempts[|attempts| - 1].outcome);
    }
  }

  /** With no time to wait there is a single attempt; otherwise the loop runs until it has a result. */
  method RetryDependency(cfg: Config, world: World, start: int)
      returns (result: Result, attempts: seq<Attempt>, pauses: seq<Pause>, clock: int)
    ensures cfg.maxWait <= 0 ==> |attempts| == 1 && pauses == [] && attempts[0].outcome == world.outcome(0)
                                 && (result.Connected? <==> attempts[0].outcome.Success?)
    ensures cfg.maxWait > 0 ==> Report(cfg, world, start, result, attempts, pauses, clock)
  {
    attempts, pauses, clock := [], [], start;
    if cfg.maxWait <= 0 {
      attempts := [Attempt(clock, world.outcome(0))];
      result := if world.outcome(0).Success? then Connected else Unavailable;
      return;
    }
    var deadline := start + cfg.maxWait;
    var backoff := Initial(cfg);
    while true
      invariant backoff == Backoff(cfg, |attempts|)
      invariant Between(cfg, world, start, attempts, pauses, clock)
      decreases deadline - clock
    {
      BackoffNext(cfg, |attempts|);
      var round := RunRound(world, |attempts|, deadline, backoff, clock);
      if round.result.Some? {
        RoundEnds(cfg, world, start, attempts, pauses, clock, round);
        result := round.result.value;
        attempts, pauses, clock := More(attempts, round.attempt), More(pauses, round.pause), round.clock;
        return;
      }
      RoundGoesOn(cfg, world, start, attempts, pauses, clock, round);
      attempts, pauses, clock := More(attempts, round.attempt), More(pauses, round.pause), round.clock;
      backoff := NextBackoff(backoff, Cap(cfg));
    }
  }
}
