/** The migration runner as an object: the loops of `runMigrations` and `backfillVectors` against the database. */
module MigrationRunner {
  import opened Basics
  import opened Migrations

  class Runner {
    var recorded: set<File>
    var times: map<File, nat>
    var pending: Option<bool>
    var convertible: nat
    var invalid: nat
    var refused: nat

    function State(): Db
      reads this
    {
      Db(recorded, times, pending, convertible, invalid, refused)
    }

    constructor (convertible: nat, invalid: nat, refused: nat)
      ensures State() == Untouched(convertible, invalid, refused)
    {
      recorded, times, pending := {}, map[], None;
      this.convertible, this.invalid, this.refused := convertible, invalid, refused;
    }

    method ExecSql(file: File)
      modifies this`times, this`pending
      ensures State() == RunSql(old(State()), file)
    {
      times := times[file := (if file in times then times[file] else 0) + 1];
      if file == Pgvector && pending.None? {
        pending := Some(true);
      }
    }

    /** Row by row: a stop or a refused update ends it; the flag is cleared only if nothing remains. */
    method Backfill(reach: nat, budget: nat) returns (left: nat, ok: bool)
      modifies this`convertible, this`pending
      ensures Outcome(State(), left, ok) == BackfillDb(old(State()), reach, budget)
    {
      left := budget;
      var before := 0;
      while convertible > 0 && !(refused > 0 && before == reach)
        invariant before == old(convertible) - convertible && left == budget - before
        invariant refused > 0 ==> before <= reach
        invariant pending == old(pending)
        decreases convertible
      {
        if left == 0 {
          return left, false;
        }
        convertible, left, before := convertible - 1, left - 1, before + 1;
      }
      if refused > 0 {
        return left, false;
      }
      if convertible + invalid > 0 {
        return left, true;
      }
      if left == 0 {
        return left, false;
      }
      left := left - 1;
      if pending.Some? {
        pending := Some(false);
      }
      return left, true;
    }

    /** A file applied outside a transaction: its SQL, the backfill after 003, and the record last. */
    method ApplyUntransacted(file: File, reach: nat, budget: nat) returns (left: nat, ok: bool)
      requires Untransacted(file)
      modifies this
      ensures Outcome(State(), left, ok) == ApplyDb(old(State()), file, reach, budget)
    {
      if budget == 0 {
        return 0, false;
      }
      ExecSql(file);
      left, ok := budget - 1, true;
      if file == Pgvector {
        left, ok := Backfill(reach, left);
      }
      if !ok || left == 0 {
        return left, false;
      }
      recorded, left := recorded + {file}, left - 1;
    }

    /** Any other file goes through one transaction with its record, unless its own COMMIT ends that first. */
    method ApplyInTransaction(file: File, ghost reach: nat, budget: nat) returns (left: nat, ok: bool)
      requires !Untransacted(file)
      modifies this
      ensures Outcome(State(), left, ok) == ApplyDb(old(State()), file, reach, budget)
    {
      if budget == 0 {
        return 0, false;
      }
      ExecSql(file);
      left := budget - 1;
      if CommitsItself(file) {
        if left == 0 {
          return left, false;
        }
        left := left - 1;
      }
      recorded := recorded + {file};
      return left, true;
    }

    /**
     * One start: completes at most `budget` writes and reports whether it got to the end, which it
     * does unless it is stopped or a row is refused.
     */
    method Run(entries: seq<Entry>, reach: nat, budget: nat) returns (left: nat, ok: bool)
      modifies this
      ensures Outcome(State(), left, ok) == StartDb(old(State()), entries, 0, reach, budget)
      ensures Sorted(entries) && Inv(old(State()), entries) ==>
                Inv(State(), entries) && Progress(old(State()), State()) && (ok ==> Finished(State(), entries))
      ensures old(refused) == 0 && budget >= 3 * |entries| + old(convertible) ==> ok
    {
      left := budget;
      ghost var whole := StartDb(State(), entries, 0, reach, budget);
      StartFacts(State(), entries, reach, budget);
      for n := 0 to |entries|
        invariant StartDb(State(), entries, n, reach, left) == whole
      {
        var e := entries[n];
        if !IsMigration(e) || e.file in recorded {
          continue;
        }
        if e.file == Finalize && pending == Some(true) {
          continue;
        }
        if Untransacted(e.file) {
          left, ok := ApplyUntransacted(e.file, reach, left);
        } else {
          left, ok := ApplyInTransaction(e.file, reach, left);
        }
        if !ok {
          return;
        }
      }
      ok := true;
    }
  }

  lemma StartFacts(db: Db, entries: seq<Entry>, reach: nat, budget: nat)
    ensures var o := StartDb(db, entries, 0, reach, budget);
            && (Sorted(entries) && Inv(db, entries) ==>
                  Inv(o.db, entries) && Progress(db, o.db) && (o.ok ==> Finished(o.db, entries)))
            && (db.refused == 0 && budget >= 3 * |entries| + db.convertible ==> o.ok)
  {
    if Sorted(entries) && Inv(db, entries) {
      StartKeepsInv(db, entries, 0, reach, budget);
    }
    if db.refused == 0 && budget >= 3 * |entries| + db.convertible {
      StartCompletes(db, entries, reach, budget);
    }
  }

  /** Any number of starts, each stopping anywhere. */
  method Restart(runner: Runner, entries: seq<Entry>, starts: seq<Start>)
    modifies runner
    ensures runner.State() == Life(old(runner.State()), entries, starts)
    ensures Sorted(entries) && Inv(old(runner.State()), entries) ==>
              Inv(runner.State(), entries) && Progress(old(runner.State()), runner.State())
  {
    ghost var first := runner.State();
    for k := 0 to |starts|
      invariant runner.State() == Life(first, entries, starts[..k])
    {
      assert starts[..k + 1][..k] == starts[..k];
      var left, ok := runner.Run(entries, starts[k].reach, starts[k].budget);
    }
    assert starts[..|starts|] == starts;
    if Sorted(entries) && Inv(first, entries) {
      LifeKeepsInv(first, entries, starts);
    }
  }
}
