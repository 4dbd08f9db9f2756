/**
 * The schema migration runner. A start walks the migration files in order under a global lock
 * and may crash or fail between any two database writes; `budget` is the number of writes it
 * completes. A server's life is any number of such starts.
 */
module Migrations {
  import opened Basics
  import Text

  /** Migration files, by how the runner and the database treat them. */
  datatype File =
    | Pgvector
    | Finalize
    | ConcurrentIndex(name: string)
    | SelfCommitting(name: string)
    | Ordinary(name: string)

  function NameOf(f: File): string {
    match f
    case Pgvector => "003_pgvector.sql"
    case Finalize => "004_pgvector_finalize.sql"
    case ConcurrentIndex(name) => name
    case SelfCommitting(name) => name
    case Ordinary(name) => name
  }

  const CONCURRENT_INDEXES := {"023_null_embed_covering_idx.sql", "024_reembed_null_partial_index.sql"}
  const SELF_COMMITTING := {"017_canonical_entities.sql", "026_atoms.sql", "029_atoms_observed_at.sql", "029_layerb.sql"}

  function FileOf(name: string): (f: File)
    ensures NameOf(f) == name
    ensures CommitsItself(f) <==> name in SELF_COMMITTING
  {
    if name == "003_pgvector.sql" then Pgvector
    else if name == "004_pgvector_finalize.sql" then Finalize
    else if name in CONCURRENT_INDEXES then ConcurrentIndex(name)
    else if name in SELF_COMMITTING then SelfCommitting(name)
    else Ordinary(name)
  }

  /** A directory entry; `migration` holds for plain files whose name ends in ".sql". */
  datatype Entry = Entry(file: File, migration: bool)

  function EntryOf(name: string, isDir: bool): Entry {
    Entry(FileOf(name), !isDir && |name| >= 4 && name[|name| - 4..] == ".sql")
  }

  /**
   * `times` counts how often a file's SQL took effect; `pending` is the backfill flag; the rest
   * counts the chunks whose embedding has not been converted: those that can be, those of invalid
   * length, which are skipped, and those whose update the database refuses, which end a start.
   */
  datatype Db = Db(recorded: set<File>, times: map<File, nat>, pending: Option<bool>, convertible: nat, invalid: nat,
                   refused: nat)

  /** The files the runner itself applies outside a transaction. */
  predicate Untransacted(f: File) {
    f.Pgvector? || f.ConcurrentIndex?
  }

  /**
   * The files that hold their own BEGIN and COMMIT. Sent through the runner's transaction, their
   * COMMIT ends it, and the record that follows is a write of its own.
   */
  predicate CommitsItself(f: File) {
    f.SelfCommitting?
  }

  /** SQL and record are two writes. */
  predicate TwoWrites(f: File) {
    Untransacted(f) || CommitsItself(f)
  }

  predicate IsMigration(e: Entry) {
    e.migration
  }

  /** Directory listings are sorted by name. */
  ghost predicate Sorted(entries: seq<Entry>) {
    forall i, j :: 0 <= i < j < |entries| ==> Text.Less(NameOf(entries[i].file), NameOf(entries[j].file))
  }

  function Times(db: Db, file: File): nat {
    if file in db.times then db.times[file] else 0
  }

  // ---- Single database writes ----

  function RunSql(db: Db, file: File): Db {
    db.(times := db.times[file := Times(db, file) + 1],
        pending := if file == Pgvector && db.pending.None? then Some(true) else db.pending)
  }

  function Record(db: Db, file: File): Db {
    db.(recorded := db.recorded + {file})
  }

  function ClearFlag(db: Db): Db {
    db.(pending := if db.pending.Some? then Some(false) else None)
  }

  // ---- A start, as a function of the writes it may complete ----

  /** The database, the writes left, and whether the start goes on. */
  datatype Outcome = Outcome(db: Db, left: nat, ok: bool)

  /**
   * Converts embeddings one by one and clears the flag only if none remains. `reach` is the number
   * of convertible rows that come before the first refused one, if there is any.
   */
  function BackfillDb(db: Db, reach: nat, budget: nat): Outcome {
    var wanted := if db.refused > 0 && reach < db.convertible then reach else db.convertible;
    if budget < wanted then Outcome(db.(convertible := db.convertible - budget), 0, false)
    else
      var rest := db.(convertible := db.convertible - wanted);
      var left := budget - wanted;
      if db.refused > 0 then Outcome(rest, left, false)
      else if db.invalid > 0 then Outcome(rest, left, true)
      else if left == 0 then Outcome(rest, 0, false)
      else Outcome(ClearFlag(rest), left - 1, true)
  }

  /** The SQL of a file, and the backfill after 003. */
  function ExecDb(db: Db, file: File, reach: nat, budget: nat): Outcome {
    if budget == 0 then Outcome(db, 0, false)
    else if file == Pgvector then BackfillDb(RunSql(db, file), reach, budget - 1)
    else Outcome(RunSql(db, file), budget - 1, true)
  }

  function ApplyDb(db: Db, file: File, reach: nat, budget: nat): Outcome {
    if TwoWrites(file) then
      var o := ExecDb(db, file, reach, budget);
      if !o.ok || o.left == 0 then Outcome(o.db, o.left, false) else Outcome(Record(o.db, file), o.left - 1, true)
    else if budget == 0 then Outcome(db, 0, false)
    else Outcome(Record(RunSql(db, file), file), budget - 1, true)
  }

  /** Nothing to do for this entry: no migration, already recorded, or held back by the gate. */
  predicate Handled(db: Db, e: Entry) {
    !IsMigration(e) || e.file in db.recorded || (e.file == Finalize && db.pending == Some(true))
  }

  function VisitDb(db: Db, e: Entry, reach: nat, budget: nat): Outcome {
    if Handled(db, e) then Outcome(db, budget, true) else ApplyDb(db, e.file, reach, budget)
  }

  function Visitor(reach: nat): (Db, Entry, nat) -> Outcome {
    (db: Db, e: Entry, budget: nat) => VisitDb(db, e, reach, budget)
  }

  /** Entry by entry, until one stops the walk. */
  function Walk(visit: (Db, Entry, nat) -> Outcome, db: Db, entries: seq<Entry>, n: nat, budget: nat): Outcome
    requires n <= |entries|
    decreases |entries| - n
  {
    if n == |entries| then Outcome(db, budget, true)
    else
      var o := visit(db, entries[n], budget);
      if o.ok then Walk(visit, o.db, entries, n + 1, o.left) else o
  }

  function StartDb(db: Db, entries: seq<Entry>, n: nat, reach: nat, budget: nat): Outcome
    requires n <= |entries|
  {
    Walk(Visitor(reach), db, entries, n, budget)
  }

  /** One start of a server: how many writes it completes, and the row order its backfill meets. */
  datatype Start = Start(reach: nat, budget: nat)

  /** Any number of starts, each stopping anywhere. */
  function Life(db: Db, entries: seq<Entry>, starts: seq<Start>): Db {
    if starts == [] then db
    else
      var last := starts[|starts| - 1];
      StartDb(Life(db, entries, starts[..|starts| - 1]), entries, 0, last.reach, last.budget).db
  }

  function Untouched(convertible: nat, invalid: nat, refused: nat): Db {
    Db({}, map[], None, convertible, invalid, refused)
  }

  // ---- What every start keeps ----

  /** A recorded file has been applied; a file of one write is applied exactly once if recorded and else never. */
  ghost predicate Tracked(db: Db) {
    && (forall f :: f in db.recorded ==> Times(db, f) >= 1)
    && (forall f :: !TwoWrites(f) ==> Times(db, f) == if f in db.recorded then 1 else 0)
  }

  /**
   * The flag exists once 003 has run. It is cleared only when every embedding is converted, and
   * when none is beyond conversion it is cleared by the time 003 is recorded, which a refused update prevents.
   */
  ghost predicate FlagHonest(db: Db) {
    && (db.pending.Some? <==> Times(db, Pgvector) >= 1)
    && (db.pending == Some(false) ==> db.convertible == 0 && db.invalid == 0 && db.refused == 0)
    && (Pgvector in db.recorded ==> db.refused == 0 && (db.invalid == 0 ==> db.pending == Some(false)))
  }

  ghost predicate Gated(db: Db) {
    Times(db, Finalize) >= 1 ==> db.pending != Some(true)
  }

  /** The migrations before position n are recorded, except perhaps the gated one. */
  ghost predicate DoneBefore(db: Db, entries: seq<Entry>, n: int) {
    forall i :: 0 <= i < n && i < |entries| && IsMigration(entries[i]) && entries[i].file != Finalize ==>
                  entries[i].file in db.recorded
  }

  ghost predicate Lists(entries: seq<Entry>, file: File) {
    exists i :: 0 <= i < |entries| && entries[i].file == file && IsMigration(entries[i])
  }

  /** Files take effect in order: whatever precedes an applied file is recorded, except perhaps the gated one. */
  ghost predicate InOrder(db: Db, entries: seq<Entry>) {
    && (forall j :: 0 <= j < |entries| && Times(db, entries[j].file) >= 1 ==> DoneBefore(db, entries, j))
    && (forall f :: Times(db, f) >= 1 ==> Lists(entries, f))
  }

  ghost predicate Inv(db: Db, entries: seq<Entry>) {
    Tracked(db) && FlagHonest(db) && Gated(db) && InOrder(db, entries)
  }

  lemma RecordKeepsOrder(db: Db, entries: seq<Entry>, file: File)
    requires InOrder(db, entries)
    ensures InOrder(Record(db, file), entries)
  {
    forall j | 0 <= j < |entries| && Times(db, entries[j].file) >= 1 ensures DoneBefore(Record(db, file), entries, j) {
      assert DoneBefore(db, entries, j);
    }
  }

  lemma RunKeepsOrder(db: Db, entries: seq<Entry>, n: nat)
    requires Sorted(entries) && n < |entries| && IsMigration(entries[n]) && InOrder(db, entries) && DoneBefore(db, entries, n)
    ensures InOrder(RunSql(db, entries[n].file), entries)
  {
    forall j | 0 <= j < |entries| && Times(RunSql(db, entries[n].file), entries[j].file) >= 1
      ensures DoneBefore(RunSql(db, entries[n].file), entries, j)
    {
      if entries[j].file == entries[n].file {
        NamesDistinct(entries, n, j);
      }
      assert DoneBefore(db, entries, j);
    }
  }

  lemma NamesDistinct(entries: seq<Entry>, i: nat, j: nat)
    requires Sorted(entries) && i < |entries| && j < |entries| && entries[i].file == entries[j].file
    ensures i == j
  {
    Text.LessIrreflexive(NameOf(entries[i].file));
  }

  lemma PgvectorFirst()
    ensures Text.Less(NameOf(Pgvector), NameOf(Finalize))
  {
    var a, b := NameOf(Pgvector), NameOf(Finalize);
    assert a[1..][1..][0] == '3' && b[1..][1..][0] == '4';
    assert Text.Less(a[1..][1..], b[1..][1..]);
    assert Text.Less(a[1..], b[1..]);
  }

  lemma SmallerComesFirst(entries: seq<Entry>, i: nat, j: nat)
    requires Sorted(entries) && i < |entries| && j < |entries| && Text.Less(NameOf(entries[i].file), NameOf(entries[j].file))
    ensures i < j
  {
    Text.LessIrreflexive(NameOf(entries[i].file));
    if j < i {
      Text.LessTransitive(NameOf(entries[i].file), NameOf(entries[j].file), NameOf(entries[i].file));
    }
  }

  /** Once 004 has been applied, 003 was recorded. */
  lemma FinalizeWaits(db: Db, entries: seq<Entry>, n: nat)
    requires Sorted(entries) && InOrder(db, entries)
    requires n < |entries| && IsMigration(entries[n]) && entries[n].file == Pgvector
    ensures Times(db, Finalize) >= 1 ==> Pgvector in db.recorded
  {
    if Times(db, Finalize) >= 1 {
      PgvectorFirst();
      var j :| 0 <= j < |entries| && entries[j].file == Finalize && IsMigration(entries[j]);
      SmallerComesFirst(entries, n, j);
      assert DoneBefore(db, entries, j);
    }
  }

  /** Applying and recording a file in one transaction. */
  lemma TransactionKeepsInv(db: Db, entries: seq<Entry>, n: nat)
    requires Sorted(entries) && n < |entries| && IsMigration(entries[n]) && Inv(db, entries) && DoneBefore(db, entries, n)
    requires !TwoWrites(entries[n].file) && entries[n].file !in db.recorded
    requires entries[n].file == Finalize ==> db.pending != Some(true)
    ensures Inv(Record(RunSql(db, entries[n].file), entries[n].file), entries)
  {
    RunKeepsOrder(db, entries, n);
    RecordKeepsOrder(RunSql(db, entries[n].file), entries, entries[n].file);
  }

  lemma RunSqlKeepsInv(db: Db, entries: seq<Entry>, n: nat)
    requires Sorted(entries) && n < |entries| && IsMigration(entries[n]) && Inv(db, entries) && DoneBefore(db, entries, n)
    requires TwoWrites(entries[n].file) && entries[n].file !in db.recorded
    ensures Inv(RunSql(db, entries[n].file), entries)
  {
    RunKeepsOrder(db, entries, n);
    assert entries[n].file == Pgvector ==> Times(db, Finalize) == 0 by {
      if entries[n].file == Pgvector {
        FinalizeWaits(db, entries, n);
      }
    }
    RunSqlKeepsRecords(db, entries[n].file);
  }

  lemma RunSqlKeepsRecords(db: Db, file: File)
    requires Tracked(db) && FlagHonest(db) && Gated(db) && TwoWrites(file) && file !in db.recorded
    requires file == Pgvector ==> Times(db, Finalize) == 0
    ensures Tracked(RunSql(db, file)) && FlagHonest(RunSql(db, file)) && Gated(RunSql(db, file))
  {
  }

  /** The SQL has run, and for 003 the backfill went through. */
  predicate Recordable(db: Db, file: File) {
    Times(db, file) >= 1
    && (file == Pgvector ==> db.refused == 0 && (db.invalid == 0 ==> db.pending == Some(false)))
  }

  lemma RecordKeepsInv(db: Db, entries: seq<Entry>, file: File)
    requires Inv(db, entries) && TwoWrites(file) && Recordable(db, file)
    ensures Inv(Record(db, file), entries)
  {
    RecordKeepsOrder(db, entries, file);
  }

  /** With 003 shipped, 004 has only ever been applied after 003 was recorded and every embedding converted. */
  lemma FinalizeWasSafe(db: Db, entries: seq<Entry>)
    requires Sorted(entries) && Inv(db, entries) && Lists(entries, Pgvector) && Times(db, Finalize) >= 1
    ensures Pgvector in db.recorded && db.pending == Some(false)
    ensures db.convertible == 0 && db.invalid == 0 && db.refused == 0
  {
    var n :| 0 <= n < |entries| && entries[n].file == Pgvector && IsMigration(entries[n]);
    FinalizeWaits(db, entries, n);
    assert db.pending.Some? && !db.pending.value;
  }

  /** What one start may do to the database, wherever it stops. */
  ghost predicate Progress(db: Db, db': Db) {
    && db.recorded <= db'.recorded
    && (forall f :: f in db.recorded ==> Times(db', f) == Times(db, f))
    && (forall f :: Times(db, f) <= Times(db', f))
    && db'.convertible <= db.convertible && db'.invalid == db.invalid && db'.refused == db.refused
    && (db.pending == Some(false) ==> db'.pending == Some(false))
    && (Pgvector in db.recorded ==> db'.pending == db.pending)
  }

  lemma RunSqlProgress(db: Db, file: File)
    requires file !in db.recorded
    ensures Progress(db, RunSql(db, file))
  {
  }

  lemma RecordProgress(db: Db, db': Db, file: File)
    requires Progress(db, db')
    ensures Progress(db, Record(db', file))
  {
  }

  lemma ProgressTransitive(a: Db, b: Db, c: Db)
    requires Progress(a, b) && Progress(b, c)
    ensures Progress(a, c)
  {
  }

  /** Nothing is left for a start to do, except the gated file while the backfill is pending. */
  ghost predicate Finished(db: Db, entries: seq<Entry>) {
    && DoneBefore(db, entries, |entries|)
    && (Lists(entries, Finalize) && db.pending != Some(true) ==> Finalize in db.recorded)
  }

  // ---- Every start keeps the invariants ----

  lemma BackfillKeepsInv(db: Db, entries: seq<Entry>, reach: nat, budget: nat)
    requires Inv(db, entries) && Pgvector !in db.recorded && Times(db, Pgvector) >= 1
    ensures var o := BackfillDb(db, reach, budget);
            Inv(o.db, entries) && Progress(db, o.db) && (o.ok ==> Recordable(o.db, Pgvector))
  {
    var db' := BackfillDb(db, reach, budget).db;
    assert forall f :: Times(db', f) == Times(db, f);
    forall j | 0 <= j < |entries| && Times(db', entries[j].file) >= 1 ensures DoneBefore(db', entries, j) {
      assert DoneBefore(db, entries, j);
    }
  }

  lemma ExecKeepsInv(db: Db, entries: seq<Entry>, n: nat, reach: nat, budget: nat)
    requires Sorted(entries) && n < |entries| && IsMigration(entries[n]) && Inv(db, entries) && DoneBefore(db, entries, n)
    requires TwoWrites(entries[n].file) && entries[n].file !in db.recorded
    ensures var o := ExecDb(db, entries[n].file, reach, budget);
            Inv(o.db, entries) && Progress(db, o.db) && (o.ok ==> Recordable(o.db, entries[n].file))
    ensures entries[n].file != Pgvector ==> ExecDb(db, entries[n].file, reach, budget).db.pending == db.pending
  {
    var file := entries[n].file;
    if budget > 0 {
      RunSqlKeepsInv(db, entries, n);
      RunSqlProgress(db, file);
      if file == Pgvector {
        BackfillKeepsInv(RunSql(db, file), entries, reach, budget - 1);
        ProgressTransitive(db, RunSql(db, file), ExecDb(db, file, reach, budget).db);
      }
    }
  }

  lemma ApplyKeepsInv(db: Db, entries: seq<Entry>, n: nat, reach: nat, budget: nat)
    requires Sorted(entries) && n < |entries| && IsMigration(entries[n]) && Inv(db, entries) && DoneBefore(db, entries, n)
    requires !Handled(db, entries[n])
    ensures var o := ApplyDb(db, entries[n].file, reach, budget);
            Inv(o.db, entries) && Progress(db, o.db) && (o.ok ==> entries[n].file in o.db.recorded)
    ensures entries[n].file != Pgvector ==> ApplyDb(db, entries[n].file, reach, budget).db.pending == db.pending
  {
    var file := entries[n].file;
    if TwoWrites(file) {
      var o := ExecDb(db, file, reach, budget);
      ExecKeepsInv(db, entries, n, reach, budget);
      if o.ok && o.left > 0 {
        RecordKeepsInv(o.db, entries, file);
        RecordProgress(db, o.db, file);
      }
    } else if budget > 0 {
      TransactionKeepsInv(db, entries, n);
      RunSqlProgress(db, file);
      RecordProgress(db, RunSql(db, file), file);
    }
  }

  lemma VisitKeepsInv(db: Db, entries: seq<Entry>, n: nat, reach: nat, budget: nat)
    requires Sorted(entries) && n < |entries| && Inv(db, entries) && DoneBefore(db, entries, n) && GateDone(db, entries, n)
    ensures var o := VisitDb(db, entries[n], reach, budget);
            && Inv(o.db, entries) && Progress(db, o.db)
            && (o.ok ==> DoneBefore(o.db, entries, n + 1) && GateDone(o.db, entries, n + 1))
  {
    var o := VisitDb(db, entries[n], reach, budget);
    if Handled(db, entries[n]) {
      VisitedNext(db, db, entries, n);
    } else {
      ApplyKeepsInv(db, entries, n, reach, budget);
      if o.ok {
        VisitedNext(db, o.db, entries, n);
      }
    }
  }

  lemma VisitedNext(db: Db, db': Db, entries: seq<Entry>, n: nat)
    requires Sorted(entries) && n < |entries| && Progress(db, db') && Handled(db', entries[n])
    requires entries[n].file != Pgvector ==> db'.pending == db.pending
    requires DoneBefore(db, entries, n) && GateDone(db, entries, n)
    ensures DoneBefore(db', entries, n + 1) && GateDone(db', entries, n + 1)
  {
    forall i | 0 <= i < n && IsMigration(entries[i]) && entries[i].file == Finalize
      ensures Finalize in db'.recorded || db'.pending == Some(true)
    {
      if entries[n].file == Pgvector {
        PgvectorFirst();
        SmallerComesFirst(entries, n, i);
      }
    }
  }

  /** Up to position n the gated file is recorded unless the backfill is pending. */
  ghost predicate GateDone(db: Db, entries: seq<Entry>, n: nat) {
    forall i :: 0 <= i < n && i < |entries| && IsMigration(entries[i]) && entries[i].file == Finalize ==>
                  Finalize in db.recorded || db.pending == Some(true)
  }

  lemma {:induction false} StartKeepsInv(db: Db, entries: seq<Entry>, n: nat, reach: nat, budget: nat)
    requires Sorted(entries) && n <= |entries| && Inv(db, entries) && DoneBefore(db, entries, n) && GateDone(db, entries, n)
    ensures var o := StartDb(db, entries, n, reach, budget);
            Inv(o.db, entries) && Progress(db, o.db) && (o.ok ==> Finished(o.db, entries))
    decreases |entries| - n
  {
    if n < |entries| {
      VisitKeepsInv(db, entries, n, reach, budget);
      var o := VisitDb(db, entries[n], reach, budget);
      if o.ok {
        StartKeepsInv(o.db, entries, n + 1, reach, o.left);
        ProgressTransitive(db, o.db, StartDb(o.db, entries, n + 1, reach, o.left).db);
      }
    }
  }

  /** Over any sequence of starts and stops. */
  lemma {:induction false} LifeKeepsInv(db: Db, entries: seq<Entry>, starts: seq<Start>)
    requires Sorted(entries) && Inv(db, entries)
    ensures Inv(Life(db, entries, starts), entries) && Progress(db, Life(db, entries, starts))
  {
    if starts != [] {
      var front, last := starts[..|starts| - 1], starts[|starts| - 1];
      LifeKeepsInv(db, entries, front);
      StartKeepsInv(Life(db, entries, front), entries, 0, last.reach, last.budget);
      ProgressTransitive(db, Life(db, entries, front), Life(db, entries, starts));
    }
  }

  /** A database that no migration has touched. */
  lemma UntouchedIsSound(convertible: nat, invalid: nat, refused: nat, entries: seq<Entry>)
    ensures Inv(Untouched(convertible, invalid, refused), entries)
  {
  }

  // ---- How much a start needs ----

  /** The writes an entry takes when nothing refuses and nothing stops. */
  function Needs(db: Db, e: Entry): nat {
    if Handled(db, e) then 0
    else if e.file == Pgvector then 2 + db.convertible + (if db.invalid > 0 then 0 else 1)
    else if TwoWrites(e.file) then 2
    else 1
  }

  function Visited(db: Db, e: Entry): Db {
    VisitDb(db, e, 0, Needs(db, e)).db
  }

  lemma {:induction false} VisitWith(db: Db, e: Entry, reach: nat, budget: nat)
    requires db.refused == 0 && budget >= Needs(db, e)
    ensures VisitDb(db, e, reach, budget) == Outcome(Visited(db, e), budget - Needs(db, e), true)
    ensures Visited(db, e).refused == 0
    ensures Needs(db, e) + Visited(db, e).convertible <= 3 + db.convertible
  {
  }

  /**
   * What is known of a visit that nothing refuses: with the writes it needs it leaves a certain
   * database and the rest of the writes.
   */
  datatype Guide = Guide(visit: (Db, Entry, nat) -> Outcome, next: (Db, Entry) -> Db, needs: (Db, Entry) -> nat)

  ghost predicate Reliable(g: Guide) {
    forall d: Db, e: Entry, k: nat :: d.refused == 0 && k >= g.needs(d, e) ==>
      && g.visit(d, e, k) == Outcome(g.next(d, e), k - g.needs(d, e), true)
      && g.next(d, e).refused == 0 && g.needs(d, e) + g.next(d, e).convertible <= 3 + d.convertible
  }

  /** The database when an unstopped start comes to entry n. */
  function DbAt(g: Guide, db: Db, entries: seq<Entry>, n: nat): Db
    requires n <= |entries|
  {
    if n == 0 then db else g.next(DbAt(g, db, entries, n - 1), entries[n - 1])
  }

  function CostTo(g: Guide, db: Db, entries: seq<Entry>, n: nat): nat
    requires n <= |entries|
  {
    if n == 0 then 0 else CostTo(g, db, entries, n - 1) + g.needs(DbAt(g, db, entries, n - 1), entries[n - 1])
  }

  lemma {:induction false} CostBound(g: Guide, db: Db, entries: seq<Entry>, n: nat)
    requires Reliable(g) && n <= |entries| && db.refused == 0
    ensures DbAt(g, db, entries, n).refused == 0
    ensures CostTo(g, db, entries, n) + DbAt(g, db, entries, n).convertible <= 3 * n + db.convertible
  {
    if n > 0 {
      CostBound(g, db, entries, n - 1);
      var d, e := DbAt(g, db, entries, n - 1), entries[n - 1];
      assert g.visit(d, e, g.needs(d, e)) == Outcome(g.next(d, e), 0, true);
    }
  }

  /** With the writes for the first n entries a walk comes to entry n, with the rest of its writes left. */
  lemma {:induction false} WalkComesTo(g: Guide, db: Db, entries: seq<Entry>, n: nat, budget: nat)
    requires Reliable(g) && n <= |entries| && db.refused == 0 && budget >= CostTo(g, db, entries, n)
    ensures Walk(g.visit, db, entries, 0, budget)
            == Walk(g.visit, DbAt(g, db, entries, n), entries, n, budget - CostTo(g, db, entries, n))
  {
    if n > 0 {
      WalkComesTo(g, db, entries, n - 1, budget);
      CostBound(g, db, entries, n - 1);
      var d, e := DbAt(g, db, entries, n - 1), entries[n - 1];
      var left := budget - CostTo(g, db, entries, n - 1);
      assert g.visit(d, e, left) == Outcome(g.next(d, e), left - g.needs(d, e), true);
    }
  }

  function Runs(reach: nat): Guide {
    Guide(Visitor(reach), (db: Db, e: Entry) => Visited(db, e), (db: Db, e: Entry) => Needs(db, e))
  }

  lemma RunsAreReliable(reach: nat)
    ensures Reliable(Runs(reach))
  {
    forall d: Db, e: Entry, k: nat | d.refused == 0 && k >= Needs(d, e)
      ensures VisitDb(d, e, reach, k) == Outcome(Visited(d, e), k - Needs(d, e), true)
      ensures Visited(d, e).refused == 0 && Needs(d, e) + Visited(d, e).convertible <= 3 + d.convertible
    {
      VisitWith(d, e, reach, k);
    }
  }

  /** A start that no row refuses and nothing stops completes. */
  lemma StartCompletes(db: Db, entries: seq<Entry>, reach: nat, budget: nat)
    requires db.refused == 0 && budget >= 3 * |entries| + db.convertible
    ensures StartDb(db, entries, 0, reach, budget).ok
  {
    RunsAreReliable(reach);
    CostBound(Runs(reach), db, entries, |entries|);
    WalkComesTo(Runs(reach), db, entries, |entries|, budget);
  }

  // ---- Which files are applied exactly when recorded ----

  lemma {:induction false} HandledAreSkipped(db: Db, entries: seq<Entry>, i: nat, n: nat, reach: nat, budget: nat)
    requires i <= n <= |entries| && forall j :: i <= j < n ==> Handled(db, entries[j])
    ensures Walk(Visitor(reach), db, entries, i, budget) == Walk(Visitor(reach), db, entries, n, budget)
    decreases n - i
  {
    if i < n {
      HandledAreSkipped(db, entries, i + 1, n, reach, budget);
    }
  }

  /** An unstopped start has come to entry n. */
  ghost predicate Reached(d: Db, entries: seq<Entry>, n: nat) {
    Inv(d, entries) && d.refused == 0 && DoneBefore(d, entries, n) && GateDone(d, entries, n)
  }

  lemma {:induction false} VisitedKeepsInv(db: Db, entries: seq<Entry>, n: nat)
    requires Sorted(entries) && n < |entries| && Reached(db, entries, n)
    ensures Reached(Visited(db, entries[n]), entries, n + 1)
  {
    VisitWith(db, entries[n], 0, Needs(db, entries[n]));
    VisitKeepsInv(db, entries, n, 0, Needs(db, entries[n]));
  }

  /** What holds at the beginning and is kept by every visit holds wherever an unstopped start comes to. */
  lemma {:induction false} DbAtKeeps(g: Guide, db: Db, entries: seq<Entry>, n: nat, holds: (Db, nat) -> bool)
    requires n <= |entries| && holds(db, 0)
    requires forall d: Db, i: nat :: i < n && holds(d, i) ==> holds(g.next(d, entries[i]), i + 1)
    ensures holds(DbAt(g, db, entries, n), n)
  {
    if n > 0 {
      DbAtKeeps(g, db, entries, n - 1, holds);
    }
  }

  lemma VisitedOther(db: Db, e: Entry, file: File)
    requires e.file != file && file !in db.recorded && db.refused == 0
    ensures file !in Visited(db, e).recorded
  {
    VisitWith(db, e, 0, Needs(db, e));
  }

  ghost predicate ReachedWithout(d: Db, entries: seq<Entry>, i: nat, file: File) {
    Reached(d, entries, i) && file !in d.recorded
  }

  /** An unstopped first start comes to entry n with its file not yet recorded. */
  lemma {:induction false} ComesUnrecorded(entries: seq<Entry>, n: nat)
    requires Sorted(entries) && n < |entries|
    ensures ReachedWithout(DbAt(Runs(0), Untouched(0, 0, 0), entries, n), entries, n, entries[n].file)
  {
    var file := entries[n].file;
    ghost var holds := (d: Db, i: nat) => ReachedWithout(d, entries, i, file);
    UntouchedIsSound(0, 0, 0, entries);
    EarlierNamesDiffer(entries, n);
    forall d: Db, i: nat | i < n && holds(d, i) ensures holds(Runs(0).next(d, entries[i]), i + 1) {
      VisitedKeepsInv(d, entries, i);
      VisitedOther(d, entries[i], file);
    }
    DbAtKeeps(Runs(0), Untouched(0, 0, 0), entries, n, holds);
  }

  /** With a single write left at a file of two, its SQL is applied and its record is not made. */
  lemma {:induction false} StopSplits(d: Db, entries: seq<Entry>, n: nat)
    requires n < |entries| && IsMigration(entries[n]) && TwoWrites(entries[n].file) && entries[n].file !in d.recorded
    ensures var db := Walk(Visitor(0), d, entries, n, 1).db;
            && Times(db, entries[n].file) == Times(d, entries[n].file) + 1 && db.recorded == d.recorded
            && db.pending == RunSql(d, entries[n].file).pending
  {
    var o := ApplyDb(d, entries[n].file, 0, 1);
    assert Visitor(0)(d, entries[n], 1) == o && !o.ok;
  }

  /** The first start, stopped after the SQL of entry n. */
  function StopAt(entries: seq<Entry>, n: nat): Start
    requires n <= |entries|
  {
    Start(0, CostTo(Runs(0), Untouched(0, 0, 0), entries, n) + 1)
  }

  lemma {:induction false} StopComesTo(entries: seq<Entry>, n: nat)
    requires n <= |entries|
    ensures Life(Untouched(0, 0, 0), entries, [StopAt(entries, n)])
            == Walk(Visitor(0), DbAt(Runs(0), Untouched(0, 0, 0), entries, n), entries, n, 1).db
  {
    RunsAreReliable(0);
    WalkComesTo(Runs(0), Untouched(0, 0, 0), entries, n, StopAt(entries, n).budget);
    OneStart(Untouched(0, 0, 0), entries, StopAt(entries, n));
  }

  lemma {:induction false} StoppedThere(d: Db, entries: seq<Entry>, n: nat)
    requires Sorted(entries) && n < |entries| && IsMigration(entries[n]) && TwoWrites(entries[n].file)
    requires ReachedWithout(d, entries, n, entries[n].file)
    ensures var once := Walk(Visitor(0), d, entries, n, 1).db;
            && Times(once, entries[n].file) >= 1 && entries[n].file !in once.recorded
            && forall j :: 0 <= j < n ==> Handled(once, entries[j])
  {
    StopSplits(d, entries, n);
    StillHandled(d, Walk(Visitor(0), d, entries, n, 1).db, entries, n);
  }

  lemma {:induction false} FirstStop(entries: seq<Entry>, n: nat)
    requires Sorted(entries) && n < |entries| && IsMigration(entries[n]) && TwoWrites(entries[n].file)
    ensures var once := Life(Untouched(0, 0, 0), entries, [StopAt(entries, n)]);
            && Times(once, entries[n].file) >= 1 && entries[n].file !in once.recorded
            && forall j :: 0 <= j < n ==> Handled(once, entries[j])
  {
    ComesUnrecorded(entries, n);
    StopComesTo(entries, n);
    StoppedThere(DbAt(Runs(0), Untouched(0, 0, 0), entries, n), entries, n);
  }

  /** Stopping a first start after its SQL leaves such a file applied and unrecorded, and the next start runs it again. */
  lemma {:induction false} TwoWritesCanSplit(entries: seq<Entry>, n: nat)
    requires Sorted(entries) && n < |entries| && IsMigration(entries[n]) && TwoWrites(entries[n].file)
    ensures var once := Life(Untouched(0, 0, 0), entries, [StopAt(entries, n)]);
            Times(once, entries[n].file) >= 1 && entries[n].file !in once.recorded
    ensures var twice := Life(Untouched(0, 0, 0), entries, [StopAt(entries, n), Start(0, 1)]);
            Times(twice, entries[n].file) >= 2 && entries[n].file !in twice.recorded
  {
    FirstStop(entries, n);
    var once := Life(Untouched(0, 0, 0), entries, [StopAt(entries, n)]);
    HandledAreSkipped(once, entries, 0, n, 0, 1);
    StopSplits(once, entries, n);
    TwoStarts(Untouched(0, 0, 0), entries, StopAt(entries, n), Start(0, 1));
  }

  lemma {:induction false} EarlierNamesDiffer(entries: seq<Entry>, n: nat)
    requires Sorted(entries) && n < |entries|
    ensures forall i :: 0 <= i < n ==> entries[i].file != entries[n].file
  {
    forall i | 0 <= i < n ensures entries[i].file != entries[n].file {
      if entries[i].file == entries[n].file {
        NamesDistinct(entries, i, n);
      }
    }
  }

  lemma OneStart(db: Db, entries: seq<Entry>, a: Start)
    ensures Life(db, entries, [a]) == StartDb(db, entries, 0, a.reach, a.budget).db
  {
    assert [a][..0] == [];
  }

  lemma TwoStarts(db: Db, entries: seq<Entry>, a: Start, b: Start)
    ensures Life(db, entries, [a, b]) == StartDb(Life(db, entries, [a]), entries, 0, b.reach, b.budget).db
  {
    assert [a, b][..1] == [a];
  }

  lemma {:induction false} StillHandled(d: Db, once: Db, entries: seq<Entry>, n: nat)
    requires Sorted(entries) && n < |entries| && DoneBefore(d, entries, n) && GateDone(d, entries, n)
    requires once.recorded == d.recorded && once.pending == RunSql(d, entries[n].file).pending
    ensures forall j :: 0 <= j < n ==> Handled(once, entries[j])
  {
    forall j | 0 <= j < n ensures Handled(once, entries[j]) {
    }
  }

  predicate Consistent(db: Db, file: File) {
    Times(db, file) >= 1 <==> file in db.recorded
  }

  /** Whatever rows there are and however often starts stop, the file is applied exactly when it is recorded. */
  ghost predicate AppliedIffRecorded(entries: seq<Entry>, file: File) {
    forall convertible: nat, invalid: nat, refused: nat, starts: seq<Start> ::
      Consistent(Life(Untouched(convertible, invalid, refused), entries, starts), file)
  }

  /** Whatever happens, the file is applied at most once. */
  ghost predicate AppliedAtMostOnce(entries: seq<Entry>, file: File) {
    forall convertible: nat, invalid: nat, refused: nat, starts: seq<Start> ::
      Times(Life(Untouched(convertible, invalid, refused), entries, starts), file) <= 1
  }

  /**
   * A shipped file is applied exactly when it is recorded, and at most once, exactly when its SQL
   * and its record are one write: it is neither applied outside a transaction nor commits by itself.
   */
  lemma {:induction false} AtomicExactlyWithOneWrite(entries: seq<Entry>, n: nat)
    requires Sorted(entries) && n < |entries| && IsMigration(entries[n])
    ensures AppliedIffRecorded(entries, entries[n].file) <==> !TwoWrites(entries[n].file)
    ensures AppliedAtMostOnce(entries, entries[n].file) <==> !TwoWrites(entries[n].file)
  {
    var file := entries[n].file;
    if TwoWrites(file) {
      NotAtomic(entries, n);
    } else {
      forall convertible: nat, invalid: nat, refused: nat, starts: seq<Start>
        ensures Consistent(Life(Untouched(convertible, invalid, refused), entries, starts), file)
        ensures Times(Life(Untouched(convertible, invalid, refused), entries, starts), file) <= 1
      {
        UntouchedIsSound(convertible, invalid, refused, entries);
        LifeKeepsInv(Untouched(convertible, invalid, refused), entries, starts);
      }
    }
  }

  lemma {:induction false} NotAtomic(entries: seq<Entry>, n: nat)
    requires Sorted(entries) && n < |entries| && IsMigration(entries[n]) && TwoWrites(entries[n].file)
    ensures !AppliedIffRecorded(entries, entries[n].file) && !AppliedAtMostOnce(entries, entries[n].file)
  {
    TwoWritesCanSplit(entries, n);
    assert !Consistent(Life(Untouched(0, 0, 0), entries, [StopAt(entries, n)]), entries[n].file);
    assert Times(Life(Untouched(0, 0, 0), entries, [StopAt(entries, n), Start(0, 1)]), entries[n].file) > 1;
  }

  // ---- The backfill gate ----

  /**
   * After a completed start, 004 is in place exactly when no chunk is beyond conversion. Such a
   * chunk is never retried: 003 is recorded all the same, and its count never changes again.
   */
  lemma FinalizeIff(db: Db, entries: seq<Entry>)
    requires Sorted(entries) && Inv(db, entries) && Finished(db, entries)
    requires Lists(entries, Pgvector) && Lists(entries, Finalize)
    ensures Finalize in db.recorded <==> db.invalid == 0
  {
    var n :| 0 <= n < |entries| && entries[n].file == Pgvector && IsMigration(entries[n]);
    assert Pgvector in db.recorded;
    if Finalize in db.recorded {
      assert Times(db, Finalize) >= 1;
      FinalizeWasSafe(db, entries);
    }
  }

  /** A chunk beyond conversion keeps 004 from being applied by this and every later start. */
  lemma StuckForever(db: Db, entries: seq<Entry>, starts: seq<Start>)
    requires Sorted(entries) && Inv(db, entries) && Lists(entries, Pgvector) && db.invalid > 0
    ensures Times(Life(db, entries, starts), Finalize) == 0
  {
    LifeKeepsInv(db, entries, starts);
    var db' := Life(db, entries, starts);
    if Times(db', Finalize) >= 1 {
      FinalizeWasSafe(db', entries);
    }
  }

  /** A refused update keeps 003 from being recorded, and with it every later file from being applied, for good. */
  lemma {:induction false} RefusedBlocksTheRest(db: Db, entries: seq<Entry>, starts: seq<Start>, n: nat, j: nat)
    requires Sorted(entries) && Inv(db, entries) && db.refused > 0
    requires n < j < |entries| && entries[n].file == Pgvector && IsMigration(entries[n])
    ensures var db' := Life(db, entries, starts);
            Pgvector !in db'.recorded && Times(db', entries[j].file) == 0
  {
    LifeKeepsInv(db, entries, starts);
    var db' := Life(db, entries, starts);
    assert !DoneBefore(db', entries, j);
  }
}
