# Engram: verified models of the memory server's algorithms

Engram is a memory server. Around its storage and its model calls sit several algorithms and state
machines: workers that extract facts ("atoms") from memories and retire the facts they replace, a
scanner that digs JSON out of model output, a splitter and a chunker, rank comparison, LIKE quoting,
graph consolidation, a bi-temporal history, a migration runner, span extraction and a startup retry
loop. This project models them in Dafny and proves what they keep over all inputs, all walk orders
and all runs.

Check everything with `dafny verify dfyconfig.toml`.

## How the model is built

* Code that updates variables or tables is modelled by methods and classes with the same loops and
  early exits; key, time and comparison helpers are functions. A method is specified either directly
  or by a function whose laws are then proved.
* Times are integers counted from Go's zero time, `float64` is `real`, strings are sequences of characters with ASCII case
  folding, a document is a sequence of bytes. Durations of the retry loop are 64-bit and their
  overflow is modelled.
* A transaction is one step that happens as a whole or not at all. A failing statement, a crash, a
  cancelled context, an interrupted sleep, the answer of a model call and the text heuristic for
  contradictions are inputs, so every theorem holds for all of them.
* Go's map iteration order is an arbitrary choice at every step; `sort.Slice` is any sorted
  permutation.

| modules | what they model |
|---|---|
| `Atoms`, `Dedup`, `DedupLaws`, `DedupHead`, `DedupCoverage`, `DedupGates` | planning which extracted atoms are new and which supersede stored ones |
| `AtomTable`, `PlanFacts`, `Chains`, `AtomWrites`, `AtomWorker`, `WorkerProtocol`, `WorkerSteps`, `WorkerCoverage` | the atom table, executing a plan, and any number of interleaved workers |
| `JsonScan`, `JsonText` | the bracket scanner and the JSON texts of sections 4, 5 and 7 of RFC 8259 |
| `SessionWindows`, `Sentences`, `Chunker` | splitting sessions at speaker turns and texts into overlapping chunks |
| `RankOverlap` | rank-biased overlap |
| `LikePattern` | LIKE quoting against the matcher of section 9.7.1 of the PostgreSQL documentation |
| `MemoryGraph`, `AutoSupersede`, `Contradictions` | graph consolidation |
| `MemoryHistory`, `MemoryVersions` | the memories and memory_versions tables over whole runs |
| `Migrations`, `MigrationRunner` | the migration runner over any sequence of starts and crashes |
| `DocumentSpans`, `DocumentSearch`, `DocumentBudget`, `DocumentQuery` | windows into a document, merged and cut to a budget |
| `StartupRetry` | bounded retry against an adversarial clock |
| `Basics`, `Text`, `StableSort` | shared vocabulary, string order and trimming, stable sorting |

## Where code and comments disagree

The model follows the code.

* `internal/audit/rbo.go:6` promises 1.0 for identical rankings; the code reaches 1 - p^k and never 1
  (`RankOverlap.ScoreRange`).
* `internal/chunk/chunker.go:98-100` says no chunk exceeds the model limit; the carried overlap can
  push one past it (`Chunker.OverlapCanExceedWindow`). `Chunker.ExceedsIff` says exactly which chunks
  do, `Chunker.NoChunkExceeds` gives a condition on the limits that rules it out, and the bound that
  always holds is part of `Chunker.ChunkSentences`.
* `internal/db/postgres.go:446-458` says an incomplete backfill is retried on the next start; 003 is
  recorded all the same, so it never is, and 004 is then never applied (`Migrations.FinalizeIff`,
  `Migrations.StuckForever`).
* `internal/db/postgres.go:372` says every file but the listed ones is applied and recorded in a single
  transaction. Four such files hold their own BEGIN and COMMIT (`017_canonical_entities.sql:1-41`,
  `026_atoms.sql:12-98`, `029_atoms_observed_at.sql:1-22` and `029_layerb.sql:13-51` in
  `internal/db/migrations`): PostgreSQL only warns about the inner BEGIN, and the inner COMMIT ends the
  runner's transaction, so the record is a write of its own. A start stopped between the two leaves the
  file applied and unrecorded, and the next start runs it again (`Migrations.TwoWritesCanSplit`).
  `Migrations.AtomicExactlyWithOneWrite` says which files are applied exactly when recorded.
* `internal/db/postgres_memory.go:620-621` describes the as-of query as returning the memories active
  at a time; the set is right, but rows carry their current content (`MemoryVersions.AsOfShowsLaterContent`).
  `MemoryHistory.AsOfRowExactIff` and `MemoryVersions.AsOfBodyExactIff` say when row and content are
  exact, and `MemoryVersions.HistoryRebuildsThePast` that the versions do hold the past content.
* `sessionWindows` (`internal/atom/extract.go:284-293`) fails on texts longer than a limit below two
  runes: a limit of one makes its loop cut empty windows for ever, a limit of zero divides by zero at
  line 284. `SessionWindows.CutAdvancesIff` shows that two is where the loop begins to advance.
* A batch that reports a value, another and the first again leaves the second as the head
  (`DedupHead.RepeatedValueLosesLatest`), because the third report is dropped as a repeat.
  `DedupHead.ValueWinsIff` says which reported value heads a key when the others give way to the last
  report. All candidates of one session have the same assertion time (`internal/atom/extract.go:316-320`,
  `internal/atom/worker.go:150-153`), so within one job the extractor's order decides
  (`DedupHead.SessionOrderDecides`).

## Model

| member | source | states |
|---|---|---|
| `Dedup.BuildIndex` | internal/atom/dedup.go:84-92 | the loop computes the specification `Index`, whose content `DedupLaws.IndexHoldsLatest` pins down |
| `Dedup.DropRepeats` | internal/atom/dedup.go:98-116 | keeps the first candidate of every batch key, in order |
| `Dedup.PlanBatch` | internal/atom/dedup.go:139-197 | the loop that rewrites its own index equals the fold `PlanAll`, about which the laws are proved |
| `Dedup.Deduplicate` | internal/atom/dedup.go:83-200 | the whole function equals `Planned` |
| `DedupLaws.IndexHoldsLatest` | internal/atom/dedup.go:84-92 | the index has exactly the stored keys, each with a stored atom of that key than which no stored atom of the key is later |
| `DedupLaws.OrderIsWeak` | internal/atom/dedup.go:120-137 | the mixed comparator is a strict weak order, so stable sorting is well defined |
| `DedupLaws.OthersKeepOrder` | internal/atom/dedup.go:118-130 | atoms other than status changes keep the extractor's order |
| `DedupLaws.OthersComeFirst` | internal/atom/dedup.go:118-137 | the batch is the other atoms in the extractor's order followed by the status changes |
| `DedupLaws.TiesKeepOrder` | internal/atom/dedup.go:118-137 | status changes that tie in key and assertion time keep the extractor's order |
| `DedupLaws.UniqueKeepsStatus` | internal/atom/dedup.go:98-116 | status changes with distinct batch keys all survive batch deduplication |
| `DedupLaws.StatusBatchStrict` | internal/atom/dedup.go:118-137 | after sorting, status changes form one strictly increasing sequence of key and assertion time and none is lost |
| `DedupLaws.StatusPlannedAlone` | internal/atom/dedup.go:139-197 | atoms of other types have no influence on how status changes are planned |
| `DedupLaws.StatusOrderIndependent` | internal/atom/dedup.go:98-197 | with distinct batch keys and distinct times per key, every permutation of the batch plans the same status-change inserts and supersessions |
| `DedupHead.HeadProvenance` | internal/atom/dedup.go:139-197 | the head left under a key is the stored atom or a candidate of that key, changed in nothing but its link |
| `DedupHead.LatestAssertedWins` | internal/atom/dedup.go:98-214 | the candidate reported last under its key, by assertion time and then by position, gives the head its value, when no candidate repeats that value and the others and the stored atom give way to it |
| `DedupHead.LastFirstReportWins` | internal/atom/dedup.go:98-197 | of the first reports of each value, the last by assertion time and among ties by the extractor's order heads the key, when the others and the stored atom give way to it |
| `DedupHead.SessionOrderDecides` | internal/atom/extract.go:316-320 | in a batch with a single assertion time, as every session gives, the first report that comes last heads its key |
| `DedupHead.LastReportExists` | internal/atom/dedup.go:118-137 | every key that is reported at all has a last report |
| `DedupHead.ValueWinsIff` | internal/atom/dedup.go:98-214 | the value of a candidate, the latest asserted one or any other, is the head's exactly when no first report of another value comes after the first report of that one, ties in time decided by the extractor's order |
| `DedupHead.UniqueApart` | internal/atom/dedup.go:98-116 | batch deduplication leaves one candidate per batch key |
| `DedupHead.RepeatedValueLosesLatest` | internal/atom/dedup.go:98-116 | a concrete batch in which the latest report loses because its value was reported before |
| `DedupHead.SupersessionIsForwardIff` | internal/atom/dedup.go:173-183 | no accepted candidate was asserted before the atom it supersedes, exactly when that atom does not claim validity from before its assertion |
| `DedupGates.SupersessionsPassedGates` | internal/atom/dedup.go:150-196 | every planned supersession is within one key, between different values, by no event, by a candidate at most 0.2 (and 1e-9) less confident and not asserted before the retired atom's validity start, with the link and closing time that go with it |
| `DedupGates.KeysPlannedAlone` | internal/atom/dedup.go:139-197 | candidates of other keys have no influence on what is planned under a key |
| `DedupGates.SoleCandidate` | internal/atom/dedup.go:139-197 | a sole candidate of its key that is no event: inserted if the key is new, dropped if the stored atom says the same, inserted beside it exactly when that atom is over 0.2 more confident or became valid after the candidate was asserted, and otherwise its successor; nothing else is planned under the key |
| `DedupCoverage.NoValueLost` | internal/atom/dedup.go:83-200 | whatever a candidate reports, an atom with its key and value is stored or planned afterwards |
| `DedupCoverage.EventsJudgedAlone` | internal/atom/dedup.go:144-163 | an event that survives batch deduplication is inserted exactly when the stored atom of its key, if any, differs in value or in the day of a dated occurrence, whatever else is in the batch |
| `DedupCoverage.SameReportIff` | internal/atom/dedup.go:98-116 | two candidates are one report exactly when project, type, subject, relation and value agree up to case and surrounding space and, for events, the day agrees |
| `Text.NormalizeIff` | internal/atom/dedup.go:151 | two texts count as the same exactly when, trimmed, they agree up to the case of letters |
| `Text.TrimExact` | internal/atom/dedup.go:151 | trimming takes off all surrounding white space and nothing else |
| `AtomTable.InsertEffect` | internal/db/postgres_atom.go:39-69 | inserting appends a row unless its id exists |
| `AtomTable.RetireEffect` | internal/db/postgres_atom.go:94-126 | the transaction commits exactly when the successor's id is new and the predecessor is active, and then closes that one row and appends the successor |
| `PlanFacts.StepKeepsPlanInv` | internal/atom/dedup.go:139-197 | every planning step keeps heads open, ids new and links sound |
| `PlanFacts.PlanIsSound` | internal/atom/dedup.go:83-200 | every plan retires only stored, newly inserted or earlier-planned atoms, each once, within one key, never an event and never before its validity start |
| `Chains.InsertKeepsChains` | internal/db/postgres_atom.go:39-69 | inserting an open unlinked atom keeps the chain shape |
| `Chains.InsertKeepsChainsIff` | internal/mcp/atoms_handler.go:113-129 | an atom with a new id inserted from outside the workers keeps the chains exactly when it is open and supersedes nothing |
| `Chains.RetireKeepsChains` | internal/db/postgres_atom.go:94-126 | retiring an active atom in favour of a linked successor keeps the chain shape |
| `Chains.ChainedMeansChains` | internal/db/postgres_atom.go:91-126 | the shape kept by every write is a set of disjoint acyclic chains within one key: one superseder per retired atom, none per active one, one active head per chain, its newest row |
| `Chains.HeadAssertedLast` | internal/atom/dedup.go:173-196 | without back-dated rows assertion times never decrease towards the head |
| `AtomWrites.InsertStep` | internal/db/postgres_atom.go:39-69 | one insert adds one active row and rewrites nothing |
| `AtomWrites.RetireStep` | internal/db/postgres_atom.go:94-126 | one supersession closes its predecessor, rewrites nothing else and conserves the number of active rows |
| `AtomWorker.AtomStore.InsertAtom` | internal/db/postgres_atom.go:30-69 | completes id, creation and observation time and inserts the atom, or writes nothing when the statement fails |
| `AtomWorker.StampedFields` | internal/db/postgres_atom.go:30-69 | a written row has the missing id, creation and observation time filled in and is otherwise the atom |
| `AtomWorker.AtomStore.RetireAtom` | internal/db/postgres_atom.go:94-126 | succeeds exactly when the transaction commits, and leaves the table untouched otherwise |
| `AtomWorker.AtomStore.GetActiveAtoms` | internal/db/postgres_atom.go:130-250 | returns the active rows of the project, most recently observed first and undated ones last |
| `AtomWorker.PrepareCandidates` | internal/atom/worker.go:147-157 | every candidate gets an id if it has none, the job's project and the session date as observation time if it has none |
| `AtomWorker.InsertAll` | internal/atom/worker.go:182-188 | writes a prefix of the atoms, the whole list unless a statement fails |
| `AtomWorker.RetireAll` | internal/atom/worker.go:192-212 | carries out a prefix of the supersessions, the whole list unless one fails or does not commit; a dry run inserts the successors unlinked |
| `AtomWorker.DryRunRetiresNothing` | internal/atom/worker.go:192-206 | a dry run always goes through, leaves every stored row as it was and writes each successor without its link |
| `AtomWorker.ProcessJob` | internal/atom/worker.go:159-215 | the table is that of an executed prefix of the plan made from a snapshot, or of the unplanned candidates when the read failed, and the job is done exactly when nothing is left |
| `AtomWorker.InsertsExecute` | internal/atom/worker.go:182-188 | new distinct candidates add one active row each |
| `AtomWorker.RetiresExecute` | internal/atom/worker.go:192-212 | every retirement of a runnable plan commits and the number of active atoms is conserved |
| `AtomWorker.PlanExecutes` | internal/atom/worker.go:174-214 | a plan from an uninterrupted snapshot always executes: every retirement finds its predecessor active, events stay untouched, chains hold, and the active count grows by exactly the number of fresh atoms |
| `AtomWorker.ProcessUninterrupted` | internal/atom/worker.go:121-215 | a job none of whose statements fails completes with those guarantees |
| `WorkerProtocol.NextKeepsInv` | internal/atom/worker.go:102-215 | no step of any worker breaks the chains or another worker's plan |
| `WorkerProtocol.ChainsInEveryRun` | internal/atom/worker.go:121-215 | in every interleaving of any number of workers, after every step, the supersedes links form disjoint acyclic chains with one active head each |
| `WorkerProtocol.RunOnlyCloses` | internal/db/postgres_atom.go:39-126 | over any stretch of any run a row keeps content and link, is closed at most once, and never if an event |
| `WorkerProtocol.JobTakenUpOnce` | internal/db/postgres_atom.go:264-313 | no job is taken up twice, by one worker or by two |
| `WorkerSteps.PreparedAreNew` | internal/atom/worker.go:147-157 | what the extractor builds, prepared with new ids, is fit to enter the protocol and planning |
| `WorkerSteps.TrailKeepsInv` | internal/atom/worker.go:121-215 | any steps of one worker keep what every run keeps |
| `WorkerSteps.InsertSteps` | internal/atom/worker.go:182-188 | the inserts of a job are protocol steps |
| `WorkerSteps.RetireSteps` | internal/atom/worker.go:192-212 | the supersessions of a job are protocol steps |
| `WorkerSteps.JobIsSteps` | internal/atom/worker.go:159-215 | planning, the executed prefix of the writes and the end of the job are a trail of protocol steps to the closed job |
| `WorkerSteps.ProcessLoaded` | internal/atom/worker.go:121-215 | whatever fails, running the job's code is such a trail, so it keeps the chains and every other worker's plan |
| `WorkerCoverage.StepTracks` | internal/atom/worker.go:159-215 | after every step of any worker, what a candidate says is in the table, or the job is unfinished and its worker still holds it |
| `WorkerCoverage.RunUnderWay` | internal/db/postgres_atom.go:264-313 | in every run a queued job is being processed and no worker works on a job that is still queued |
| `WorkerCoverage.FinishedJobIsStored` | internal/atom/worker.go:147-215 | in every interleaving, once a job is finished every candidate it extracted has a row with its key and value, and keeps it for good |
| `JsonScan.BalancedJsonFrom` | internal/atom/extract.go:428-467 | the stack loop computes `Scan` and returns the trimmed text up to its end |
| `JsonScan.FirstBalancedJson` | internal/atom/extract.go:416-426 | answers exactly when some opening bracket's shortest balanced text is valid JSON, with that text, trimmed, of the first such bracket; brackets that do not work out are passed over |
| `JsonScan.ScanFindsShortestBalanced` | internal/atom/extract.go:428-467 | the scanner succeeds exactly when some prefix from the start is balanced outside string literals, and then returns the shortest one |
| `JsonText.PiecesBody` | internal/atom/extract.go:433-445 | a printed JSON string never ends its literal early |
| `JsonText.ScanReadsValue` | internal/atom/extract.go:428-467 | from the opening bracket of a printed array or object the scanner stops exactly at its end |
| `JsonText.EmbeddedValueRecovered` | internal/atom/extract.go:416-467 | after any prefix none of whose brackets starts a valid balanced text, and before any trailing text, exactly the printed value is returned |
| `SessionWindows.LastMessageBoundary` | internal/atom/extract.go:298-314 | returns the last turn that starts in the window, or 0 |
| `SessionWindows.CutAdvancesIff` | internal/atom/extract.go:286-293 | the cut advances exactly for windows of two runes or more, and is never below half the limit |
| `SessionWindows.Split` | internal/atom/extract.go:279-296 | the loop computes `Windows` and terminates |
| `SessionWindows.WindowsPartition` | internal/atom/extract.go:279-296 | windows concatenate to the input, none exceeds the limit, every one but the last is at least half full |
| `SessionWindows.WindowCountBounded` | internal/atom/extract.go:284-294 | the number of windows, hence of model calls, is bounded by the text length over half the limit |
| `SessionWindows.WindowsEndAtLastTurns` | internal/atom/extract.go:284-314 | a window shorter than the limit ends just before the last turn that starts within the limit, in its second half; a full window has no turn in its second half |
| `RankOverlap.CountShared` | internal/audit/rbo.go:25-30 | the inner loop counts the items in both sets |
| `RankOverlap.SumDepths` | internal/audit/rbo.go:21-32 | the incremental loop sums the weighted overlaps of all depths |
| `RankOverlap.Rbo` | internal/audit/rbo.go:10-34 | computes `Score`, which `RankOverlap.ScoreByItems` gives item by item; 0 for an empty list |
| `RankOverlap.ScoreSymmetric` | internal/audit/rbo.go:10-34 | the score does not depend on the order of the lists |
| `RankOverlap.ScoreRange` | internal/audit/rbo.go:10-34 | for 0 < p < 1 the score lies in [0, 1 - p^k] and reaches the top exactly when the first k entries agree position by position without a repeat |
| `RankOverlap.ScoreByItems` | internal/audit/rbo.go:9-34 | the score is 1 - p times the sum over the items of both lists of p^(d-1)/d for the depths d from the larger of the item's two ranks to the shorter length |
| `LikePattern.EscapeLike` | internal/db/postgres_aggregate.go:15-20 | the three replacement passes, as `Escaped` |
| `LikePattern.ThreePassesAreOne` | internal/db/postgres_aggregate.go:12-20 | three sequential replacements equal one character-wise pass |
| `LikePattern.OrderMatters` | internal/db/postgres_aggregate.go:14-14 | escaping the backslash last would break even the text "%" |
| `LikePattern.EscapedMatchesItself` | internal/db/postgres_aggregate.go:12-20 | escaped text matches exactly itself |
| `LikePattern.EscapedPrefixMatches` | internal/db/postgres_project_ttl.go:34-34 | escaped prefix followed by % matches exactly the strings with that prefix |
| `LikePattern.EscapedContainsMatches` | internal/db/postgres_aggregate.go:55-55 | escaped filter between two % matches exactly the strings containing it |
| `LikePattern.TagFilterIsContainment` | internal/db/postgres_aggregate.go:42-59 | a tag is selected exactly when it contains the filter text, ignoring case; the empty filter selects all |
| `LikePattern.ListExpiredProjects` | internal/db/postgres_project_ttl.go:33-74 | returns the projects of the listing in order |
| `LikePattern.ListingIsEarliestExpired` | internal/db/postgres_project_ttl.go:33-58 | only expired projects with the literal prefix, earliest first, complete without a limit, and with one omitting nothing that expired before a listed project |
| `Sentences.SplitSentences` | internal/chunk/chunker.go:409-438 | the sentences are the trimmed, restored, non-empty pieces between the boundaries, a boundary being the end of a run of white space right behind a terminator |
| `Sentences.PartsCutAtBoundaries` | internal/chunk/chunker.go:417-433 | the specification `Parts` cuts at all boundaries and nowhere else |
| `Sentences.SentenceEndsInTerminator` | internal/chunk/chunker.go:417-433 | a sentence ended by a boundary ends in the terminator before it and has no terminator followed by white space inside |
| `Sentences.LastSentenceUncut` | internal/chunk/chunker.go:417-433 | nor has the last sentence |
| `Sentences.PartsNotEmpty` | internal/chunk/chunker.go:409-438 | no sentence is empty |
| `Sentences.SplitKeepsText` | internal/chunk/chunker.go:409-448 | for every masking of dots the sentences hold exactly the text's characters other than white space, in order |
| `Chunker.BuildOverlap` | internal/chunk/chunker.go:139-152 | the overlap is the longest suffix of the finished chunk that fits the overlap budget |
| `Chunker.ChunkSentences` | internal/chunk/chunker.go:124-167 | chunks are contiguous sentence runs whose new parts tile the list, each carrying the longest fitting tail of the run before, closed only when the next sentence does not fit; only a first new sentence is taken without regard to the limit, and a chunk is at most max(maxChars, overlapChars + 1 + longest sentence) long |
| `Chunker.PackingUnique` | internal/chunk/chunker.go:124-167 | sentences and limits determine the chunks, so a packing is exactly what the loop returns |
| `Chunker.ExceedsIff` | internal/chunk/chunker.go:135-161 | a chunk exceeds maxChars exactly when its first new sentence does not fit behind its carried overlap, and then it holds no other new sentence |
| `Chunker.NoChunkExceeds` | internal/chunk/chunker.go:98-100 | no chunk exceeds maxChars when it leaves room for an overlap, a separator and the longest sentence |
| `Chunker.ExceedsWithoutOverlapIff` | internal/chunk/chunker.go:135-161 | without an overlap budget, negative or zero, some chunk exceeds maxChars exactly when some sentence does |
| `Chunker.ChunkText` | internal/chunk/chunker.go:103-174 | blank text gives nothing, short text one chunk, anything else a packing of all its sentences, which are cut at the boundaries |
| `Chunker.OverlapsRemoved` | internal/chunk/chunker.go:124-167 | deleting every carried overlap gives the sentence list back |
| `Chunker.ChunksAreRuns` | internal/chunk/chunker.go:124-167 | every chunk renders its run of sentences and keeps the size bound |
| `Chunker.EndsIncrease` | internal/chunk/chunker.go:124-167 | run ends strictly increase |
| `Chunker.ChunksKeepText` | internal/chunk/chunker.go:103-174 | the chunks less their overlaps hold the whole text but for white space |
| `Chunker.OverlapCanExceedWindow` | internal/chunk/chunker.go:135-161 | a concrete call whose second chunk exceeds maxChars though every sentence fits |
| `MemoryGraph.CanonicalIsUnordered` | internal/consolidate/consolidate.go:229-234 | two pairs have one canonical form exactly when they are the same unordered pair |
| `AutoSupersede.Store.SupersedePair` | internal/consolidate/consolidate.go:593-612 | edge and soft delete happen together, or not at all on a fault or an immutable memory |
| `AutoSupersede.Store.ResolvePair` | internal/consolidate/consolidate.go:554-613 | afterwards the pair needs no further work, unless a read or the transaction failed or a memory of the pair is immutable |
| `AutoSupersede.Store.ResolveAround` | internal/consolidate/consolidate.go:537-615 | every contradiction of the memory has been looked at, unless a read or a transaction failed |
| `AutoSupersede.Store.Run` | internal/consolidate/consolidate.go:524-620 | for every walk order: success leaves no contradiction between active memories more than a day apart, only newer-to-older supersedes edges are written, only memories with a much newer active one are retired, the count is exact, failure needs a failing read, a failing transaction or an immutable memory, and a settled graph is left alone; every retired memory is the target of a full-strength supersedes edge from a memory over a day newer that it contradicted, and every edge written retires its target |
| `AutoSupersede.SeenMeansSettled` | internal/consolidate/consolidate.go:524-620 | looking at the edges of the initially active memories is enough to settle the whole graph |
| `AutoSupersede.NewestSurvives` | internal/consolidate/consolidate.go:573-591 | no pass retires the newest active memory |
| `AutoSupersede.WrittenEdgesDescend` | internal/consolidate/consolidate.go:573-591 | along any walk of written edges memories get strictly older, so they form no cycle |
| `AutoSupersede.RunTwice` | internal/consolidate/consolidate.go:524-620 | a second run after a successful one returns 0 |
| `Contradictions.SelectTexts` | internal/consolidate/consolidate.go:363-380 | each memory is represented by its first chunk that is short enough, context memories by none |
| `Contradictions.Store.ReviewHit` | internal/consolidate/consolidate.go:412-465 | one neighbour is skipped, queued or linked, linked only if the heuristic flags it and queued only if it does not, and its pair is decided for good |
| `Contradictions.Store.Heuristic` | internal/consolidate/consolidate.go:389-466 | for every walk order all neighbours are decided, new edges come from similar enough neighbours that the heuristic flags, and the leftovers are distinct pairs without an edge |
| `Contradictions.Store.SecondPass` | internal/consolidate/consolidate.go:471-501 | at most the configured number of model calls, exactly as many as there are pairs up to that limit, and every contradictory verdict is heeded |
| `Contradictions.Store.Detect` | internal/consolidate/consolidate.go:342-504 | nothing but contradicts edges between similar enough neighbours is added, as many as reported, each flagged by the heuristic or passed over by it and confirmed by the model within the call limit, so nothing at all without a flag and a model; no pair is linked twice nor a memory with itself; a completed pass heeds every confirmation and links every pair unless one of its hits was dissimilar or not flagged, and below the call limit it has asked about the latter; only a failing search or store stops a pass |
| `Contradictions.DetectRepeatedly` | internal/consolidate/consolidate.go:342-504 | any sequence of passes, failed ones included, keeps at most one edge per pair and no self-edge and never changes an existing edge; every new edge is a neighbour that some pass found at or above its threshold and flagged or had confirmed, and no pass asks the model more often than its limit |
| `Contradictions.OneEdgePerPair` | internal/consolidate/consolidate.go:389-466 | in such a graph two contradictions over one unordered pair are the same edge |
| `MemoryHistory.Backend.StoreMemory` | internal/db/postgres_memory.go:49-99 | adds an open row stamped now; a known id is rejected |
| `MemoryHistory.Backend.VersionMemory` | internal/db/postgres_memory.go:474-502 | closes the open version at the snapshot's stamp and appends a copy of the current row |
| `MemoryHistory.Backend.UpdateMemory` | internal/db/postgres_memory.go:210-288 | snapshots and edits the given fields only; missing or invalidated memories are not found, immutable ones rejected |
| `MemoryHistory.ChangesExactly` | internal/db/postgres_memory.go:210-288 | field by field what storing, updating and invalidating set and leave alone in the row, in other rows and in the versions; the start of validity follows new tags and nothing else |
| `MemoryHistory.Backend.SoftDeleteMemory` | internal/db/postgres_memory.go:545-618 | snapshots and closes the row; missing or invalidated memories are not found, immutable ones rejected |
| `MemoryHistory.LaterStepKeepsAsOf` | internal/db/postgres_memory.go:620-635 | a step written after t does not change the as-of answer for t |
| `MemoryHistory.AsOfIsReplay` | internal/db/postgres_memory.go:620-635 | over every run under a non-decreasing clock the unlimited as-of query at t finds exactly the memories active after replaying the steps written by t |
| `MemoryHistory.AsOfRowExactIff` | internal/db/postgres_memory.go:620-635 | a returned row shows the memory as it was at t exactly when it was last updated at or before t |
| `MemoryHistory.SnapshotKeepsTiles` | internal/db/postgres_memory.go:474-502 | a snapshot closes the open window exactly where the new one begins |
| `MemoryVersions.StepOnHistory` | internal/db/postgres_memory.go:210-288 | a memory's history grows by one version exactly when the memory changes |
| `MemoryVersions.VersionsTile` | internal/db/postgres_memory.go:474-502 | after every run the windows of a memory meet, with only the last one open |
| `MemoryVersions.WindowsTileTime` | internal/db/postgres_memory.go:474-502 | from a memory's first change on every instant lies in exactly one window, and none before |
| `MemoryVersions.VersionsRecordChanges` | internal/db/postgres_memory.go:474-502 | each change left one version with exactly the body it replaced, in order |
| `MemoryVersions.LaterStepKeepsRebuilt` | internal/db/postgres_memory.go:474-502 | a later step does not change what is rebuilt for t |
| `MemoryVersions.HistoryRebuildsThePast` | internal/db/postgres_memory.go:474-502 | for every time and every memory that existed then, its body after the steps begun by then can be rebuilt from the final tables |
| `MemoryVersions.AsOfBodyExactIff` | internal/db/postgres_memory.go:620-635 | the content of a returned row is that of its time exactly when no version is stamped later or the first later one holds the current content |
| `MemoryVersions.AsOfShowsLaterContent` | internal/db/postgres_memory.go:620-635 | a concrete run in which the as-of query returns later content |
| `MigrationRunner.Runner.Backfill` | internal/db/postgres.go:405-464 | the row loop computes `BackfillDb`: it converts rows up to the first refused one, which ends the start, and clears the flag only when nothing remains |
| `MigrationRunner.Runner.ApplyUntransacted` | internal/db/postgres.go:331-370 | the listed files: SQL, backfill after 003, record last, a stop possible between any two writes |
| `MigrationRunner.Runner.ApplyInTransaction` | internal/db/postgres.go:372-392 | the other files: one write, or two when the file commits by itself |
| `MigrationRunner.Runner.Run` | internal/db/postgres.go:240-395 | one start equals `StartDb`; wherever it stops the invariants hold and nothing recorded is run again, a start that gets to the end leaves only a pending 004 undone, and it gets there unless it is stopped or a row is refused |
| `MigrationRunner.Restart` | internal/db/postgres.go:240-395 | any sequence of starts equals `Life` and keeps the same |
| `Migrations.FileOf` | internal/db/postgres.go:331-335 | a name stands for one file, and commits by itself exactly if it is one of the four |
| `Migrations.UntouchedIsSound` | internal/db/postgres.go:274-281 | the invariants hold of a database no migration has touched |
| `Migrations.TransactionKeepsInv` | internal/db/postgres.go:372-392 | the single write of a file that is not listed and does not commit by itself keeps the invariants |
| `Migrations.RunSqlKeepsInv` | internal/db/postgres.go:331-350 | the SQL of a file of two writes, even run again, keeps the invariants |
| `Migrations.RecordKeepsInv` | internal/db/postgres.go:361-367 | so does its record once the SQL has run and the backfill went through |
| `Migrations.BackfillKeepsInv` | internal/db/postgres.go:405-464 | so does the backfill wherever it ends; when it goes through, 003 may be recorded |
| `Migrations.StartKeepsInv` | internal/db/postgres.go:240-395 | wherever a start stops: recorded files have been applied, a file of one write exactly once if recorded and else never, files take effect in order, 004 only with the flag not pending |
| `Migrations.LifeKeepsInv` | internal/db/postgres.go:240-395 | the same over any sequence of starts and stops, and nothing recorded is run again or forgotten |
| `Migrations.StartCompletes` | internal/db/postgres.go:286-395 | a start that no row refuses and nothing stops gets to the end, within three writes per file and one per row |
| `Migrations.TwoWritesCanSplit` | internal/db/migrations/026_atoms.sql:12-98 | for every shipped file of two writes, 026 for one, a stop after its SQL leaves it applied and unrecorded, and the next start runs it again |
| `Migrations.AtomicExactlyWithOneWrite` | internal/db/postgres.go:331-392 | a shipped file is applied exactly when recorded in every life of the server, and at most once, if and only if it is neither listed nor commits by itself |
| `Migrations.FinalizeWaits` | internal/db/postgres.go:307-323 | once 004 has been applied, 003 was recorded |
| `Migrations.FinalizeWasSafe` | internal/db/postgres.go:307-323 | 004 has only ever been applied after every embedding was converted, so it drops none |
| `Migrations.FinalizeIff` | internal/db/postgres.go:446-463 | after a completed start 004 is in place exactly when no chunk is beyond conversion |
| `Migrations.StuckForever` | internal/db/postgres.go:446-458 | a chunk of invalid length keeps 004 from being applied by any sequence of starts |
| `Migrations.RefusedBlocksTheRest` | internal/db/postgres.go:429-437 | a row whose update is refused keeps 003 from being recorded and every later file from being applied, by any sequence of starts |
| `DocumentSpans.SortByStart` | internal/claude/document_query.go:216-216 | a permutation ordered by start |
| `DocumentSpans.MergeSpans` | internal/claude/document_query.go:212-230 | the result is in order with gaps between spans, covers exactly the given bytes, and each span keeps the match of a span that starts where it does |
| `DocumentSpans.CoverDetermines` | internal/claude/document_query.go:212-230 | two such results with one cover have the same ranges |
| `DocumentSpans.MergeOrderIndependent` | internal/claude/document_query.go:212-230 | every order of the input gives the same ranges |
| `DocumentSearch.FirstOccurrence` | internal/claude/document_query.go:108-112 | the leftmost occurrence from a position on, or none |
| `DocumentSearch.FindAll` | internal/claude/document_query.go:105-128 | the windows reach half the window size around the occurrences that a left-to-right search finds when it goes on behind each one |
| `DocumentSearch.SearchMissesNothing` | internal/claude/document_query.go:105-128 | windows lie around true occurrences and every occurrence, overlapping ones included, begins inside one |
| `DocumentSearch.FindSubstrings` | internal/claude/document_query.go:101-129 | the windows of all non-empty filter strings in order |
| `DocumentBudget.CutIsLongest` | internal/claude/document_query.go:160-163 | the walk back finds the longest cut within the room that ends where a character starts |
| `DocumentBudget.CutSpan` | internal/claude/document_query.go:158-175 | the part of the span up to that cut, or nothing |
| `DocumentBudget.TakeWithin` | internal/claude/document_query.go:147-183 | total length within the budget, truncated exactly when the spans do not all fit, everything before the first misfit whole, and the misfit cut at a character boundary or dropped |
| `DocumentQuery.ApartLength` | internal/claude/document_query.go:147-183 | merged spans are together as long as the number of bytes they cover |
| `DocumentQuery.ExcerptsOf` | internal/claude/document_query.go:137-183 | truncated exactly when the windows cover more bytes than the cap; excerpts are true substrings at their offsets, in order, each beginning with a window and naming its match; without truncation they hold exactly the bytes of the windows, with it exactly those before the last character or window start the budget reaches |
| `DocumentQuery.FindWindows` | internal/claude/document_query.go:75-135 | exactly the windows the filter selects; they cover every match and nothing farther than half a window from one, and without a filter the head of the document |
| `DocumentQuery.QueryDocument` | internal/claude/document_query.go:62-183 | which inputs are rejected, empty or without matches; truncated exactly when the selected windows cover more bytes than the budget allows; excerpts are true substrings, in order, total at most four times the token budget and show nothing outside the filter's windows, of which a truncated answer shows all up to the last character start the budget reaches; without truncation every match and the beginning of every occurrence of every filter string is shown, and "no matches" means there is none |
| `StartupRetry.NextBackoffDoubles` | cmd/engram/startup_retry.go:190-194 | doubling in 64 bits with the overflow guard is a capped doubling |
| `StartupRetry.BackoffNext` | cmd/engram/startup_retry.go:190-194 | the loop's backoff is the closed form of the schedule and stays positive |
| `StartupRetry.BackoffCapped` | cmd/engram/startup_retry.go:190-194 | with the initial backoff within the cap, backoff n is min(initial * 2^(n-1), max) |
| `StartupRetry.DefaultSchedule` | cmd/engram/startup_retry.go:99-130 | without settings the backoffs are one second doubled up to thirty |
| `StartupRetry.RunRound` | cmd/engram/startup_retry.go:132-189 | one round: which result it has, when its attempt started and how long it sleeps; it makes no attempt when entered with the context cancelled, and is given up exactly when cancelled there or by its attempt or when its sleep is interrupted |
| `StartupRetry.RetryDependency` | cmd/engram/startup_retry.go:99-203 | for every clock, attempt and cancellation behaviour it terminates; success means exactly that the last attempt succeeded and all before it failed transiently; no attempt starts after the deadline, with the context cancelled or after an interrupted sleep; sleeps follow the schedule, separate the attempts and add up to at most the waiting time; it stops only on success, a permanent error, the deadline or cancellation; without waiting time there is one attempt |

## Left out

- HTTP, MCP and SSE surfaces, model and embedding calls, flags, logging and metrics: inputs where a modelled loop uses them, otherwise not modelled.
- SQL text, row scanning, vector and full-text ranking: each statement is modelled by its effect on a table; `VectorSearch` results are an input.
- The abbreviation word list of `protectAbbreviations`: any masking of dots in NUL-free text is allowed instead.
- `json.Valid`, regular expression matching, `isContradiction` and `ParseDateTag` are inputs; the first is only used as accepting printed JSON.
- Byte lengths of text outside document queries: strings are characters, so `len` counts characters, and case folding is ASCII.
- `sentenceWindow`, `chunkSection`, `ChunkDocument`: `ChunkDocument` does not cover text before the first heading.
- `stripThinkBlocks`, `stripMarkdownFences`, `JaccardTopK`, `setDiff`, `InferRelationships`, `GetMemoryHistory` ordering: easy beside what is modelled.
- Scope and provenance columns of atoms: carried along by the source, read by none of the modelled code.
- The memory of a claimed job exists: `processJob` dereferences it (internal/atom/worker.go:131) although `GetMemory` may return nothing.
- The newest row of a chain is newest by insertion; that it is also the last asserted holds without back-dated rows (`Chains.HeadAssertedLast`).
- Running `Deduplicate` again on the same batch is not a no-op: atoms kept by the confidence gate and older event occurrences are inserted again.
- `eventOccurrenceDate` is taken in UTC days.
- The HTTP client `handleAtomStore` (internal/mcp/atoms_handler.go:114-139) also inserts atoms, with a `valid_to` and `supersedes` of its own: the chain theorem is about workers, and `Chains.InsertKeepsChainsIff` says which of these inserts it survives.
- Failing reads before a contradiction pass begins (`GetMemoryTypeMap`, `GetAllChunksWithEmbeddings`): the pass then does nothing.
- Confluence of `AutoSupersede`: chains of contradictions end differently under different walk orders; only order-independent facts are stated.
- Memories and relationships of one project only; an edge filed under a project neither of its memories belongs to is not walked by `AutoSupersede`.
- Hard deletes, merges and `DeleteProject` in the history: they remove rows, so replay equality does not apply to them.
- Version columns that never vary (`valid_to` is empty in every snapshot) and columns a version does not record (pattern confidence).
- Several server versions with different migration directories, and other writers of `chunks` during a migration: the directory is fixed and only the backfill converts rows.
- Which rows the database refuses (an embedding of another dimension than the column's) is an input. pgx may also reject every update because the result set of the row query is still open on the connection (internal/db/postgres.go:406 and 432); every row of valid length is then of the refused kind.
- A file that a failing statement leaves partly applied: the SQL of a file takes effect as a whole or not at all.
- Which files commit by themselves is the list of the shipped ones, not read from their text.
- The prompt built from document excerpts and the answer to it.
- `MergeSpans`: sorts a copy where the source sorts its argument in place; the argument is not used afterwards.
