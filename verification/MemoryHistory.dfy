/**
 * The bi-temporal memory tables. `memories` holds the current row of every memory; before each
 * change `memory_versions` receives a snapshot. A run is a sequence of stamped steps; each
 * transaction reads the clock once for the snapshot (`versionAt`) and again for the row (`at`).
 */
module MemoryHistory {
  import opened Basics

  /** The part of a memory that a version records. */
  datatype Body = Body(content: string, memoryType: string, tags: seq<string>, importance: int, validFrom: Option<int>)

  datatype Row = Row(body: Body, createdAt: int, updatedAt: int, validTo: Option<int>, reason: string, immutable: bool,
                     confidence: Option<real>)

  datatype Change = Updated | Invalidated

  datatype Version = Version(memoryId: string, body: Body, systemFrom: int, systemTo: Option<int>, change: Change, reason: string)

  datatype Tables = Tables(memories: map<string, Row>, versions: seq<Version>)

  datatype Op =
    | Store(id: string, body: Body, immutable: bool, confidence: Option<real>)
    | Update(id: string, content: Option<string>, tags: Option<seq<string>>, importance: Option<int>, confidence: Option<real>)
    | SoftDelete(id: string, reason: string)

  datatype Step = Step(op: Op, versionAt: int, at: int)

  datatype Outcome = Done | NotFound | Rejected

  /** How a `date:` tag is read; given by the tag parser. */
  type DateTag = seq<string> -> Option<int>

  const EMPTY := Tables(map[], [])

  predicate IsActive(tables: Tables, id: string) {
    id in tables.memories && tables.memories[id].validTo.None?
  }

  function ActiveIds(tables: Tables): set<string> {
    set id | id in tables.memories && tables.memories[id].validTo.None?
  }

  predicate Changeable(tables: Tables, id: string) {
    IsActive(tables, id) && !tables.memories[id].immutable
  }

  // ---- Single steps ----

  function Or<T>(o: Option<T>, d: T): T {
    if o.Some? then o.value else d
  }

  /** Fields given are replaced; new tags also decide the start of validity. */
  function Edited(r: Row, op: Op, at: int, dateTag: DateTag): Row
    requires op.Update?
  {
    var body := Body(Or(op.content, r.body.content), r.body.memoryType, Or(op.tags, r.body.tags),
                     Or(op.importance, r.body.importance),
                     if op.tags.Some? then dateTag(op.tags.value) else r.body.validFrom);
    r.(body := body, updatedAt := at, confidence := if op.confidence.Some? then op.confidence else r.confidence)
  }

  function Closed(v: Version, id: string, now: int): Version {
    if v.memoryId == id && v.systemTo.None? then v.(systemTo := Some(now)) else v
  }

  function CloseOpen(vs: seq<Version>, id: string, now: int): seq<Version> {
    if vs == [] then [] else CloseOpen(vs[..|vs| - 1], id, now) + [Closed(vs[|vs| - 1], id, now)]
  }

  function Snapshot(tables: Tables, id: string, now: int, change: Change, reason: string): seq<Version>
    requires id in tables.memories
  {
    CloseOpen(tables.versions, id, now) + [Version(id, tables.memories[id].body, now, None, change, reason)]
  }

  function Apply(tables: Tables, step: Step, dateTag: DateTag): Tables {
    var op, id := step.op, step.op.id;
    match op
    case Store(_, body, immutable, confidence) =>
      if id in tables.memories then tables
      else tables.(memories := tables.memories[id := Row(body, step.at, step.at, None, "", immutable, confidence)])
    case Update(_, _, _, _, _) =>
      if !Changeable(tables, id) then tables
      else Tables(tables.memories[id := Edited(tables.memories[id], op, step.at, dateTag)],
                  Snapshot(tables, id, step.versionAt, Updated, ""))
    case SoftDelete(_, reason) =>
      if !Changeable(tables, id) then tables
      else Tables(tables.memories[id := tables.memories[id].(validTo := Some(step.at), reason := reason)],
                  Snapshot(tables, id, step.versionAt, Invalidated, reason))
  }

  /** The tables after a whole run from an empty database. */
  function Replay(steps: seq<Step>, dateTag: DateTag): Tables {
    if steps == [] then EMPTY else Apply(Replay(steps[..|steps| - 1], dateTag), steps[|steps| - 1], dateTag)
  }

  class Backend {
    var memories: map<string, Row>
    var versions: seq<Version>
    const dateTag: DateTag

    function State(): Tables
      reads this
    {
      Tables(memories, versions)
    }

    constructor (dateTag: DateTag)
      ensures State() == EMPTY && this.dateTag == dateTag
    {
      memories, versions := map[], [];
      this.dateTag := dateTag;
    }

    method StoreMemory(id: string, body: Body, immutable: bool, confidence: Option<real>, now: int) returns (r: Outcome)
      modifies this
      ensures State() == Apply(old(State()), Step(Store(id, body, immutable, confidence), now, now), dateTag)
      ensures r == (if id in old(memories) then Rejected else Done)
    {
      if id in memories {
        return Rejected;
      }
      memories := memories[id := Row(body, now, now, None, "", immutable, confidence)];
      return Done;
    }

    /** Closes the open version of a memory and appends a snapshot of its current row. */
    method VersionMemory(id: string, change: Change, reason: string, now: int)
      requires id in memories
      modifies this`versions
      ensures versions == Snapshot(old(State()), id, now, change, reason)
    {
      var closed: seq<Version> := [];
      for i := 0 to |versions|
        invariant versions == old(versions) && closed == CloseOpen(versions[..i], id, now)
      {
        assert versions[..i + 1][..i] == versions[..i];
        closed := closed + [Closed(versions[i], id, now)];
      }
      assert versions[..|versions|] == versions;
      versions := closed + [Version(id, memories[id].body, now, None, change, reason)];
    }

    method UpdateMemory(id: string, content: Option<string>, tags: Option<seq<string>>, importance: Option<int>,
                        confidence: Option<real>, versionAt: int, now: int) returns (r: Outcome)
      modifies this
      ensures State() == Apply(old(State()), Step(Update(id, content, tags, importance, confidence), versionAt, now), dateTag)
      ensures r == (if !IsActive(old(State()), id) then NotFound
                    else if old(memories)[id].immutable then Rejected else Done)
    {
      if !IsActive(State(), id) {
        return NotFound;
      }
      var m := memories[id];
      if m.immutable {
        return Rejected;
      }
      VersionMemory(id, Updated, "", versionAt);
      var body := m.body;
      if content.Some? {
        body := body.(content := content.value);
      }
      if tags.Some? {
        body := body.(tags := tags.value, validFrom := dateTag(tags.value));
      }
      if importance.Some? {
        body := body.(importance := importance.value);
      }
      m := m.(body := body, updatedAt := now);
      if confidence.Some? {
        m := m.(confidence := confidence);
      }
      memories := memories[id := m];
      return Done;
    }

    method SoftDeleteMemory(id: string, reason: string, versionAt: int, now: int) returns (r: Outcome)
      modifies this
      ensures State() == Apply(old(State()), Step(SoftDelete(id, reason), versionAt, now), dateTag)
      ensures r == (if !IsActive(old(State()), id) then NotFound
                    else if old(memories)[id].immutable then Rejected else Done)
    {
      if !IsActive(State(), id) {
        return NotFound;
      }
      if memories[id].immutable {
        return Rejected;
      }
      VersionMemory(id, Invalidated, reason, versionAt);
      memories := memories[id := memories[id].(validTo := Some(now), reason := reason)];
      return Done;
    }
  }

  // ---- What a change leaves alone ----

  /** Only the given fields of the row differ; the start of validity follows new tags and nothing else. */
  predicate UpdatedFrom(m: Row, m': Row, op: Op, at: int, dateTag: DateTag)
    requires op.Update?
  {
    && (if op.content.Some? then m'.body.content == op.content.value else m'.body.content == m.body.content)
    && (if op.tags.Some? then m'.body.tags == op.tags.value else m'.body.tags == m.body.tags)
    && (if op.importance.Some? then m'.body.importance == op.importance.value else m'.body.importance == m.body.importance)
    && (if op.tags.Some? then m'.body.validFrom == dateTag(op.tags.value) else m'.body.validFrom == m.body.validFrom)
    && (if op.confidence.Some? then m'.confidence == op.confidence else m'.confidence == m.confidence)
    && m'.updatedAt == at && m'.body.memoryType == m.body.memoryType
    && m'.createdAt == m.createdAt && m'.validTo == m.validTo && m'.reason == m.reason && m'.immutable == m.immutable
  }

  /** Only the end of validity and the reason of the row differ. */
  predicate ClosedFrom(m: Row, m': Row, at: int, reason: string) {
    && m'.validTo == Some(at) && m'.reason == reason && m'.body == m.body
    && m'.createdAt == m.createdAt && m'.updatedAt == m.updatedAt && m'.immutable == m.immutable
    && m'.confidence == m.confidence
  }

  /** The open version of the memory is closed, the row as it was is appended, and no other version changes. */
  predicate OneMoreVersion(vs: seq<Version>, vs': seq<Version>, id: string, body: Body, at: int, change: Change, reason: string) {
    && |vs'| == |vs| + 1
    && vs'[|vs|] == Version(id, body, at, None, change, reason)
    && forall i :: 0 <= i < |vs| ==>
         && vs'[i].memoryId == vs[i].memoryId && vs'[i].body == vs[i].body && vs'[i].systemFrom == vs[i].systemFrom
         && vs'[i].change == vs[i].change && vs'[i].reason == vs[i].reason
         && vs'[i].systemTo == if vs[i].memoryId == id && vs[i].systemTo.None? then Some(at) else vs[i].systemTo
  }

  predicate OthersAlone(tables: Tables, tables': Tables, id: string) {
    && tables'.memories.Keys == tables.memories.Keys + {id}
    && forall x :: x in tables.memories && x != id ==> tables'.memories[x] == tables.memories[x]
  }

  lemma {:induction false} CloseOpenAt(vs: seq<Version>, id: string, now: int, i: nat)
    requires i < |vs|
    ensures |CloseOpen(vs, id, now)| == |vs| && CloseOpen(vs, id, now)[i] == Closed(vs[i], id, now)
  {
    CloseOpenLength(vs, id, now);
    if i < |vs| - 1 {
      CloseOpenLength(vs[..|vs| - 1], id, now);
      CloseOpenAt(vs[..|vs| - 1], id, now, i);
    } else {
      CloseOpenLength(vs[..|vs| - 1], id, now);
    }
  }

  lemma {:induction false} CloseOpenLength(vs: seq<Version>, id: string, now: int)
    ensures |CloseOpen(vs, id, now)| == |vs|
  {
    if vs != [] {
      CloseOpenLength(vs[..|vs| - 1], id, now);
    }
  }

  lemma SnapshotAdds(tables: Tables, id: string, now: int, change: Change, reason: string)
    requires id in tables.memories
    ensures OneMoreVersion(tables.versions, Snapshot(tables, id, now, change, reason), id, tables.memories[id].body, now,
                           change, reason)
  {
    CloseOpenLength(tables.versions, id, now);
    forall i: nat | i < |tables.versions|
      ensures CloseOpen(tables.versions, id, now)[i] == Closed(tables.versions[i], id, now)
    {
      CloseOpenAt(tables.versions, id, now, i);
    }
  }

  /** What each change does, field by field, to the row, the other rows and the versions. */
  lemma ChangesExactly(tables: Tables, step: Step, dateTag: DateTag)
    ensures var tables' := Apply(tables, step, dateTag);
            var id := step.op.id;
            match step.op
            case Store(_, body, immutable, confidence) =>
              && tables'.versions == tables.versions && OthersAlone(tables, tables', id)
              && (if id in tables.memories then tables' == tables
                  else tables'.memories[id] == Row(body, step.at, step.at, None, "", immutable, confidence))
            case Update(_, _, _, _, _) =>
              if !(id in tables.memories && tables.memories[id].validTo.None? && !tables.memories[id].immutable)
              then tables' == tables
              else
                && OthersAlone(tables, tables', id)
                && UpdatedFrom(tables.memories[id], tables'.memories[id], step.op, step.at, dateTag)
                && OneMoreVersion(tables.versions, tables'.versions, id, tables.memories[id].body, step.versionAt, Updated, "")
            case SoftDelete(_, reason) =>
              if !(id in tables.memories && tables.memories[id].validTo.None? && !tables.memories[id].immutable)
              then tables' == tables
              else
                && OthersAlone(tables, tables', id)
                && ClosedFrom(tables.memories[id], tables'.memories[id], step.at, reason)
                && OneMoreVersion(tables.versions, tables'.versions, id, tables.memories[id].body, step.versionAt,
                                  Invalidated, reason)
  {
    var id := step.op.id;
    if Changeable(tables, id) {
      SnapshotAdds(tables, id, step.versionAt, Updated, "");
      if step.op.SoftDelete? {
        SnapshotAdds(tables, id, step.versionAt, Invalidated, step.op.reason);
      }
    }
  }

  // ---- Runs under a non-decreasing clock ----

  ghost predicate Ordered(steps: seq<Step>) {
    && (forall i :: 0 <= i < |steps| ==>
          steps[i].versionAt <= steps[i].at && (steps[i].op.Store? ==> steps[i].versionAt == steps[i].at))
    && (forall i, j :: 0 <= i < j < |steps| ==> steps[i].at <= steps[j].versionAt)
  }

  /** The steps whose row was written at or before t. */
  function WrittenBy(steps: seq<Step>, t: int): seq<Step> {
    if steps == [] then []
    else if steps[|steps| - 1].at <= t then WrittenBy(steps[..|steps| - 1], t) + [steps[|steps| - 1]]
    else WrittenBy(steps[..|steps| - 1], t)
  }

  /** The steps whose snapshot was stamped at or before t. */
  function BegunBy(steps: seq<Step>, t: int): seq<Step> {
    if steps == [] then []
    else if steps[|steps| - 1].versionAt <= t then BegunBy(steps[..|steps| - 1], t) + [steps[|steps| - 1]]
    else BegunBy(steps[..|steps| - 1], t)
  }

  lemma {:induction false} AllWritten(steps: seq<Step>, t: int)
    requires forall i :: 0 <= i < |steps| ==> steps[i].at <= t
    ensures WrittenBy(steps, t) == steps
  {
    if steps != [] {
      AllWritten(steps[..|steps| - 1], t);
    }
  }

  lemma {:induction false} AllBegun(steps: seq<Step>, t: int)
    requires forall i :: 0 <= i < |steps| ==> steps[i].versionAt <= t
    ensures BegunBy(steps, t) == steps
  {
    if steps != [] {
      AllBegun(steps[..|steps| - 1], t);
    }
  }

  /** No row carries a stamp later than t. */
  predicate Bounded(memories: map<string, Row>, t: int) {
    forall id :: id in memories ==>
      && memories[id].createdAt <= t && memories[id].updatedAt <= t
      && (memories[id].validTo.Some? ==> memories[id].validTo.value <= t)
  }

  lemma {:induction false} ReplayBounded(steps: seq<Step>, dateTag: DateTag, t: int)
    requires forall i :: 0 <= i < |steps| ==> steps[i].at <= t
    ensures Bounded(Replay(steps, dateTag).memories, t)
  {
    if steps != [] {
      ReplayBounded(steps[..|steps| - 1], dateTag, t);
    }
  }

  // ---- The as-of query ----

  predicate ActiveAt(r: Row, t: int) {
    r.createdAt <= t && (r.validTo.None? || r.validTo.value > t)
  }

  /** The unlimited as-of query: the rows of `memories` whose lifetime contains t. */
  function AsOf(tables: Tables, t: int): set<string> {
    set id | id in tables.memories && ActiveAt(tables.memories[id], t)
  }

  lemma LaterStepKeepsAsOf(tables: Tables, step: Step, dateTag: DateTag, t: int)
    requires step.at > t
    ensures AsOf(Apply(tables, step, dateTag), t) == AsOf(tables, t)
  {
  }

  lemma BoundedAsOfIsActive(tables: Tables, t: int)
    requires Bounded(tables.memories, t)
    ensures AsOf(tables, t) == ActiveIds(tables)
  {
  }

  /** The as-of query on the final tables finds exactly the memories active after replaying the steps written by t. */
  lemma {:induction false} AsOfIsReplay(steps: seq<Step>, dateTag: DateTag, t: int)
    requires Ordered(steps)
    ensures AsOf(Replay(steps, dateTag), t) == ActiveIds(Replay(WrittenBy(steps, t), dateTag))
  {
    if steps == [] {
      assert AsOf(EMPTY, t) == ActiveIds(EMPTY);
    } else if steps[|steps| - 1].at <= t {
      AllWritten(steps, t);
      ReplayBounded(steps, dateTag, t);
      BoundedAsOfIsActive(Replay(steps, dateTag), t);
    } else {
      AsOfIsReplay(steps[..|steps| - 1], dateTag, t);
      LaterStepKeepsAsOf(Replay(steps[..|steps| - 1], dateTag), steps[|steps| - 1], dateTag, t);
    }
  }

  lemma {:induction false} WrittenByIsWritten(steps: seq<Step>, t: int)
    ensures forall i :: 0 <= i < |WrittenBy(steps, t)| ==> WrittenBy(steps, t)[i].at <= t
  {
    if steps != [] {
      WrittenByIsWritten(steps[..|steps| - 1], t);
    }
  }

  /** The row as it was before it was invalidated. */
  function Reopened(r: Row): Row {
    r.(validTo := None, reason := "")
  }

  /** An active row has not been given a reason. */
  lemma {:induction false} ActiveHasNoReason(steps: seq<Step>, dateTag: DateTag, id: string)
    requires IsActive(Replay(steps, dateTag), id)
    ensures Replay(steps, dateTag).memories[id].reason == ""
  {
    if steps != [] && IsActive(Replay(steps[..|steps| - 1], dateTag), id) {
      ActiveHasNoReason(steps[..|steps| - 1], dateTag, id);
    }
  }

  /**
   * The as-of query returns current rows. Such a row shows the memory as it was at t exactly when
   * it was last updated at or before t.
   */
  lemma {:induction false} AsOfRowExactIff(steps: seq<Step>, dateTag: DateTag, t: int, id: string)
    requires Ordered(steps) && id in AsOf(Replay(steps, dateTag), t)
    ensures IsActive(Replay(WrittenBy(steps, t), dateTag), id)
    ensures Reopened(Replay(steps, dateTag).memories[id]) == Replay(WrittenBy(steps, t), dateTag).memories[id]
            <==> Replay(steps, dateTag).memories[id].updatedAt <= t
  {
    AsOfIsReplay(steps, dateTag, t);
    assert id in ActiveIds(Replay(WrittenBy(steps, t), dateTag));
    WrittenByIsWritten(steps, t);
    ReplayBounded(WrittenBy(steps, t), dateTag, t);
    if steps[|steps| - 1].at <= t {
      AllWritten(steps, t);
      ActiveHasNoReason(steps, dateTag, id);
    } else {
      var init := steps[..|steps| - 1];
      LaterStepKeepsAsOf(Replay(init, dateTag), steps[|steps| - 1], dateTag, t);
      AsOfRowExactIff(init, dateTag, t, id);
    }
  }

  // ---- Versions ----

  function History(vs: seq<Version>, id: string): seq<Version> {
    if vs == [] then []
    else if vs[|vs| - 1].memoryId == id then History(vs[..|vs| - 1], id) + [vs[|vs| - 1]]
    else History(vs[..|vs| - 1], id)
  }

  /** Consecutive windows that meet, the last one ending at `stamp`. */
  predicate Meet(h: seq<Version>, stamp: int) {
    h == [] || (var v := h[|h| - 1]; v.systemTo == Some(stamp) && v.systemFrom <= stamp && Meet(h[..|h| - 1], v.systemFrom))
  }

  /** Consecutive windows that meet, only the last one open. */
  predicate Tiles(h: seq<Version>) {
    h == [] || (h[|h| - 1].systemTo.None? && Meet(h[..|h| - 1], h[|h| - 1].systemFrom))
  }

  predicate NoLaterThan(vs: seq<Version>, t: int) {
    forall i :: 0 <= i < |vs| ==> vs[i].systemFrom <= t
  }

  lemma {:induction false} CloseOther(vs: seq<Version>, id: string, other: string, now: int)
    requires id != other
    ensures History(CloseOpen(vs, other, now), id) == History(vs, id)
  {
    if vs != [] {
      CloseOther(vs[..|vs| - 1], id, other, now);
    }
  }

  lemma {:induction false} CloseSame(vs: seq<Version>, id: string, now: int)
    ensures History(CloseOpen(vs, id, now), id) == CloseOpen(History(vs, id), id, now)
  {
    if vs != [] {
      CloseSame(vs[..|vs| - 1], id, now);
    }
  }

  lemma {:induction false} CloseMeeting(h: seq<Version>, id: string, stamp: int, now: int)
    requires Meet(h, stamp)
    ensures CloseOpen(h, id, now) == h
  {
    if h != [] {
      CloseMeeting(h[..|h| - 1], id, h[|h| - 1].systemFrom, now);
    }
  }

  lemma {:induction false} HistoryIsOfId(vs: seq<Version>, id: string)
    ensures forall i :: 0 <= i < |History(vs, id)| ==> History(vs, id)[i].memoryId == id
    ensures forall t :: NoLaterThan(vs, t) ==> NoLaterThan(History(vs, id), t)
  {
    if vs != [] {
      HistoryIsOfId(vs[..|vs| - 1], id);
      forall t | NoLaterThan(vs, t) ensures NoLaterThan(History(vs, id), t) {
        assert NoLaterThan(vs[..|vs| - 1], t);
      }
    }
  }

  /** A snapshot closes the open window where the new one begins. */
  lemma SnapshotKeepsTiles(vs: seq<Version>, id: string, v: Version)
    requires Tiles(History(vs, id)) && NoLaterThan(vs, v.systemFrom) && v.memoryId == id && v.systemTo.None?
    ensures Tiles(History(CloseOpen(vs, id, v.systemFrom) + [v], id))
    ensures History(CloseOpen(vs, id, v.systemFrom) + [v], id) == CloseOpen(History(vs, id), id, v.systemFrom) + [v]
  {
    var h := History(vs, id);
    HistoryIsOfId(vs, id);
    CloseSame(vs, id, v.systemFrom);
    assert (CloseOpen(vs, id, v.systemFrom) + [v])[..|CloseOpen(vs, id, v.systemFrom)|] == CloseOpen(vs, id, v.systemFrom);
    var c := CloseOpen(h, id, v.systemFrom);
    if h != [] {
      CloseMeeting(h[..|h| - 1], id, h[|h| - 1].systemFrom, v.systemFrom);
      assert c[..|c| - 1] == h[..|h| - 1];
    }
    assert (c + [v])[..|c|] == c;
  }
}
