/** What `memory_versions` says after a whole run: windows tile time, and every past body can be rebuilt. */
module MemoryVersions {
  import opened Basics
  import opened MemoryHistory

  // ---- Windows ----

  lemma {:induction false} CloseKeepsStamps(vs: seq<Version>, id: string, now: int)
    ensures |CloseOpen(vs, id, now)| == |vs|
    ensures forall i :: 0 <= i < |vs| ==> CloseOpen(vs, id, now)[i] == Closed(vs[i], id, now)
  {
    if vs != [] {
      CloseKeepsStamps(vs[..|vs| - 1], id, now);
    }
  }

  lemma StepKeepsStamps(tables: Tables, step: Step, dateTag: DateTag, t: int)
    requires NoLaterThan(tables.versions, t) && step.versionAt <= t
    ensures NoLaterThan(Apply(tables, step, dateTag).versions, t)
  {
    CloseKeepsStamps(tables.versions, step.op.id, step.versionAt);
  }

  lemma {:induction false} VersionsBounded(steps: seq<Step>, dateTag: DateTag, t: int)
    requires forall i :: 0 <= i < |steps| ==> steps[i].versionAt <= t
    ensures NoLaterThan(Replay(steps, dateTag).versions, t)
  {
    if steps != [] {
      VersionsBounded(steps[..|steps| - 1], dateTag, t);
      StepKeepsStamps(Replay(steps[..|steps| - 1], dateTag), steps[|steps| - 1], dateTag, t);
    }
  }

  /** Whether this step changes an existing memory, writing a version of it. */
  predicate Changes(tables: Tables, step: Step, id: string) {
    step.op.id == id && !step.op.Store? && Changeable(tables, id)
  }

  function VersionWritten(tables: Tables, step: Step): Version
    requires step.op.id in tables.memories
  {
    var id := step.op.id;
    Version(id, tables.memories[id].body, step.versionAt, None,
            if step.op.SoftDelete? then Invalidated else Updated, if step.op.SoftDelete? then step.op.reason else "")
  }

  /** A memory's history grows by one version exactly when the memory changes. */
  lemma StepOnHistory(tables: Tables, step: Step, dateTag: DateTag, id: string)
    requires Tiles(History(tables.versions, id)) && NoLaterThan(tables.versions, step.versionAt)
    ensures var h := History(tables.versions, id);
            History(Apply(tables, step, dateTag).versions, id) ==
              if Changes(tables, step, id) then CloseOpen(h, id, step.versionAt) + [VersionWritten(tables, step)] else h
    ensures Tiles(History(Apply(tables, step, dateTag).versions, id))
  {
    if !step.op.Store? && Changeable(tables, step.op.id) {
      var v := VersionWritten(tables, step);
      var vs := CloseOpen(tables.versions, step.op.id, step.versionAt);
      assert Apply(tables, step, dateTag).versions == vs + [v];
      if step.op.id == id {
        SnapshotKeepsTiles(tables.versions, id, v);
      } else {
        CloseOther(tables.versions, id, step.op.id, step.versionAt);
        assert (vs + [v])[..|vs|] == vs;
      }
    }
  }

  lemma {:induction false} VersionsTile(steps: seq<Step>, dateTag: DateTag, id: string)
    requires Ordered(steps)
    ensures Tiles(History(Replay(steps, dateTag).versions, id))
  {
    if steps != [] {
      var init, last := steps[..|steps| - 1], steps[|steps| - 1];
      VersionsTile(init, dateTag, id);
      VersionsBounded(init, dateTag, last.versionAt);
      StepOnHistory(Replay(init, dateTag), last, dateTag, id);
    }
  }

  predicate Covers(v: Version, t: int) {
    v.systemFrom <= t && (v.systemTo.None? || t < v.systemTo.value)
  }

  /** Window i is the one and only window that contains t. */
  ghost predicate OnlyWindow(h: seq<Version>, t: int, i: int) {
    0 <= i < |h| && Covers(h[i], t) && forall j :: 0 <= j < |h| && Covers(h[j], t) ==> j == i
  }

  ghost predicate NoWindow(h: seq<Version>, t: int) {
    forall i :: 0 <= i < |h| ==> !Covers(h[i], t)
  }

  lemma AppendWindow(h: seq<Version>, v: Version, t: int)
    ensures NoWindow(h, t) && !Covers(v, t) ==> NoWindow(h + [v], t)
    ensures NoWindow(h, t) && Covers(v, t) ==> OnlyWindow(h + [v], t, |h|)
    ensures forall i :: OnlyWindow(h, t, i) && !Covers(v, t) ==> OnlyWindow(h + [v], t, i)
  {
  }

  lemma {:induction false} MeetingWindows(h: seq<Version>, stamp: int, t: int)
    requires h != [] && Meet(h, stamp)
    ensures h[0].systemFrom <= stamp
    ensures if h[0].systemFrom <= t < stamp then exists i :: OnlyWindow(h, t, i) else NoWindow(h, t)
  {
    var n := |h| - 1;
    assert h == h[..n] + [h[n]];
    AppendWindow(h[..n], h[n], t);
    if n > 0 {
      MeetingWindows(h[..n], h[n].systemFrom, t);
    } else {
      assert NoWindow(h[..n], t);
    }
  }

  /** From a memory's first change on, every instant lies in exactly one version window, and none before. */
  lemma WindowsTileTime(steps: seq<Step>, dateTag: DateTag, id: string, t: int)
    requires Ordered(steps)
    ensures var h := History(Replay(steps, dateTag).versions, id);
            if h != [] && h[0].systemFrom <= t then exists i :: OnlyWindow(h, t, i) else NoWindow(h, t)
  {
    VersionsTile(steps, dateTag, id);
    var h := History(Replay(steps, dateTag).versions, id);
    if h != [] {
      var n := |h| - 1;
      assert h == h[..n] + [h[n]];
      AppendWindow(h[..n], h[n], t);
      if n > 0 {
        MeetingWindows(h[..n], h[n].systemFrom, t);
      } else {
        assert NoWindow(h[..n], t);
      }
    }
  }

  // ---- Snapshots ----

  /** A change as the run itself shows it: the body just before, the stamp, and what kind of change it was. */
  datatype Past = Past(body: Body, stamp: int, change: Change, reason: string)

  function Recorded(v: Version): Past {
    Past(v.body, v.systemFrom, v.change, v.reason)
  }

  /** The changes a memory went through, read off the run step by step. */
  function Changed(steps: seq<Step>, dateTag: DateTag, id: string): seq<Past> {
    if steps == [] then []
    else
      var init, last := steps[..|steps| - 1], steps[|steps| - 1];
      var before := Replay(init, dateTag);
      if Changes(before, last, id)
      then Changed(init, dateTag, id)
           + [Past(before.memories[id].body, last.versionAt, if last.op.SoftDelete? then Invalidated else Updated,
                   if last.op.SoftDelete? then last.op.reason else "")]
      else Changed(init, dateTag, id)
  }

  function RecordedAll(h: seq<Version>): seq<Past> {
    seq(|h|, i requires 0 <= i < |h| => Recorded(h[i]))
  }

  lemma RecordedAppend(h: seq<Version>, id: string, now: int, v: Version)
    ensures RecordedAll(CloseOpen(h, id, now) + [v]) == RecordedAll(h) + [Recorded(v)]
  {
    CloseKeepsStamps(h, id, now);
  }

  /** Each change of a memory left one version holding exactly the body it replaced, in order. */
  lemma {:induction false} VersionsRecordChanges(steps: seq<Step>, dateTag: DateTag, id: string)
    requires Ordered(steps)
    ensures RecordedAll(History(Replay(steps, dateTag).versions, id)) == Changed(steps, dateTag, id)
  {
    if steps != [] {
      var init, last := steps[..|steps| - 1], steps[|steps| - 1];
      VersionsRecordChanges(init, dateTag, id);
      VersionsTile(init, dateTag, id);
      VersionsBounded(init, dateTag, last.versionAt);
      var before := Replay(init, dateTag);
      StepOnHistory(before, last, dateTag, id);
      if Changes(before, last, id) {
        RecordedAppend(History(before.versions, id), id, last.versionAt, VersionWritten(before, last));
      }
    }
  }

  // ---- Rebuilding the past ----

  /** The body in force at t: that of the first version stamped later, else the current one. */
  function Rebuilt(h: seq<Version>, current: Body, t: int): Body {
    if h == [] then current
    else Rebuilt(h[..|h| - 1], if h[|h| - 1].systemFrom > t then h[|h| - 1].body else current, t)
  }

  lemma {:induction false} RebuiltCurrent(h: seq<Version>, current: Body, t: int)
    requires NoLaterThan(h, t)
    ensures Rebuilt(h, current, t) == current
  {
    if h != [] {
      RebuiltCurrent(h[..|h| - 1], current, t);
    }
  }

  lemma {:induction false} RebuiltIgnoresClosing(h: seq<Version>, id: string, now: int, current: Body, t: int)
    ensures Rebuilt(CloseOpen(h, id, now), current, t) == Rebuilt(h, current, t)
  {
    if h != [] {
      RebuiltIgnoresClosing(h[..|h| - 1], id, now, if h[|h| - 1].systemFrom > t then h[|h| - 1].body else current, t);
      assert CloseOpen(h, id, now)[..|h| - 1] == CloseOpen(h[..|h| - 1], id, now) by {
        CloseKeepsStamps(h[..|h| - 1], id, now);
      }
      CloseKeepsStamps(h, id, now);
    }
  }

  function RebuiltFrom(tables: Tables, id: string, t: int): Body
    requires id in tables.memories
  {
    Rebuilt(History(tables.versions, id), tables.memories[id].body, t)
  }

  /** A step stamped after t does not change what is rebuilt for t. */
  lemma LaterStepKeepsRebuilt(tables: Tables, step: Step, dateTag: DateTag, id: string, t: int)
    requires id in tables.memories && step.versionAt > t
    requires Tiles(History(tables.versions, id)) && NoLaterThan(tables.versions, step.versionAt)
    ensures RebuiltFrom(Apply(tables, step, dateTag), id, t) == RebuiltFrom(tables, id, t)
  {
    StepOnHistory(tables, step, dateTag, id);
    if Changes(tables, step, id) {
      var h, v := History(tables.versions, id), VersionWritten(tables, step);
      var c := CloseOpen(h, id, step.versionAt);
      assert (c + [v])[..|c|] == c;
      RebuiltIgnoresClosing(h, id, step.versionAt, v.body, t);
    }
  }

  lemma {:induction false} StillThere(steps: seq<Step>, dateTag: DateTag, id: string, t: int)
    requires Ordered(steps)
    ensures id in Replay(BegunBy(steps, t), dateTag).memories
            <==> id in Replay(steps, dateTag).memories && Replay(steps, dateTag).memories[id].createdAt <= t
  {
    if steps != [] {
      var init, last := steps[..|steps| - 1], steps[|steps| - 1];
      StillThere(init, dateTag, id, t);
      if last.versionAt <= t {
        AllBegun(steps, t);
        ReplayCreatedBounded(steps, dateTag, t);
      }
    }
  }

  lemma {:induction false} ReplayCreatedBounded(steps: seq<Step>, dateTag: DateTag, t: int)
    requires Ordered(steps) && forall i :: 0 <= i < |steps| ==> steps[i].versionAt <= t
    ensures forall id :: id in Replay(steps, dateTag).memories ==> Replay(steps, dateTag).memories[id].createdAt <= t
  {
    if steps != [] {
      ReplayCreatedBounded(steps[..|steps| - 1], dateTag, t);
    }
  }

  /**
   * The versions lose nothing: for every time and every memory that existed then, the body it had
   * after the steps begun by then can be rebuilt from the final tables.
   */
  lemma {:induction false} HistoryRebuildsThePast(steps: seq<Step>, dateTag: DateTag, id: string, t: int)
    requires Ordered(steps) && id in Replay(BegunBy(steps, t), dateTag).memories
    ensures id in Replay(steps, dateTag).memories
    ensures Replay(BegunBy(steps, t), dateTag).memories[id].body == RebuiltFrom(Replay(steps, dateTag), id, t)
  {
    StillThere(steps, dateTag, id, t);
    if steps == [] {
      assert false;
    }
    var init, last := steps[..|steps| - 1], steps[|steps| - 1];
    if last.versionAt <= t {
      AllBegun(steps, t);
      VersionsBounded(steps, dateTag, t);
      HistoryIsOfId(Replay(steps, dateTag).versions, id);
      RebuiltCurrent(History(Replay(steps, dateTag).versions, id), Replay(steps, dateTag).memories[id].body, t);
    } else {
      HistoryRebuildsThePast(init, dateTag, id, t);
      VersionsTile(init, dateTag, id);
      VersionsBounded(init, dateTag, last.versionAt);
      LaterStepKeepsRebuilt(Replay(init, dateTag), last, dateTag, id, t);
    }
  }

  /** No transaction reads the clock for its snapshot by t and for its row after t. */
  ghost predicate NoneStraddles(steps: seq<Step>, t: int) {
    forall i :: 0 <= i < |steps| ==> (steps[i].versionAt <= t <==> steps[i].at <= t)
  }

  lemma {:induction false} BegunIsWritten(steps: seq<Step>, t: int)
    requires NoneStraddles(steps, t)
    ensures BegunBy(steps, t) == WrittenBy(steps, t)
  {
    if steps != [] {
      BegunIsWritten(steps[..|steps| - 1], t);
    }
  }

  /** The first version stamped after t. */
  function FirstAfter(h: seq<Version>, t: int): Option<Version> {
    if h == [] then None
    else
      var earlier := FirstAfter(h[..|h| - 1], t);
      if earlier.Some? then earlier
      else if h[|h| - 1].systemFrom > t then Some(h[|h| - 1])
      else None
  }

  lemma {:induction false} RebuiltIsFirstAfter(h: seq<Version>, current: Body, t: int)
    ensures Rebuilt(h, current, t) == match FirstAfter(h, t) case None => current case Some(v) => v.body
  {
    if h != [] {
      RebuiltIsFirstAfter(h[..|h| - 1], if h[|h| - 1].systemFrom > t then h[|h| - 1].body else current, t);
    }
  }

  /**
   * When the as-of query shows the content of its time: the body of a returned row is the body the
   * memory had after the steps begun by t exactly when no version is stamped after t or the first
   * that is holds the current body. Unless a transaction straddles t these are the steps written by t.
   */
  lemma AsOfBodyExactIff(steps: seq<Step>, dateTag: DateTag, t: int, id: string)
    requires Ordered(steps) && id in AsOf(Replay(steps, dateTag), t)
    ensures id in Replay(BegunBy(steps, t), dateTag).memories
    ensures var tables := Replay(steps, dateTag);
            var next := FirstAfter(History(tables.versions, id), t);
            tables.memories[id].body == Replay(BegunBy(steps, t), dateTag).memories[id].body
            <==> next.None? || next.value.body == tables.memories[id].body
    ensures NoneStraddles(steps, t) ==> BegunBy(steps, t) == WrittenBy(steps, t)
  {
    StillThere(steps, dateTag, id, t);
    HistoryRebuildsThePast(steps, dateTag, id, t);
    var tables := Replay(steps, dateTag);
    RebuiltIsFirstAfter(History(tables.versions, id), tables.memories[id].body, t);
    if NoneStraddles(steps, t) {
      BegunIsWritten(steps, t);
    }
  }

  /** The as-of query shows later content: a memory updated after t is returned with its new content. */
  lemma AsOfShowsLaterContent(dateTag: DateTag)
    ensures var body := Body("old", "fact", [], 1, None);
            var steps := [Step(Store("m", body, false, None), 1, 1), Step(Update("m", Some("new"), None, None, None), 5, 5)];
            && Ordered(steps) && "m" in AsOf(Replay(steps, dateTag), 2)
            && Replay(steps, dateTag).memories["m"].body.content == "new"
            && Replay(WrittenBy(steps, 2), dateTag).memories.Keys == {"m"}
            && Replay(WrittenBy(steps, 2), dateTag).memories["m"].body.content == "old"
  {
    var body := Body("old", "fact", [], 1, None);
    var s0, s1 := Step(Store("m", body, false, None), 1, 1), Step(Update("m", Some("new"), None, None, None), 5, 5);
    var steps := [s0, s1];
    assert steps[..1] == [s0] && [s0][..0] == [];
    assert Replay([s0], dateTag).memories == map["m" := Row(body, 1, 1, None, "", false, None)];
    assert WrittenBy([], 2) == [] && WrittenBy([s0], 2) == [s0] && WrittenBy(steps, 2) == [s0];
  }
}
