/**
 * Automatic supersession: every contradiction between two active memories more than a day
 * apart retires the older one. Memories and their edges are visited in arbitrary order.
 */
module AutoSupersede {
  import opened Basics
  import opened MemoryGraph

  const SUPERSEDE_THRESHOLD := 86400

  type Memories = map<string, Memory>

  predicate IsActive(ms: Memories, id: string) {
    id in ms && ms[id].active
  }

  function ActiveIds(ms: Memories): set<string> {
    set id | id in ms && ms[id].active
  }

  predicate FarApart(ms: Memories, a: string, b: string)
    requires a in ms && b in ms
  {
    ms[a].createdAt - ms[b].createdAt > 86400 || ms[b].createdAt - ms[a].createdAt > 86400
  }

  /** Nothing is left to do for this pair. */
  predicate Resolved(ms: Memories, a: string, b: string) {
    IsActive(ms, a) && IsActive(ms, b) ==> !FarApart(ms, a, b)
  }

  /** No contradiction is left between two active memories more than a day apart. */
  ghost predicate Settled(ms: Memories, rels: Relations) {
    forall e :: e in rels && e.kind.Contradicts? ==> Resolved(ms, e.source, e.target)
  }

  ghost predicate HasMuchNewer(ms: Memories, id: string)
    requires id in ms
  {
    exists n :: IsActive(ms, n) && ms[n].createdAt - ms[id].createdAt > SUPERSEDE_THRESHOLD
  }

  /** Memories may only be deactivated, each on account of a much newer one that was active at the start. */
  ghost predicate OnlyRetired(ms: Memories, ms': Memories) {
    && ms'.Keys == ms.Keys
    && forall id :: id in ms ==>
         && ms'[id] == ms[id].(active := ms'[id].active)
         && (ms'[id].active ==> ms[id].active)
         && (ms[id].active && !ms'[id].active ==>
               HasMuchNewer(ms, id))
  }

  /** Only supersedes edges are written, each from a strictly newer memory to an older one. */
  ghost predicate OnlySupersedes(ms: Memories, rels: Relations, rels': Relations) {
    && rels.Keys <= rels'.Keys
    && forall e :: e in rels' && !(e in rels && rels'[e] == rels[e]) ==>
         && e.kind.Supersedes? && e.source in ms && e.target in ms
         && ms[e.source].createdAt > ms[e.target].createdAt
  }

  /** A contradiction on whose account the newer memory may retire the older: both active, over a day apart. */
  predicate MayRetire(ms: Memories, rels: Relations, newer: string, older: string) {
    && IsActive(ms, newer) && IsActive(ms, older) && ms[newer].createdAt - ms[older].createdAt > 86400
    && (Edge(newer, older, Contradicts) in rels || Edge(older, newer, Contradicts) in rels)
  }

  /** A supersedes edge of full strength from a memory that may retire this one. */
  ghost predicate RetiredBy(ms: Memories, rels: Relations, rels': Relations, id: string, newer: string) {
    MayRetire(ms, rels, newer, id) && Edge(newer, id, Supersedes) in rels' && rels'[Edge(newer, id, Supersedes)] == 1.0
  }

  /** Every retired memory has such an edge, and every edge written is of this kind and retires its target. */
  ghost predicate Recorded(ms: Memories, rels: Relations, ms': Memories, rels': Relations) {
    && (forall id :: IsActive(ms, id) && !IsActive(ms', id) ==> exists newer :: RetiredBy(ms, rels, rels', id, newer))
    && (forall e :: e in rels' && !(e in rels && rels'[e] == rels[e]) ==>
          e.kind.Supersedes? && RetiredBy(ms, rels, rels', e.target, e.source) && !IsActive(ms', e.target))
  }

  lemma RecordedStep(ms: Memories, rels: Relations, ms': Memories, rels': Relations, newer: string, older: string)
    requires Recorded(ms, rels, ms', rels') && MayRetire(ms, rels, newer, older) && older in ms'
    ensures Recorded(ms, rels, ms'[older := ms'[older].(active := false)], rels'[Edge(newer, older, Supersedes) := 1.0])
  {
    var ms'', rels'' := ms'[older := ms'[older].(active := false)], rels'[Edge(newer, older, Supersedes) := 1.0];
    assert RetiredBy(ms, rels, rels'', older, newer);
    forall id | IsActive(ms, id) && !IsActive(ms'', id) ensures exists n :: RetiredBy(ms, rels, rels'', id, n) {
      if id != older {
        var n :| RetiredBy(ms, rels, rels', id, n);
        assert RetiredBy(ms, rels, rels'', id, n);
      }
    }
    forall e | e in rels'' && !(e in rels && rels''[e] == rels[e])
      ensures e.kind.Supersedes? && RetiredBy(ms, rels, rels'', e.target, e.source) && !IsActive(ms'', e.target)
    {
      if e != Edge(newer, older, Supersedes) {
        assert RetiredBy(ms, rels, rels', e.target, e.source);
      }
    }
  }

  lemma OnlyRetiredStep(ms: Memories, ms': Memories, newer: string, older: string)
    requires OnlyRetired(ms, ms') && IsActive(ms', newer) && IsActive(ms', older)
    requires ms'[newer].createdAt - ms'[older].createdAt > SUPERSEDE_THRESHOLD
    ensures OnlyRetired(ms, ms'[older := ms'[older].(active := false)])
    ensures |ActiveIds(ms'[older := ms'[older].(active := false)])| == |ActiveIds(ms')| - 1
  {
    var ms'' := ms'[older := ms'[older].(active := false)];
    assert IsActive(ms, newer);
    assert ActiveIds(ms'') == ActiveIds(ms') - {older};
  }

  type Pair = (string, string)

  /** What holds at every point of a pass that started from ms0 and rels0. */
  ghost predicate Pass(ms0: Memories, rels0: Relations, ms: Memories, rels: Relations, superseded: nat, seen: set<Pair>) {
    && OnlyRetired(ms0, ms)
    && OnlySupersedes(ms0, rels0, rels)
    && Recorded(ms0, rels0, ms, rels)
    && |ActiveIds(ms0)| == |ActiveIds(ms)| + superseded
    && (forall k :: k in seen ==> Resolved(ms, k.0, k.1))
    && (Settled(ms0, rels0) ==> ms == ms0 && rels == rels0 && superseded == 0)
  }

  /** Every contradiction of this memory has been looked at. */
  ghost predicate Covered(rels: Relations, id: string, seen: set<Pair>) {
    forall e :: e in rels && e.kind.Contradicts? && Touches(e, id) ==> Canonical(e.source, e.target) in seen
  }

  lemma RetireKeepsResolved(ms: Memories, older: string, seen: set<Pair>)
    requires older in ms && forall k :: k in seen ==> Resolved(ms, k.0, k.1)
    ensures forall k :: k in seen ==> Resolved(ms[older := ms[older].(active := false)], k.0, k.1)
  {
  }

  lemma SupersedeKeepsPass(ms0: Memories, rels0: Relations, ms: Memories, rels: Relations, superseded: nat, seen: set<Pair>,
                           newer: string, older: string, e: Edge)
    requires Pass(ms0, rels0, ms, rels, superseded, seen)
    requires e in rels0 && e.kind.Contradicts? && (newer, older) in {(e.source, e.target), (e.target, e.source)}
    requires IsActive(ms, newer) && IsActive(ms, older)
    requires ms[newer].createdAt - ms[older].createdAt > SUPERSEDE_THRESHOLD
    ensures Pass(ms0, rels0, ms[older := ms[older].(active := false)], rels[Edge(newer, older, Supersedes) := 1.0],
                 superseded + 1, seen)
  {
    OnlyRetiredStep(ms0, ms, newer, older);
    RecordedStep(ms0, rels0, ms, rels, newer, older);
    RetireKeepsResolved(ms, older, seen);
    assert !Resolved(ms0, e.source, e.target);
    assert !Settled(ms0, rels0);
  }

  /** A pair that needs no further work can be marked as looked at. */
  lemma MarkSeen(ms0: Memories, rels0: Relations, ms: Memories, rels: Relations, superseded: nat, seen: set<Pair>,
                 a: string, b: string)
    requires Pass(ms0, rels0, ms, rels, superseded, seen) && Resolved(ms, a, b)
    ensures Pass(ms0, rels0, ms, rels, superseded, seen + {Canonical(a, b)})
  {
  }

  /** Every contradiction of this memory outside `pending` has been looked at. */
  ghost predicate CoveredBut(rels: Relations, id: string, pending: set<Edge>, seen: set<Pair>) {
    forall e :: e in rels && e.kind.Contradicts? && Touches(e, id) && e !in pending ==>
                  Canonical(e.source, e.target) in seen
  }

  /** The contradictions among these edges were there when the pass began. */
  predicate Known(rels0: Relations, edges: set<Edge>) {
    forall e :: e in edges && e.kind.Contradicts? ==> e in rels0
  }

  lemma AllPending(ms: Memories, rels0: Relations, rels: Relations, id: string, seen: set<Pair>)
    requires OnlySupersedes(ms, rels0, rels)
    ensures CoveredBut(rels0, id, RelationsOf(rels, id), seen) && Known(rels0, RelationsOf(rels, id))
  {
  }

  lemma NothingPending(rels: Relations, id: string, pending: set<Edge>, seen: set<Pair>)
    requires CoveredBut(rels, id, pending, seen) && pending == {}
    ensures Covered(rels, id, seen)
  {
  }

  lemma CoverOne(rels: Relations, id: string, pending: set<Edge>, seen: set<Pair>, seen': set<Pair>, e: Edge)
    requires CoveredBut(rels, id, pending, seen) && seen <= seen'
    requires e.kind.Contradicts? ==> Canonical(e.source, e.target) in seen'
    ensures CoveredBut(rels, id, pending - {e}, seen')
  {
  }

  ghost predicate AllCovered(rels: Relations, ids: set<string>, seen: set<Pair>) {
    forall id :: id in ids ==> Covered(rels, id, seen)
  }

  lemma CoverAnother(rels: Relations, ids: set<string>, id: string, seen: set<Pair>, seen': set<Pair>)
    requires AllCovered(rels, ids - {id}, seen) && seen <= seen' && Covered(rels, id, seen')
    ensures AllCovered(rels, ids, seen')
  {
    forall i | i in ids && i != id ensures Covered(rels, i, seen') {
      assert Covered(rels, i, seen);
    }
  }

  predicate IsImmutable(ms: Memories, id: string) {
    id in ms && ms[id].immutable
  }

  /**
   * What goes wrong outside: listing the memories, reading the edges of a memory, reading a memory,
   * or the transaction of a contradiction.
   */
  datatype Faults = Faults(listing: bool, edges: set<string>, unreadable: set<string>, writes: set<Edge>)

  predicate Trips(ms: Memories, e: Edge, faults: Faults) {
    || e.source in faults.unreadable || e.target in faults.unreadable || e in faults.writes
    || IsImmutable(ms, e.source) || IsImmutable(ms, e.target)
  }

  ghost predicate TripsSomewhere(ms: Memories, rels: Relations, faults: Faults) {
    exists e :: e in rels && e.kind.Contradicts? && Trips(ms, e, faults)
  }

  /** Something goes wrong outside, or an immutable memory is part of a contradiction. */
  ghost predicate Blocked(ms: Memories, rels: Relations, faults: Faults) {
    faults.listing || faults.edges * ActiveIds(ms) != {} || TripsSomewhere(ms, rels, faults)
  }

  class Store {
    var memories: Memories
    var rels: Relations

    constructor (ms: Memories, rs: Relations)
      ensures memories == ms && rels == rs
    {
      memories, rels := ms, rs;
    }

    /** The transaction of one supersession; it rolls back on an immutable memory or a `fault`. */
    method SupersedePair(newer: string, older: string, fault: bool) returns (ok: bool)
      requires older in memories
      modifies this
      ensures ok <==> !fault && !old(memories)[older].immutable
      ensures memories == if ok then old(memories)[older := old(memories)[older].(active := false)] else old(memories)
      ensures rels == if ok then old(rels)[Edge(newer, older, Supersedes) := 1.0] else old(rels)
    {
      var beforeRels := rels;
      if fault {
        return false;
      }
      rels := rels[Edge(newer, older, Supersedes) := 1.0];
      if memories[older].immutable {
        rels := beforeRels;
        return false;
      }
      memories := memories[older := memories[older].(active := false)];
      return true;
    }

    /** One contradiction: retire the older memory if both are active and far enough apart. */
    method ResolvePair(e: Edge, faults: Faults, ghost ms0: Memories, ghost rels0: Relations, ghost before: nat,
                       ghost seen: set<Pair>)
        returns (superseded: nat, ok: bool)
      requires e in rels0 && e.kind.Contradicts?
      requires Pass(ms0, rels0, memories, rels, before, seen)
      modifies this
      ensures Pass(ms0, rels0, memories, rels, before + superseded, seen)
      ensures ok ==> Resolved(memories, e.source, e.target)
      ensures !ok ==> Trips(ms0, e, faults)
    {
      if e.source in faults.unreadable || e.target in faults.unreadable {
        return 0, false;
      }
      if !IsActive(memories, e.source) || !IsActive(memories, e.target) {
        return 0, true;
      }
      var diff := memories[e.source].createdAt - memories[e.target].createdAt;
      if diff < 0 {
        diff := -diff;
      }
      if diff <= SUPERSEDE_THRESHOLD {
        return 0, true;
      }
      var newer, older := e.target, e.source;
      if memories[e.source].createdAt > memories[e.target].createdAt {
        newer, older := e.source, e.target;
      }
      ghost var ms, rs := memories, rels;
      SupersedeKeepsPass(ms0, rels0, ms, rs, before, seen, newer, older, e);
      ok := SupersedePair(newer, older, e in faults.writes);
      superseded := if ok then 1 else 0;
    }

    /** One edge: skipped unless it is a contradiction whose pair was not looked at before. */
    method VisitEdge(e: Edge, seen: set<Pair>, superseded: nat, faults: Faults, ghost ms0: Memories, ghost rels0: Relations)
        returns (seen': set<Pair>, superseded': nat, ok: bool)
      requires (e.kind.Contradicts? ==> e in rels0) && Pass(ms0, rels0, memories, rels, superseded, seen)
      modifies this
      ensures Pass(ms0, rels0, memories, rels, superseded', seen') && seen <= seen'
      ensures ok && e.kind.Contradicts? ==> Canonical(e.source, e.target) in seen'
      ensures !ok ==> e in rels0 && e.kind.Contradicts? && Trips(ms0, e, faults)
    {
      seen', superseded', ok := seen, superseded, true;
      var key := Canonical(e.source, e.target);
      if e.kind.Contradicts? && key !in seen {
        var n;
        n, ok := ResolvePair(e, faults, ms0, rels0, superseded, seen);
        superseded' := superseded + n;
        if ok {
          MarkSeen(ms0, rels0, memories, rels, superseded', seen, e.source, e.target);
          seen' := seen + {key};
        }
      }
    }

    /** All contradictions of one memory, in any order; stops at the first failure. */
    method ResolveAround(id: string, seen: set<Pair>, superseded: nat, faults: Faults,
                         ghost ms0: Memories, ghost rels0: Relations)
        returns (seen': set<Pair>, superseded': nat, ok: bool)
      requires Pass(ms0, rels0, memories, rels, superseded, seen)
      modifies this
      ensures Pass(ms0, rels0, memories, rels, superseded', seen') && seen <= seen'
      ensures ok ==> Covered(rels0, id, seen')
      ensures !ok ==> id in faults.edges || TripsSomewhere(ms0, rels0, faults)
    {
      seen', superseded' := seen, superseded;
      if id in faults.edges {
        ok := false;
        return;
      }
      var pending := RelationsOf(rels, id);
      AllPending(ms0, rels0, rels, id, seen);
      ok := true;
      while pending != {}
        invariant ok && Known(rels0, pending) && seen <= seen'
        invariant Pass(ms0, rels0, memories, rels, superseded', seen')
        invariant CoveredBut(rels0, id, pending, seen')
        decreases pending
      {
        var e :| e in pending;
        ghost var before := seen';
        seen', superseded', ok := VisitEdge(e, seen', superseded', faults, ms0, rels0);
        if !ok {
          return;
        }
        CoverOne(rels0, id, pending, before, seen', e);
        pending := pending - {e};
      }
      NothingPending(rels0, id, pending, seen');
    }

    /**
     * A full pass over the active memories. On success nothing is left to supersede, and it can
     * only fail where a read or a transaction fails or an immutable memory is in the way.
     */
    method Run(faults: Faults) returns (superseded: nat, ok: bool)
      modifies this
      ensures OnlyRetired(old(memories), memories) && OnlySupersedes(old(memories), old(rels), rels)
      ensures Recorded(old(memories), old(rels), memories, rels)
      ensures |ActiveIds(old(memories))| == |ActiveIds(memories)| + superseded
      ensures ok ==> Settled(memories, rels)
      ensures !ok ==> Blocked(old(memories), old(rels), faults)
      ensures Settled(old(memories), old(rels)) ==> superseded == 0 && memories == old(memories) && rels == old(rels)
    {
      ghost var ms0, rels0 := memories, rels;
      var seen: set<Pair> := {};
      superseded := 0;
      if faults.listing {
        ok := false;
        return;
      }
      var allIds := ActiveIds(memories);
      var todo := allIds;
      while todo != {}
        invariant todo <= allIds
        invariant Pass(ms0, rels0, memories, rels, superseded, seen)
        invariant AllCovered(rels0, allIds - todo, seen)
        decreases todo
      {
        var id :| id in todo;
        ghost var done, before := allIds - todo, seen;
        todo := todo - {id};
        assert allIds - todo - {id} == done;
        seen, superseded, ok := ResolveAround(id, seen, superseded, faults, ms0, rels0);
        if !ok {
          assert id in faults.edges ==> id in faults.edges * ActiveIds(ms0);
          return;
        }
        CoverAnother(rels0, allIds - todo, id, before, seen);
      }
      assert allIds - todo == allIds;
      SeenMeansSettled(ms0, rels0, memories, rels, superseded, seen);
      ok := true;
    }
  }

  /** Once every active memory's contradictions have been looked at, the graph is settled. */
  lemma SeenMeansSettled(ms0: Memories, rels0: Relations, ms: Memories, rels: Relations, superseded: nat, seen: set<Pair>)
    requires Pass(ms0, rels0, ms, rels, superseded, seen)
    requires AllCovered(rels0, ActiveIds(ms0), seen)
    ensures Settled(ms, rels)
  {
    forall e | e in rels && e.kind.Contradicts? ensures Resolved(ms, e.source, e.target) {
      if IsActive(ms, e.source) {
        assert e in rels0 && Touches(e, e.source);
        assert e.source in ActiveIds(ms0) && Covered(rels0, e.source, seen);
        assert Canonical(e.source, e.target) in seen;
      }
    }
  }

  // ---- What a pass means ----

  /** The newest active memory survives every pass. */
  lemma NewestSurvives(ms: Memories, ms': Memories, id: string)
    requires OnlyRetired(ms, ms') && IsActive(ms, id)
    requires forall n :: IsActive(ms, n) ==> ms[n].createdAt <= ms[id].createdAt
    ensures IsActive(ms', id)
  {
  }

  /** A walk along supersedes edges that this pass wrote. */
  predicate WrittenPath(rels: Relations, rels': Relations, path: seq<string>) {
    |path| >= 2 ==>
      var e := Edge(path[0], path[1], Supersedes);
      e in rels' && e !in rels && WrittenPath(rels, rels', path[1..])
  }

  /** Edges written by a pass form no cycle: along any walk of them memories get strictly older. */
  lemma {:induction false} WrittenEdgesDescend(ms: Memories, rels: Relations, rels': Relations, path: seq<string>)
    requires OnlySupersedes(ms, rels, rels') && |path| >= 2 && WrittenPath(rels, rels', path)
    ensures path[0] in ms && path[|path| - 1] in ms && ms[path[0]].createdAt > ms[path[|path| - 1]].createdAt
    ensures path[0] != path[|path| - 1]
  {
    var e := Edge(path[0], path[1], Supersedes);
    assert e in rels' && e !in rels;
    if |path| > 2 {
      WrittenEdgesDescend(ms, rels, rels', path[1..]);
    }
  }

  /** A second run after a successful one finds nothing to do. */
  method RunTwice(store: Store, faults: Faults, again: Faults) returns (first: nat, second: nat, ok: bool)
    modifies store
    ensures ok ==> second == 0
  {
    first, ok := store.Run(faults);
    second := 0;
    if ok {
      var done;
      second, done := store.Run(again);
    }
  }
}
