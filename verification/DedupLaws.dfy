/**
 * What deduplication guarantees: the index holds each key's latest atom, and status
 * changes are planned independently of batch order.
 */
module DedupLaws {
  import opened Basics
  import opened Atoms
  import opened Dedup
  import StableSort

  // ---- The index is an argmax ----

  /** Each indexed atom is stored, carries its key, and nothing stored under that key is later. */
  lemma {:induction false} IndexHoldsLatest(existing: seq<Atom>, now: int)
    ensures HoldsLatest(Index(existing, now), existing, now)
  {
    if existing != [] {
      var front, last := existing[..|existing| - 1], existing[|existing| - 1];
      assert existing == front + [last];
      IndexHoldsLatest(front, now);
      IndexStepHoldsLatest(Index(front, now), front, last, now);
    }
  }

  /** The index has exactly the keys of `existing`, each with one of its latest atoms. */
  ghost predicate HoldsLatest(index: map<Key, Atom>, existing: seq<Atom>, now: int) {
    && (forall k :: k in index ==> index[k] in existing && KeyOf(index[k]) == k)
    && (forall a :: a in existing ==> KeyOf(a) in index && NotLater(a, index[KeyOf(a)], now))
  }

  /** Asserted earlier, or at the same time and not created later; undated atoms are asserted now. */
  predicate NotLater(a: Atom, b: Atom, now: int) {
    var ta, tb := if a.observedAt.Some? then a.observedAt.value else now, if b.observedAt.Some? then b.observedAt.value else now;
    ta < tb || (ta == tb && a.createdAt <= b.createdAt)
  }

  lemma IndexStepHoldsLatest(index: map<Key, Atom>, front: seq<Atom>, last: Atom, now: int)
    requires HoldsLatest(index, front, now)
    ensures HoldsLatest(IndexStep(index, last, now), front + [last], now)
  {
    var index', all := IndexStep(index, last, now), front + [last];
    forall k | k in index' ensures index'[k] in all && KeyOf(index'[k]) == k {
    }
    forall a | a in all ensures KeyOf(a) in index' && NotLater(a, index'[KeyOf(a)], now) {
    }
  }

  // ---- The batch keeps the first candidate of each batch key ----

  lemma {:induction false} BatchKeysMembers(s: seq<Atom>, b: BatchKey)
    ensures b in BatchKeys(s) <==> exists i :: 0 <= i < |s| && BatchKeyOf(s[i]) == b
  {
    if s != [] {
      var front := s[..|s| - 1];
      BatchKeysMembers(front, b);
      if b in BatchKeys(front) {
        var i :| 0 <= i < |front| && BatchKeyOf(front[i]) == b;
        assert BatchKeyOf(s[i]) == b;
      }
      if i :| 0 <= i < |s| && BatchKeyOf(s[i]) == b {
        assert i < |front| ==> BatchKeyOf(front[i]) == b;
      }
    }
  }

  lemma {:induction false} UniqueMembers(s: seq<Atom>, a: Atom)
    requires a in Unique(s)
    ensures a in s
  {
    var front := s[..|s| - 1];
    assert s == front + [s[|s| - 1]];
    if a in Unique(front) {
      UniqueMembers(front, a);
    }
  }

  const IsStatus: Atom -> bool := (a: Atom) => a.StatusChange()

  function StatusOf(s: seq<Atom>): seq<Atom> {
    Filter(s, IsStatus)
  }

  function Apart(now: int): (Atom, Atom) -> bool {
    (x, y) => BatchKeyOf(x) != BatchKeyOf(y)
              && (KeyOf(x) == KeyOf(y) ==> AssertionTime(x, now) != AssertionTime(y, now))
  }

  lemma StatusNotRepeated(front: seq<Atom>, c: Atom, now: int)
    requires c.StatusChange() && Pairwise(StatusOf(front) + [c], Apart(now))
    ensures BatchKeyOf(c) !in BatchKeys(front)
  {
    var t := StatusOf(front) + [c];
    forall i | 0 <= i < |front| ensures BatchKeyOf(front[i]) != BatchKeyOf(c) {
      if front[i].StatusChange() {
        assert front[i] in StatusOf(front);
        var j :| 0 <= j < |StatusOf(front)| && StatusOf(front)[j] == front[i];
        assert Apart(now)(t[j], t[|t| - 1]);
      } else {
        assert KeyOf(front[i]).kind != KeyOf(c).kind;
      }
    }
    BatchKeysMembers(front, BatchKeyOf(c));
  }

  /** Status changes whose batch keys are distinct all survive batch deduplication. */
  lemma {:induction false} UniqueKeepsStatus(s: seq<Atom>, now: int)
    requires Pairwise(StatusOf(s), Apart(now))
    ensures StatusOf(Unique(s)) == StatusOf(s)
  {
    if s != [] {
      var front, c := s[..|s| - 1], s[|s| - 1];
      assert s == front + [c];
      StatusFront(front, c, now);
      UniqueKeepsStatus(front, now);
      UniqueStatusSnoc(front, c);
    }
  }

  lemma StatusFront(front: seq<Atom>, c: Atom, now: int)
    requires Pairwise(StatusOf(front + [c]), Apart(now))
    ensures Pairwise(StatusOf(front), Apart(now))
    ensures c.StatusChange() ==> BatchKeyOf(c) !in BatchKeys(front)
  {
    StatusSnoc(front, c);
    var all := StatusOf(front + [c]);
    PairwisePrefix(all, |StatusOf(front)|, Apart(now));
    assert all[..|StatusOf(front)|] == StatusOf(front);
    if c.StatusChange() {
      StatusNotRepeated(front, c, now);
    }
  }

  lemma UniqueStatusSnoc(front: seq<Atom>, c: Atom)
    requires StatusOf(Unique(front)) == StatusOf(front)
    requires c.StatusChange() ==> BatchKeyOf(c) !in BatchKeys(front)
    ensures StatusOf(Unique(front + [c])) == StatusOf(front + [c])
  {
    StatusSnoc(front, c);
    StatusSnoc(Unique(front), c);
    assert (front + [c])[..|front|] == front;
    assert Unique(front + [c]) == if BatchKeyOf(c) in BatchKeys(front) then Unique(front) else Unique(front) + [c];
  }

  lemma StatusSnoc(front: seq<Atom>, c: Atom)
    ensures StatusOf(front + [c]) == if c.StatusChange() then StatusOf(front) + [c] else StatusOf(front)
  {
    FilterAppend(front, [c], IsStatus);
  }

  // ---- The batch order ----

  const IsOther: Atom -> bool := (a: Atom) => !a.StatusChange()

  /** Atoms other than status changes keep the extractor's order. */
  lemma OthersKeepOrder(candidates: seq<Atom>, now: int)
    ensures Filter(Batch(candidates, now), IsOther) == Filter(Unique(candidates), IsOther)
  {
    StableSort.SortStable(Unique(candidates), Order(now), IsOther);
  }

  lemma {:induction false} SplitByStatus(s: seq<Atom>, now: int)
    requires StableSort.Ordered(s, Order(now))
    ensures s == Filter(s, IsOther) + StatusOf(s)
  {
    if s != [] {
      OrderedTail(s, now);
      SplitByStatus(s[1..], now);
      if s[0].StatusChange() {
        NoOthers(s[1..], s[0], now);
      }
      SplitCons(s[0], s[1..]);
      assert s == [s[0]] + s[1..];
    }
  }

  lemma OrderedTail(s: seq<Atom>, now: int)
    requires s != [] && StableSort.Ordered(s, Order(now))
    ensures StableSort.Ordered(s[1..], Order(now)) && forall i :: 0 <= i < |s[1..]| ==> !Order(now)(s[1..][i], s[0])
  {
    forall i | 0 <= i < |s[1..]| ensures !Order(now)(s[1..][i], s[0]) {
      assert s[1..][i] == s[i + 1];
    }
  }

  lemma SplitCons(x: Atom, s: seq<Atom>)
    requires s == Filter(s, IsOther) + StatusOf(s) && (x.StatusChange() ==> Filter(s, IsOther) == [])
    ensures [x] + s == Filter([x] + s, IsOther) + StatusOf([x] + s)
  {
    assert ([x] + s)[1..] == s;
  }

  lemma {:induction false} NoOthers(s: seq<Atom>, first: Atom, now: int)
    requires first.StatusChange() && forall i :: 0 <= i < |s| ==> !Order(now)(s[i], first)
    ensures Filter(s, IsOther) == []
  {
    if s != [] {
      NoOthers(s[1..], first, now);
    }
  }

  /** The batch is the other atoms in the extractor's order, and then the status changes. */
  lemma OthersComeFirst(candidates: seq<Atom>, now: int)
    ensures Batch(candidates, now) == Filter(Unique(candidates), IsOther) + StatusOf(Batch(candidates, now))
  {
    OrderIsWeak(now);
    StableSort.SortOrders(Unique(candidates), Order(now));
    SplitByStatus(Batch(candidates, now), now);
    OthersKeepOrder(candidates, now);
  }

  /** Status changes that tie in key and assertion time keep the extractor's order. */
  lemma TiesKeepOrder(candidates: seq<Atom>, now: int, tie: Atom)
    requires tie.StatusChange()
    ensures Filter(Batch(candidates, now), TiedWith(tie, now)) == Filter(Unique(candidates), TiedWith(tie, now))
  {
    StableSort.SortStable(Unique(candidates), Order(now), TiedWith(tie, now));
  }

  function TiedWith(tie: Atom, now: int): Atom -> bool {
    (a: Atom) => a.StatusChange() && KeyOf(a) == KeyOf(tie) && AssertionTime(a, now) == AssertionTime(tie, now)
  }

  lemma OrderIsWeak(now: int)
    ensures StableSort.StrictWeakOrder(Order(now))
  {
    forall x ensures !Order(now)(x, x) {
      KeyLessIrreflexive(KeyOf(x));
    }
    forall x, y, z | Order(now)(x, y) && Order(now)(y, z) ensures Order(now)(x, z) {
      OrderTransitive(x, y, z, now);
    }
    forall x, y, z | Order(now)(x, z) ensures Order(now)(x, y) || Order(now)(y, z) {
      OrderCotransitive(x, y, z, now);
    }
  }

  lemma OrderTransitive(x: Atom, y: Atom, z: Atom, now: int)
    requires BatchBefore(x, y, now) && BatchBefore(y, z, now)
    ensures BatchBefore(x, z, now)
  {
    var kx, ky, kz := KeyOf(x), KeyOf(y), KeyOf(z);
    if KeyLess(kx, ky) && KeyLess(ky, kz) {
      KeyLessTransitive(kx, ky, kz);
      if kx == kz {
        KeyLessIrreflexive(kx);
      }
    }
  }

  lemma OrderCotransitive(x: Atom, y: Atom, z: Atom, now: int)
    requires BatchBefore(x, z, now)
    ensures BatchBefore(x, y, now) || BatchBefore(y, z, now)
  {
    var kx, ky, kz := KeyOf(x), KeyOf(y), KeyOf(z);
    KeyLessTotal(kx, ky);
    KeyLessTotal(ky, kz);
    if KeyLess(ky, kx) && KeyLess(kx, kz) {
      KeyLessTransitive(ky, kx, kz);
      if ky == kz {
        KeyLessIrreflexive(ky);
      }
    }
  }

  lemma {:induction false} FilterOrdered(s: seq<Atom>, p: Atom -> bool, less: (Atom, Atom) -> bool)
    requires StableSort.Ordered(s, less)
    ensures StableSort.Ordered(Filter(s, p), less)
  {
    if s != [] {
      FilterOrdered(s[1..], p, less);
      forall x | x in Filter(s[1..], p) ensures !less(x, s[0]) {
        var j :| 0 <= j < |s[1..]| && s[1..][j] == x;
        assert s[j + 1] == x;
      }
    }
  }

  /** The status part of a batch is one strictly increasing sequence of (key, time). */
  lemma StatusBatchStrict(candidates: seq<Atom>, now: int)
    requires Pairwise(StatusOf(candidates), Apart(now))
    ensures StableSort.StrictlyOrdered(StatusOf(Batch(candidates, now)), Order(now))
    ensures multiset(StatusOf(Batch(candidates, now))) == multiset(StatusOf(candidates))
  {
    var u := Unique(candidates);
    var b := Batch(candidates, now);
    var f := StatusOf(b);
    UniqueKeepsStatus(candidates, now);
    StableSort.SortPermutes(u, Order(now));
    SamePartMultiset(b, u, IsStatus);
    OrderIsWeak(now);
    StableSort.SortOrders(u, Order(now));
    FilterOrdered(b, IsStatus, Order(now));
    PairwisePermutes(StatusOf(candidates), f, Apart(now));
    forall i, j | 0 <= i < j < |f| ensures Order(now)(f[i], f[j]) && !Order(now)(f[j], f[i]) {
      assert Apart(now)(f[i], f[j]);
      assert f[i] in f && f[j] in f;
      KeyLessTotal(KeyOf(f[i]), KeyOf(f[j]));
    }
  }

  lemma SamePartMultiset(s: seq<Atom>, t: seq<Atom>, p: Atom -> bool)
    requires multiset(s) == multiset(t)
    ensures multiset(Filter(s, p)) == multiset(Filter(t, p))
  {
    forall x ensures multiset(Filter(s, p))[x] == multiset(Filter(t, p))[x] {
      FilterMultiset(s, p, x);
      FilterMultiset(t, p, x);
    }
  }

  // ---- Status changes are planned on their own ----

  const IsStatusPair: Pair -> bool := (p: Pair) => p.successor.StatusChange()

  function StatusPart(r: Result): Result {
    Result(StatusOf(r.novel), Filter(r.superseded, IsStatusPair))
  }

  /** Two plans that cannot be told apart through status changes. */
  ghost predicate SameStatus(p: Plan, q: Plan) {
    && StatusOf(p.novel) == StatusOf(q.novel)
    && Filter(p.superseded, IsStatusPair) == Filter(q.superseded, IsStatusPair)
    && forall k: Key :: k.kind == TYPE_STATUS_CHANGE ==>
         (k in p.index <==> k in q.index) && (k in p.index ==> p.index[k] == q.index[k])
  }

  lemma StatusPairSnoc(pairs: seq<Pair>, pair: Pair)
    ensures Filter(pairs + [pair], IsStatusPair)
            == if pair.successor.StatusChange() then Filter(pairs, IsStatusPair) + [pair] else Filter(pairs, IsStatusPair)
  {
    FilterAppend(pairs, [pair], IsStatusPair);
  }

  /** A candidate of another type leaves no trace among status changes. */
  lemma OtherStep(p: Plan, q: Plan, c: Atom, now: int)
    requires SameStatus(p, q) && !c.StatusChange()
    ensures SameStatus(PlanStep(p, c, now), q)
  {
    StatusSnoc(p.novel, c);
    var r := PlanStep(p, c, now);
    assert KeyOf(c).kind != TYPE_STATUS_CHANGE;
    if |r.superseded| > |p.superseded| {
      StatusPairSnoc(p.superseded, r.superseded[|p.superseded|]);
    }
  }

  /** A status change does the same to two plans that agree on status changes. */
  lemma StatusStep(p: Plan, q: Plan, c: Atom, now: int)
    requires SameStatus(p, q) && c.StatusChange()
    ensures SameStatus(PlanStep(p, c, now), PlanStep(q, c, now))
  {
    StatusSnoc(p.novel, c);
    StatusSnoc(q.novel, c);
    var k := KeyOf(c);
    assert k.kind == TYPE_STATUS_CHANGE;
    if k in p.index && Decide(p.index[k], c, now).Supersede? {
      var pair := PlanStep(p, c, now).superseded[|p.superseded|];
      StatusPairSnoc(p.superseded, pair);
      StatusPairSnoc(q.superseded, pair);
    }
  }

  /** Planning a batch and planning only its status changes agree on status changes. */
  lemma {:induction false} StatusPlannedAlone(p: Plan, batch: seq<Atom>, now: int)
    ensures SameStatus(PlanAll(p, batch, now), PlanAll(p, StatusOf(batch), now))
  {
    if batch != [] {
      var front, c := batch[..|batch| - 1], batch[|batch| - 1];
      assert batch == front + [c];
      StatusPlannedAlone(p, front, now);
      FilterAppend(front, [c], IsStatus);
      if c.StatusChange() {
        StatusStep(PlanAll(p, front, now), PlanAll(p, StatusOf(front), now), c, now);
        assert StatusOf(batch)[..|StatusOf(batch)| - 1] == StatusOf(front);
      } else {
        OtherStep(PlanAll(p, front, now), PlanAll(p, StatusOf(front), now), c, now);
        assert StatusOf(batch) == StatusOf(front);
      }
    }
  }

  /**
   * Batch order is irrelevant to status changes: when they are pairwise apart, every
   * permutation of the candidates plans the same status-change inserts and supersessions.
   */
  lemma StatusOrderIndependent(existing: seq<Atom>, candidates: seq<Atom>, shuffled: seq<Atom>, now: int)
    requires multiset(candidates) == multiset(shuffled)
    requires Pairwise(StatusOf(candidates), Apart(now))
    ensures StatusPart(Planned(existing, candidates, now)) == StatusPart(Planned(existing, shuffled, now))
  {
    SamePartMultiset(candidates, shuffled, IsStatus);
    PairwisePermutes(StatusOf(candidates), StatusOf(shuffled), Apart(now));
    StatusBatchStrict(candidates, now);
    StatusBatchStrict(shuffled, now);
    var b, c := Batch(candidates, now), Batch(shuffled, now);
    PermutationMembers(StatusOf(b), StatusOf(c));
    StableSort.StrictlyOrderedUnique(StatusOf(b), StatusOf(c), Order(now));
    var start := Plan(Index(existing, now), [], []);
    StatusPlannedAlone(start, b, now);
    StatusPlannedAlone(start, c, now);
  }
}
