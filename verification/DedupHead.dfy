/**
 * Which belief survives a batch: the last of the first reports of each value heads its key,
 * by assertion time and then by the extractor's order, so a repeated value may lose.
 */
module DedupHead {
  import opened Basics
  import opened Atoms
  import opened Dedup
  import opened DedupLaws
  import StableSort
  import Text

  /** Equal up to the supersedes link, the only field planning writes. */
  ghost predicate SameBelief(a: Atom, b: Atom) {
    a.(supersedes := "") == b.(supersedes := "")
  }

  /** The head under `k` is the indexed atom or a planned candidate of that key. */
  ghost predicate HeadFrom(p: Plan, index: map<Key, Atom>, batch: seq<Atom>, k: Key) {
    k in p.index ==>
      || (k in index && p.index[k] == index[k])
      || exists c :: c in batch && KeyOf(c) == k && SameBelief(p.index[k], c)
  }

  lemma {:induction false} HeadProvenance(index: map<Key, Atom>, batch: seq<Atom>, k: Key, now: int)
    ensures HeadFrom(PlanAll(Plan(index, [], []), batch, now), index, batch, k)
  {
    if batch != [] {
      var front, c := batch[..|batch| - 1], batch[|batch| - 1];
      assert batch == front + [c];
      HeadProvenance(index, front, k, now);
      var p := PlanAll(Plan(index, [], []), front, now);
      var q := PlanStep(p, c, now);
      if KeyOf(c) == k && k in q.index && !(k in p.index && q.index[k] == p.index[k]) {
        assert SameBelief(q.index[k], c);
      }
    }
  }

  /** `latest` gets past both supersession gates against `head`. */
  ghost predicate Admits(head: Atom, latest: Atom, now: int) {
    && head.confidence <= latest.confidence + CONFIDENCE_TOLERANCE + CONFIDENCE_EPSILON
    && ValidityStart(head, now) <= AssertionTime(latest, now)
  }

  ghost predicate HeadValue(p: Plan, k: Key, value: string) {
    k in p.index && Text.Normalize(p.index[k].value) == Text.Normalize(value)
  }

  /** `latest` replaces `head`, or `head` has its value already. */
  ghost predicate GivesWay(head: Atom, latest: Atom, now: int) {
    Text.Normalize(head.value) == Text.Normalize(latest.value) || Admits(head, latest, now)
  }

  lemma AdmittedTakesOver(p: Plan, latest: Atom, now: int)
    requires latest.StatusChange()
    requires KeyOf(latest) in p.index ==> GivesWay(p.index[KeyOf(latest)], latest, now)
    ensures HeadValue(PlanStep(p, latest, now), KeyOf(latest), latest.value)
  {
  }

  lemma {:induction false} HeadValueStays(p: Plan, rest: seq<Atom>, latest: Atom, now: int)
    requires latest.StatusChange() && HeadValue(p, KeyOf(latest), latest.value)
    requires forall c :: c in rest && KeyOf(c) == KeyOf(latest) ==> c == latest
    ensures HeadValue(PlanAll(p, rest, now), KeyOf(latest), latest.value)
  {
    if rest != [] {
      var front, c := rest[..|rest| - 1], rest[|rest| - 1];
      assert rest == front + [c];
      HeadValueStays(p, front, latest, now);
    }
  }

  lemma {:induction false} PlanAllAppend(p: Plan, s: seq<Atom>, t: seq<Atom>, now: int)
    ensures PlanAll(p, s + t, now) == PlanAll(PlanAll(p, s, now), t, now)
  {
    if t == [] {
      assert s + t == s;
    } else {
      assert (s + t)[..|s + t| - 1] == s + t[..|t| - 1];
      PlanAllAppend(p, s, t[..|t| - 1], now);
    }
  }

  /**
   * The report at `n` is the last of its key by assertion time, and among the reports that
   * tie with it in time the last in the order of `s`.
   */
  ghost predicate LastReport(s: seq<Atom>, n: nat, now: int) {
    && n < |s|
    && forall j :: 0 <= j < |s| && j != n && KeyOf(s[j]) == KeyOf(s[n]) ==> ReportedBefore(s, j, n, now)
  }

  predicate ReportedBefore(s: seq<Atom>, i: nat, j: nat, now: int)
    requires i < |s| && j < |s|
  {
    || AssertionTime(s[i], now) < AssertionTime(s[j], now)
    || (AssertionTime(s[i], now) == AssertionTime(s[j], now) && i < j)
  }

  /** Every candidate of its key gives way to `latest`. */
  ghost predicate AllGiveWay(s: seq<Atom>, latest: Atom, now: int) {
    forall c :: c in s && KeyOf(c) == KeyOf(latest) ==> GivesWay(c, latest, now)
  }

  /** The stored atom of its key, if any, gives way to `latest`. */
  ghost predicate StoredGivesWay(index: map<Key, Atom>, latest: Atom, now: int) {
    KeyOf(latest) in index ==> GivesWay(index[KeyOf(latest)], latest, now)
  }

  ghost predicate NotAfter(s: seq<Atom>, latest: Atom, now: int) {
    forall c :: c in s && KeyOf(c) == KeyOf(latest) ==> AssertionTime(c, now) <= AssertionTime(latest, now)
  }

  ghost predicate EndsWith(s: seq<Atom>, a: Atom) {
    s != [] && s[|s| - 1] == a
  }

  lemma {:induction false} FilterNone(s: seq<Atom>, p: Atom -> bool)
    requires forall j :: 0 <= j < |s| ==> !p(s[j])
    ensures Filter(s, p) == []
  {
    if s != [] {
      FilterNone(s[1..], p);
    }
  }

  /** Filtering ends with the last element that passes. */
  lemma {:induction false} FilterEnds(s: seq<Atom>, n: nat, p: Atom -> bool)
    requires n < |s| && p(s[n])
    requires forall j :: n < j < |s| ==> !p(s[j])
    ensures EndsWith(Filter(s, p), s[n])
  {
    if n == 0 {
      FilterNone(s[1..], p);
    } else {
      FilterEnds(s[1..], n - 1, p);
    }
  }

  /** If filtering ends with an element that is not in the rest, nothing of the rest passes. */
  lemma NothingPasses(front: seq<Atom>, rest: seq<Atom>, a: Atom, p: Atom -> bool)
    requires EndsWith(Filter(front + rest, p), a) && a !in rest
    ensures Filter(rest, p) == []
  {
    FilterAppend(front, rest, p);
    EndOfSum(Filter(front, p), Filter(rest, p), a);
  }

  lemma EndOfSum(s: seq<Atom>, t: seq<Atom>, a: Atom)
    requires EndsWith(s + t, a) && a !in t
    ensures t == []
  {
  }

  /** The last report ends the list of those it ties with. */
  lemma LastReportEndsTies(s: seq<Atom>, n: nat, now: int)
    requires LastReport(s, n, now) && s[n].StatusChange()
    ensures EndsWith(Filter(s, TiedWith(s[n], now)), s[n]) && NotAfter(s, s[n], now)
  {
    forall j | n < j < |s| ensures !TiedWith(s[n], now)(s[j]) {
      assert KeyOf(s[j]) == KeyOf(s[n]) ==> ReportedBefore(s, j, n, now);
    }
    FilterEnds(s, n, TiedWith(s[n], now));
    LastReportLatest(s, n, now);
  }

  lemma LastReportLatest(s: seq<Atom>, n: nat, now: int)
    requires LastReport(s, n, now)
    ensures NotAfter(s, s[n], now)
  {
    forall j | 0 <= j < |s| && KeyOf(s[j]) == KeyOf(s[n]) ensures AssertionTime(s[j], now) <= AssertionTime(s[n], now) {
      assert j != n ==> ReportedBefore(s, j, n, now);
    }
  }

  lemma OnlyTiesFollow(x: Atom, y: Atom, now: int)
    requires x.StatusChange() && KeyOf(y) == KeyOf(x)
    requires !BatchBefore(y, x, now) && AssertionTime(y, now) <= AssertionTime(x, now)
    ensures TiedWith(x, now)(y)
  {
    assert KeyOf(y).kind == KeyOf(x).kind;
  }

  /** In the sorted batch nothing of its key follows a report that ends its ties. */
  lemma NothingFollows(front: seq<Atom>, x: Atom, rest: seq<Atom>, now: int)
    requires StableSort.Ordered(front + [x] + rest, Order(now)) && NotAfter(rest, x, now)
    requires x.StatusChange() && x !in rest && EndsWith(Filter(front + [x] + rest, TiedWith(x, now)), x)
    ensures forall c :: c in rest ==> KeyOf(c) != KeyOf(x)
  {
    NothingPasses(front + [x], rest, x, TiedWith(x, now));
    forall c | c in rest ensures KeyOf(c) != KeyOf(x) {
      NotTied(rest, c, TiedWith(x, now));
      if KeyOf(c) == KeyOf(x) {
        FollowsTied(front, x, rest, c, now);
      }
    }
  }

  lemma NotTied(rest: seq<Atom>, c: Atom, p: Atom -> bool)
    requires Filter(rest, p) == [] && c in rest
    ensures !p(c)
  {
  }

  lemma FollowsTied(front: seq<Atom>, x: Atom, rest: seq<Atom>, c: Atom, now: int)
    requires StableSort.Ordered(front + [x] + rest, Order(now)) && NotAfter(rest, x, now)
    requires x.StatusChange() && c in rest && KeyOf(c) == KeyOf(x)
    ensures TiedWith(x, now)(c)
  {
    var batch, m := front + [x] + rest, |front|;
    var j :| 0 <= j < |rest| && rest[j] == c;
    assert batch[m] == x && batch[m + 1 + j] == c;
    assert !Order(now)(batch[m + 1 + j], batch[m]);
    OnlyTiesFollow(x, c, now);
  }

  lemma PlanAllSplit(p: Plan, front: seq<Atom>, x: Atom, rest: seq<Atom>, now: int)
    ensures PlanAll(p, front + [x] + rest, now) == PlanAll(PlanStep(PlanAll(p, front, now), x, now), rest, now)
  {
    PlanAllAppend(p, front + [x], rest, now);
    assert (front + [x])[..|front|] == front;
  }

  /** Whatever heads the key when `latest` comes up gives way to it. */
  lemma HeadGivesWay(index: map<Key, Atom>, pre: seq<Atom>, latest: Atom, now: int)
    requires AllGiveWay(pre, latest, now) && StoredGivesWay(index, latest, now)
    ensures StoredGivesWay(PlanAll(Plan(index, [], []), pre, now).index, latest, now)
  {
    var k := KeyOf(latest);
    var p := PlanAll(Plan(index, [], []), pre, now);
    HeadProvenance(index, pre, k, now);
    if k in p.index && !(k in index && p.index[k] == index[k]) {
      var c :| c in pre && KeyOf(c) == k && SameBelief(p.index[k], c);
      assert GivesWay(c, latest, now);
    }
  }

  lemma {:induction false} SplitAtLast(s: seq<Atom>, a: Atom) returns (front: seq<Atom>, rest: seq<Atom>)
    requires a in s
    ensures s == front + [a] + rest && a !in rest
  {
    var n := |s| - 1;
    if s[n] == a {
      front, rest := s[..n], [];
    } else {
      assert s == s[..n] + [s[n]];
      front, rest := SplitAtLast(s[..n], a);
      rest := rest + [s[n]];
    }
  }

  lemma LastOfBatchWins(index: map<Key, Atom>, batch: seq<Atom>, latest: Atom, now: int)
    requires StableSort.Ordered(batch, Order(now)) && NotAfter(batch, latest, now)
    requires latest in batch && latest.StatusChange() && EndsWith(Filter(batch, TiedWith(latest, now)), latest)
    requires AllGiveWay(batch, latest, now) && StoredGivesWay(index, latest, now)
    ensures HeadValue(PlanAll(Plan(index, [], []), batch, now), KeyOf(latest), latest.value)
  {
    var front, rest := SplitAtLast(batch, latest);
    assert AllGiveWay(front, latest, now) && NotAfter(rest, latest, now);
    NothingFollows(front, latest, rest, now);
    TakesOverForGood(index, front, latest, rest, now);
  }

  lemma TakesOverForGood(index: map<Key, Atom>, front: seq<Atom>, latest: Atom, rest: seq<Atom>, now: int)
    requires latest.StatusChange() && AllGiveWay(front, latest, now) && StoredGivesWay(index, latest, now)
    requires forall c :: c in rest ==> KeyOf(c) != KeyOf(latest)
    ensures HeadValue(PlanAll(Plan(index, [], []), front + [latest] + rest, now), KeyOf(latest), latest.value)
  {
    PlanAllSplit(Plan(index, [], []), front, latest, rest, now);
    HeadGivesWay(index, front, latest, now);
    var p := PlanAll(Plan(index, [], []), front, now);
    AdmittedTakesOver(p, latest, now);
    HeadValueStays(PlanStep(p, latest, now), rest, latest, now);
  }

  lemma {:induction false} FirstCarrierKept(s: seq<Atom>, a: Atom)
    requires a in s
    ensures exists u :: u in Unique(s) && BatchKeyOf(u) == BatchKeyOf(a)
  {
    var front, c := s[..|s| - 1], s[|s| - 1];
    assert s == front + [c];
    if a in front {
      FirstCarrierKept(front, a);
      var u :| u in Unique(front) && BatchKeyOf(u) == BatchKeyOf(a);
      assert u in Unique(s);
    } else if BatchKeyOf(c) in BatchKeys(front) {
      BatchKeysMembers(front, BatchKeyOf(c));
      var i :| 0 <= i < |front| && BatchKeyOf(front[i]) == BatchKeyOf(c);
      FirstCarrierKept(front, front[i]);
      var u :| u in Unique(front) && BatchKeyOf(u) == BatchKeyOf(a);
      assert u in Unique(s);
    } else {
      assert a == c && c in Unique(s);
    }
  }

  /** The batch is a sorted arrangement of the candidates that batch deduplication leaves. */
  lemma BatchIsSorted(candidates: seq<Atom>, now: int)
    ensures StableSort.Ordered(Batch(candidates, now), Order(now))
    ensures forall c :: c in Batch(candidates, now) <==> c in Unique(candidates)
  {
    var u, b := Unique(candidates), Batch(candidates, now);
    StableSort.SortPermutes(u, Order(now));
    PermutationMembers(b, u);
    OrderIsWeak(now);
    StableSort.SortOrders(u, Order(now));
  }

  /** The status change at n, to which the others of its key and the stored atom give way. */
  ghost predicate Prevails(s: seq<Atom>, n: nat, index: map<Key, Atom>, now: int) {
    n < |s| && s[n].StatusChange() && AllGiveWay(s, s[n], now) && StoredGivesWay(index, s[n], now)
  }

  /**
   * The last of the first reports decides. Batch deduplication keeps the first report of every
   * value; the one asserted last heads its key, and of several asserted at the same time, as all
   * reports of one session are, the one the extractor gave last.
   */
  lemma LastFirstReportWins(existing: seq<Atom>, candidates: seq<Atom>, n: nat, now: int)
    requires LastReport(Unique(candidates), n, now) && Prevails(Unique(candidates), n, Index(existing, now), now)
    ensures var s := Unique(candidates)[n];
            HeadValue(FinalPlan(existing, candidates, now), KeyOf(s), s.value)
  {
    var u := Unique(candidates);
    BatchIsSorted(candidates, now);
    LastReportEndsTies(u, n, now);
    TiesKeepOrder(candidates, now, u[n]);
    LastOfBatchWins(Index(existing, now), Batch(candidates, now), u[n], now);
  }

  /** Of the first n reports, this one is the last of its key. */
  ghost predicate LastAmong(s: seq<Atom>, n: nat, i: nat, now: int) {
    && i < n <= |s|
    && forall j :: 0 <= j < n && j != i && KeyOf(s[j]) == KeyOf(s[i]) ==> ReportedBefore(s, j, i, now)
  }

  lemma {:induction false} LastAmongExists(s: seq<Atom>, n: nat, k: Key, now: int) returns (i: nat)
    requires n <= |s| && exists j :: 0 <= j < n && KeyOf(s[j]) == k
    ensures LastAmong(s, n, i, now) && KeyOf(s[i]) == k
  {
    if exists j :: 0 <= j < n - 1 && KeyOf(s[j]) == k {
      i := LastAmongExists(s, n - 1, k, now);
      if KeyOf(s[n - 1]) == k && !ReportedBefore(s, n - 1, i, now) {
        assert ReportedBefore(s, i, n - 1, now);
        i := n - 1;
      }
    } else {
      i := n - 1;
    }
  }

  /** Every key that is reported at all has a last report. */
  lemma LastReportExists(s: seq<Atom>, k: Key, now: int) returns (n: nat)
    requires exists j :: 0 <= j < |s| && KeyOf(s[j]) == k
    ensures LastReport(s, n, now) && KeyOf(s[n]) == k
  {
    n := LastAmongExists(s, |s|, k, now);
  }

  /**
   * When a reported value wins. Let `n` be the last of the first reports under the key, to which
   * the others and the stored atom give way. Then the head has the value of a candidate, the
   * latest asserted one or any other, exactly when the first report of that value, at `m`, is
   * itself the last report.
   */
  lemma ValueWinsIff(existing: seq<Atom>, candidates: seq<Atom>, c: Atom, m: nat, n: nat, now: int)
    requires c in candidates && m < |Unique(candidates)| && SameReport(Unique(candidates)[m], c)
    requires LastReport(Unique(candidates), n, now) && KeyOf(Unique(candidates)[n]) == KeyOf(c)
    requires Prevails(Unique(candidates), n, Index(existing, now), now)
    ensures HeadValue(FinalPlan(existing, candidates, now), KeyOf(c), c.value)
            <==> LastReport(Unique(candidates), m, now)
  {
    var u := Unique(candidates);
    LastFirstReportWins(existing, candidates, n, now);
    if SameReport(u[n], c) {
      UniqueApart(candidates, m, n);
    }
    if LastReport(u, m, now) {
      OneLastReport(u, m, n, now);
    }
  }

  lemma OneLastReport(s: seq<Atom>, m: nat, n: nat, now: int)
    requires LastReport(s, m, now) && LastReport(s, n, now) && KeyOf(s[m]) == KeyOf(s[n])
    ensures m == n
  {
    assert m != n ==> ReportedBefore(s, m, n, now);
  }

  /** No two positions of the deduplicated batch hold the same report. */
  lemma {:induction false} UniqueApart(s: seq<Atom>, i: nat, j: nat)
    requires i < |Unique(s)| && j < |Unique(s)| && SameReport(Unique(s)[i], Unique(s)[j])
    ensures i == j
  {
    var front, c := s[..|s| - 1], s[|s| - 1];
    var kept := Unique(front);
    if i < |kept| && j < |kept| {
      UniqueApart(front, i, j);
    } else if i < |kept| {
      UniqueInBatchKeys(front, kept[i]);
    } else if j < |kept| {
      UniqueInBatchKeys(front, kept[j]);
    }
  }

  /**
   * Within one session every report has the same assertion time, so the extractor's order
   * decides: the last of the first reports heads the key.
   */
  lemma SessionOrderDecides(existing: seq<Atom>, candidates: seq<Atom>, n: nat, time: int, now: int)
    requires forall c :: c in candidates ==> AssertionTime(c, now) == time
    requires Prevails(Unique(candidates), n, Index(existing, now), now)
    requires forall j :: n < j < |Unique(candidates)| ==> KeyOf(Unique(candidates)[j]) != KeyOf(Unique(candidates)[n])
    ensures var s := Unique(candidates)[n];
            HeadValue(FinalPlan(existing, candidates, now), KeyOf(s), s.value)
  {
    var u := Unique(candidates);
    forall c | c in u ensures AssertionTime(c, now) == time {
      UniqueMembers(candidates, c);
    }
    LastFirstReportWins(existing, candidates, n, now);
  }

  predicate SameReport(a: Atom, b: Atom) {
    BatchKeyOf(a) == BatchKeyOf(b)
  }

  lemma UniqueInBatchKeys(s: seq<Atom>, a: Atom)
    ensures a in Unique(s) ==> BatchKeyOf(a) in BatchKeys(s)
  {
    if a in Unique(s) {
      UniqueMembers(s, a);
      BatchKeysMembers(s, BatchKeyOf(a));
    }
  }

  /**
   * The latest assertion wins: when no other candidate repeats its value and every other
   * candidate of its key was reported before it, they and the stored atom giving way, the
   * head left in the index carries its value.
   */
  lemma LatestAssertedWins(existing: seq<Atom>, candidates: seq<Atom>, n: nat, now: int)
    requires LastReport(candidates, n, now) && candidates[n].StatusChange()
    requires forall j :: 0 <= j < |candidates| && SameReport(candidates[j], candidates[n]) ==> j == n
    requires AllGiveWay(candidates, candidates[n], now)
    requires StoredGivesWay(Index(existing, now), candidates[n], now)
    ensures HeadValue(FinalPlan(existing, candidates, now), KeyOf(candidates[n]), candidates[n].value)
  {
    var m := KeptLast(candidates, n, now);
    forall c | c in Unique(candidates) ensures c in candidates {
      UniqueMembers(candidates, c);
    }
    LastFirstReportWins(existing, candidates, m, now);
  }

  /** A last report that nothing repeats is kept, and is the last report of what is kept. */
  lemma {:induction false} KeptLast(s: seq<Atom>, n: nat, now: int) returns (m: nat)
    requires LastReport(s, n, now)
    requires forall j :: 0 <= j < |s| && SameReport(s[j], s[n]) ==> j == n
    ensures LastReport(Unique(s), m, now) && Unique(s)[m] == s[n]
  {
    var front, c := s[..|s| - 1], s[|s| - 1];
    assert s == front + [c];
    if n == |front| {
      BatchKeysMembers(front, BatchKeyOf(c));
      m := |Unique(front)|;
      LastStaysLast(front, c, now);
    } else {
      assert front[n] == s[n] && KeyOf(c) == KeyOf(s[n]) ==> ReportedBefore(s, |front|, n, now);
      LastReportFront(front, n, c, now);
      m := KeptLast(front, n, now);
      if Unique(s) != Unique(front) {
        LastReportStays(Unique(front), m, c, now);
      }
    }
  }

  lemma LastStaysLast(front: seq<Atom>, c: Atom, now: int)
    requires LastReport(front + [c], |front|, now)
    ensures LastReport(Unique(front) + [c], |Unique(front)|, now)
  {
    var s, kept := front + [c], Unique(front);
    forall j | 0 <= j < |kept| && KeyOf(kept[j]) == KeyOf(c) ensures ReportedBefore(kept + [c], j, |kept|, now) {
      UniqueMembers(front, kept[j]);
      var i :| 0 <= i < |front| && front[i] == kept[j];
      assert s[i] == kept[j] && ReportedBefore(s, i, |front|, now);
    }
  }

  lemma LastReportFront(front: seq<Atom>, n: nat, c: Atom, now: int)
    requires LastReport(front + [c], n, now) && n < |front|
    ensures LastReport(front, n, now)
  {
    var s := front + [c];
    forall j | 0 <= j < |front| && j != n && KeyOf(front[j]) == KeyOf(front[n]) ensures ReportedBefore(front, j, n, now) {
      assert s[j] == front[j] && ReportedBefore(s, j, n, now);
    }
  }

  lemma LastReportStays(s: seq<Atom>, m: nat, c: Atom, now: int)
    requires LastReport(s, m, now)
    requires KeyOf(c) == KeyOf(s[m]) ==> AssertionTime(c, now) < AssertionTime(s[m], now)
    ensures LastReport(s + [c], m, now)
  {
    var t := s + [c];
    forall j | 0 <= j < |s| && j != m && KeyOf(t[j]) == KeyOf(t[m]) ensures ReportedBefore(t, j, m, now) {
      assert ReportedBefore(s, j, m, now);
    }
  }

  /** A status change `value`, asserted at `time`, as the extractor builds it. */
  function Report(id: string, value: string, time: int): Atom {
    Atom(id, "p", TYPE_STATUS_CHANGE, "s", "r", value, "", Some(time), None, Some(time), 1.0, "", 0)
  }

  lemma ThirdReportDropped(r1: Atom, r2: Atom, r3: Atom)
    requires BatchKeyOf(r1) == BatchKeyOf(r3) != BatchKeyOf(r2)
    ensures Unique([r1, r2, r3]) == [r1, r2]
  {
    assert [r1][..0] == [] && [r1, r2][..1] == [r1] && [r1, r2, r3][..2] == [r1, r2];
    assert BatchKeys([r1]) == {BatchKeyOf(r1)};
    assert BatchKeys([r1, r2]) == {BatchKeyOf(r1), BatchKeyOf(r2)};
    assert Unique([]) == [];
    assert Unique([r1]) == [r1];
    assert Unique([r1, r2]) == [r1, r2];
  }

  lemma TwoReportsSorted(r1: Atom, r2: Atom, now: int)
    requires r1.StatusChange() && r2.StatusChange() && KeyOf(r1) == KeyOf(r2)
    requires AssertionTime(r1, now) <= AssertionTime(r2, now)
    ensures StableSort.Sort([r1, r2], Order(now)) == [r1, r2]
  {
    assert [r1][..0] == [] && [r1, r2][..1] == [r1];
    assert StableSort.Sort([r1], Order(now)) == [r1];
  }

  lemma TwoReportsPlanned(r1: Atom, r2: Atom, now: int)
    requires r1.StatusChange() && r2.StatusChange() && KeyOf(r1) == KeyOf(r2)
    requires AssertionTime(r1, now) <= AssertionTime(r2, now) && ValidityStart(r1, now) <= AssertionTime(r2, now)
    requires Text.Normalize(r1.value) != Text.Normalize(r2.value) && r1.confidence == r2.confidence
    ensures var p := PlanAll(Plan(map[], [], []), [r1, r2], now);
            KeyOf(r2) in p.index && p.index[KeyOf(r2)].value == r2.value
  {
    assert [r1][..0] == [] && [r1, r2][..1] == [r1];
    var start := Plan(map[], [], []);
    assert PlanAll(start, [r1], now) == PlanStep(start, r1, now);
    assert PlanAll(start, [r1, r2], now) == PlanStep(PlanStep(start, r1, now), r2, now);
  }

  /**
   * The value condition is needed: reports "a", "b", "a" at times 1, 2, 3 leave "b",
   * because the third report is dropped as a repeat of the first.
   */
  lemma RepeatedValueLosesLatest()
    ensures var p := FinalPlan([], [Report("1", "a", 1), Report("2", "b", 2), Report("3", "a", 3)], 0);
            var k := KeyOf(Report("3", "a", 3));
            k in p.index && p.index[k].value == "b"
  {
    assert Text.Normalize("a") == "a" && Text.Normalize("b") == "b";
    ThirdReportDropped(Report("1", "a", 1), Report("2", "b", 2), Report("3", "a", 3));
    TwoReportsSorted(Report("1", "a", 1), Report("2", "b", 2), 0);
    TwoReportsPlanned(Report("1", "a", 1), Report("2", "b", 2), 0);
  }

  /**
   * When a supersession may run backwards in assertion time: exactly when the current atom
   * claims validity from before it was asserted. Otherwise no accepted candidate is older.
   */
  lemma SupersessionIsForwardIff(current: Atom, now: int)
    ensures (forall c :: Decide(current, c, now).Supersede? ==> AssertionTime(current, now) <= AssertionTime(c, now))
            <==> AssertionTime(current, now) <= ValidityStart(current, now)
  {
    if ValidityStart(current, now) < AssertionTime(current, now) {
      assert Text.Normalize("") == "" && Text.Normalize("x") == "x";
      var value := if Text.Normalize(current.value) == "" then "x" else "";
      var c := current.(kind := TYPE_STATUS_CHANGE, value := value, observedAt := Some(ValidityStart(current, now)));
      assert Decide(current, c, now).Supersede?;
    }
  }
}
