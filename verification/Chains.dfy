/**
 * Supersession chains: the shape every reachable atoms table keeps, and what that
 * shape means. Each atom has one active head, and the atoms of a head form one line.
 */
module Chains {
  import opened Basics
  import opened Atoms
  import opened AtomTable

  /** Row j replaced row i: one key, no event, i closed when j was asserted and not before it started. */
  ghost predicate Replaces(t: Table, i: int, j: int) {
    && 0 <= i < j < |t|
    && t[j].supersedes == t[i].id
    && KeyOf(t[i]) == KeyOf(t[j]) && !t[i].Event()
    && t[i].validTo == Some(AssertionTime(t[j], 0))
    && ValidityStart(t[i], 0) <= AssertionTime(t[j], 0)
  }

  ghost predicate Superseding(t: Table, j: int) {
    exists i :: Replaces(t, i, j)
  }

  ghost predicate Superseded(t: Table, i: int) {
    exists j :: Replaces(t, i, j)
  }

  /** Every link is backed by the row it replaced, and every closed row by its replacement. */
  ghost predicate Backed(t: Table) {
    && (forall j :: 0 <= j < |t| && t[j].supersedes != "" ==> Superseding(t, j))
    && (forall i :: 0 <= i < |t| && !t[i].Active() ==> Superseded(t, i))
  }

  ghost predicate LinksDiffer(t: Table) {
    forall i, j :: 0 <= i < j < |t| && t[i].supersedes != "" ==> t[i].supersedes != t[j].supersedes
  }

  ghost predicate Identified(t: Table) {
    UniqueIds(t) && forall i :: 0 <= i < |t| ==> t[i].id != "" && t[i].observedAt.Some?
  }

  ghost predicate Chained(t: Table) {
    Identified(t) && LinksDiffer(t) && Backed(t)
  }

  // ---- The writes keep the shape ----

  lemma InsertKeepsChains(t: Table, a: Atom)
    requires Chained(t) && !Has(t, a.id)
    requires a.id != "" && a.observedAt.Some? && a.Active() && a.supersedes == ""
    ensures Chained(t + [a])
  {
    var u := t + [a];
    forall i, j | Replaces(t, i, j) ensures Replaces(u, i, j) {
      assert u[i] == t[i] && u[j] == t[j];
    }
    BackingGrows(t, u, -1);
  }

  /**
   * What an insertion from outside the workers must look like: an atom with a new id keeps the
   * chains exactly when it is open and supersedes nothing.
   */
  lemma InsertKeepsChainsIff(t: Table, a: Atom)
    requires Chained(t) && !Has(t, a.id) && a.id != "" && a.observedAt.Some?
    ensures Chained(t + [a]) <==> a.Active() && a.supersedes == ""
  {
    if a.Active() && a.supersedes == "" {
      InsertKeepsChains(t, a);
    } else {
      BadInsertBreaksChains(t, a);
    }
  }

  lemma BadInsertBreaksChains(t: Table, a: Atom)
    requires Chained(t) && !Has(t, a.id) && a.id != "" && (!a.Active() || a.supersedes != "")
    ensures !Chained(t + [a])
  {
    var u := t + [a];
    assert u[|t|] == a;
    if !a.Active() {
      assert !Superseded(u, |t|);
    } else if i :| Replaces(u, i, |t|) {
      assert u[i] == t[i] && Superseded(t, i);
      var j :| Replaces(t, i, j);
      assert u[j].supersedes == u[|t|].supersedes;
      assert !LinksDiffer(u);
    } else {
      assert !Superseding(u, |t|);
    }
  }

  /** Rows other than the last keep their backing when every old replacement survives. */
  lemma BackingGrows(t: Table, u: Table, r: int)
    requires Backed(t) && |u| == |t| + 1
    requires forall i, j :: Replaces(t, i, j) ==> Replaces(u, i, j)
    requires forall i :: 0 <= i < |t| ==> u[i].supersedes == t[i].supersedes
    requires forall i :: 0 <= i < |t| && i != r ==> u[i].validTo == t[i].validTo
    requires u[|t|].Active() && (u[|t|].supersedes != "" ==> Replaces(u, r, |t|))
    requires 0 <= r < |t| ==> Replaces(u, r, |t|)
    ensures Backed(u)
  {
    forall j | 0 <= j < |u| && u[j].supersedes != "" ensures Superseding(u, j) {
      if j < |t| {
        assert Superseding(t, j);
        var i :| Replaces(t, i, j);
        assert Replaces(u, i, j);
      }
    }
    forall i | 0 <= i < |u| && !u[i].Active() ensures Superseded(u, i) {
      if i != r {
        assert !t[i].Active();
        assert Superseded(t, i);
        var j :| Replaces(t, i, j);
        assert Replaces(u, i, j);
      }
    }
  }

  lemma SameId(t: Table, i: int, j: int)
    requires UniqueIds(t) && 0 <= i < |t| && 0 <= j < |t| && t[i].id == t[j].id
    ensures i == j
  {
    if i < j {
    } else if j < i {
    }
  }

  lemma ActiveNotReplaced(t: Table, r: int, i: int, j: int)
    requires UniqueIds(t) && 0 <= r < |t| && t[r].Active() && Replaces(t, i, j)
    ensures t[j].supersedes != t[r].id
  {
    if t[i].id == t[r].id {
      SameId(t, i, r);
    }
  }

  /** The row an accepted retirement closes, and the link to it that a replacement carries. */
  ghost predicate Retirable(t: Table, r: int, validTo: int, n: Atom) {
    && 0 <= r < |t| && t[r].Active() && !t[r].Event()
    && n.id != "" && n.observedAt.Some? && n.Active() && n.supersedes == t[r].id
    && KeyOf(n) == KeyOf(t[r]) && validTo == AssertionTime(n, 0) && ValidityStart(t[r], 0) <= validTo
  }

  lemma NoRivalLink(t: Table, r: int, j: int)
    requires UniqueIds(t) && Backed(t) && 0 <= r < |t| && t[r].Active() && t[r].id != "" && 0 <= j < |t|
    ensures t[j].supersedes != t[r].id
  {
    if t[j].supersedes != "" {
      assert Superseding(t, j);
      var i :| Replaces(t, i, j);
      ActiveNotReplaced(t, r, i, j);
    }
  }

  lemma NewLink(t: Table, r: int, validTo: int, n: Atom)
    requires Retirable(t, r, validTo, n)
    ensures Replaces(Closed(t, r, validTo, n), r, |t|)
  {
    assert KeyOf(t[r].(validTo := Some(validTo))) == KeyOf(t[r]);
  }

  function Closed(t: Table, r: int, validTo: int, n: Atom): Table
    requires 0 <= r < |t|
  {
    t[r := t[r].(validTo := Some(validTo))] + [n]
  }

  lemma ClosedBacked(t: Table, r: int, validTo: int, n: Atom)
    requires Backed(t) && Retirable(t, r, validTo, n)
    ensures Backed(Closed(t, r, validTo, n))
  {
    var u := Closed(t, r, validTo, n);
    NewLink(t, r, validTo, n);
    forall i, j | Replaces(t, i, j) ensures Replaces(u, i, j) {
      ClosingKeeps(t, u, r, validTo, i, j);
    }
    BackingGrows(t, u, r);
  }

  lemma ClosedLinksDiffer(t: Table, r: int, validTo: int, n: Atom)
    requires Chained(t) && Retirable(t, r, validTo, n)
    ensures LinksDiffer(Closed(t, r, validTo, n))
  {
    var u := Closed(t, r, validTo, n);
    forall i, j | 0 <= i < j < |u| && u[i].supersedes != "" ensures u[i].supersedes != u[j].supersedes {
      assert u[i].supersedes == t[i].supersedes;
      if j == |t| {
        NoRivalLink(t, r, i);
      }
    }
  }

  lemma RetireKeepsChains(t: Table, r: int, validTo: int, n: Atom)
    requires Chained(t) && !Has(t, n.id) && Retirable(t, r, validTo, n)
    ensures Chained(Closed(t, r, validTo, n))
  {
    ClosedBacked(t, r, validTo, n);
    ClosedLinksDiffer(t, r, validTo, n);
    ClosedIdentified(t, r, validTo, n);
  }

  lemma ClosedIdentified(t: Table, r: int, validTo: int, n: Atom)
    requires Identified(t) && !Has(t, n.id) && 0 <= r < |t| && n.id != "" && n.observedAt.Some?
    ensures Identified(Closed(t, r, validTo, n))
  {
    var u := Closed(t, r, validTo, n);
    forall i | 0 <= i < |t| ensures u[i].id == t[i].id && u[i].observedAt == t[i].observedAt {
    }
  }

  lemma ClosingKeeps(t: Table, u: Table, r: int, validTo: int, i: int, j: int)
    requires Replaces(t, i, j) && i != r && 0 <= r < |t| <= |u| && u[i] == t[i]
    requires u[j] == if j == r then t[r].(validTo := Some(validTo)) else t[j]
    ensures Replaces(u, i, j)
  {
  }

  // ---- What the shape means ----

  /** The active row reached from i by following replacements. */
  ghost function Head(t: Table, i: nat): (h: nat)
    requires Chained(t) && i < |t|
    ensures i <= h < |t| && t[h].Active()
    decreases |t| - i
  {
    if t[i].Active() then i
    else
      assert Superseded(t, i);
      var j :| Replaces(t, i, j);
      Head(t, j)
  }

  lemma ReplacementUnique(t: Table, i: int, j: int, k: int)
    requires Chained(t) && Replaces(t, i, j) && Replaces(t, i, k)
    ensures j == k
  {
  }

  lemma HeadStep(t: Table, i: nat, j: nat)
    requires Chained(t) && Replaces(t, i, j)
    ensures Head(t, i) == Head(t, j)
  {
    assert !t[i].Active();
    var k :| Replaces(t, i, k) && Head(t, i) == Head(t, k);
    ReplacementUnique(t, i, j, k);
  }

  /** j is i itself or replaced it, directly or through others. */
  ghost predicate Ancestor(t: Table, i: nat, j: nat)
    decreases j
  {
    i == j || exists p: nat :: Replaces(t, p, j) && Ancestor(t, i, p)
  }

  lemma {:induction false} AncestorExtends(t: Table, i: nat, j: nat, k: nat)
    requires Chained(t) && Replaces(t, i, j) && Ancestor(t, j, k)
    ensures Ancestor(t, i, k)
    decreases k
  {
    if j == k {
      assert Ancestor(t, i, i);
    } else {
      var p: nat :| Replaces(t, p, k) && Ancestor(t, j, p);
      AncestorExtends(t, i, j, p);
    }
  }

  lemma {:induction false} HeadIsAncestor(t: Table, i: nat)
    requires Chained(t) && i < |t|
    ensures Ancestor(t, i, Head(t, i)) && KeyOf(t[Head(t, i)]) == KeyOf(t[i])
    decreases |t| - i
  {
    if !t[i].Active() {
      var j :| Replaces(t, i, j);
      HeadIsAncestor(t, j);
      HeadStep(t, i, j);
      AncestorExtends(t, i, j, Head(t, j));
    }
  }

  lemma {:induction false} AncestorsAreLinear(t: Table, i: nat, j: nat, h: nat)
    requires Chained(t) && i <= j && Ancestor(t, i, h) && Ancestor(t, j, h)
    ensures Ancestor(t, i, j)
    decreases h
  {
    if j != h {
      var p: nat :| Replaces(t, p, h) && Ancestor(t, j, p);
      AncestorBelow(t, j, p);
      var q: nat :| Replaces(t, q, h) && Ancestor(t, i, q);
      assert t[p].id == t[q].id && p == q;
      AncestorsAreLinear(t, i, j, p);
    }
  }

  lemma {:induction false} AncestorBelow(t: Table, i: nat, j: nat)
    requires Ancestor(t, i, j)
    ensures i <= j
    decreases j
  {
    if i != j {
      var p: nat :| Replaces(t, p, j) && Ancestor(t, i, p);
      AncestorBelow(t, i, p);
    }
  }

  /** Every row leads to one active head of its own key, the newest row of its chain. */
  ghost predicate HeadsAreNewest(t: Table)
    requires Chained(t)
  {
    forall i :: 0 <= i < |t| ==>
                  t[Head(t, i)].Active() && KeyOf(t[Head(t, i)]) == KeyOf(t[i]) && i <= Head(t, i)
  }

  /** Two rows with one head lie on one line of replacements. */
  ghost predicate ChainsAreLines(t: Table)
    requires Chained(t)
  {
    forall i, j :: 0 <= i <= j < |t| && Head(t, i) == Head(t, j) ==> Ancestor(t, i, j)
  }

  /** A link goes from newer to older and never leaves its chain. */
  ghost predicate LinksStayInChain(t: Table)
    requires Chained(t)
  {
    forall i, j :: 0 <= i < |t| && 0 <= j < |t| && t[j].supersedes == t[i].id ==>
                     i < j && Head(t, i) == Head(t, j)
  }

  /** A row is retired exactly when some row supersedes it, and then only one does. */
  ghost predicate OneSuperseder(t: Table) {
    && (forall i :: 0 <= i < |t| ==> (!t[i].Active() <==> exists j :: 0 <= j < |t| && t[j].supersedes == t[i].id))
    && (forall i, j, k :: 0 <= i < |t| && 0 <= j < |t| && 0 <= k < |t| && t[j].supersedes == t[i].id == t[k].supersedes ==>
                            j == k)
  }

  /** The supersedes links of a table form disjoint acyclic chains, each with one active head. */
  ghost predicate DisjointChains(t: Table)
    requires Chained(t)
  {
    HeadsAreNewest(t) && ChainsAreLines(t) && LinksStayInChain(t) && OneSuperseder(t)
  }

  lemma LinkIsReplacement(t: Table, i: nat, j: nat)
    requires Chained(t) && i < |t| && j < |t| && t[j].supersedes == t[i].id
    ensures Replaces(t, i, j)
  {
    assert Superseding(t, j);
    var o :| Replaces(t, o, j);
    SameId(t, o, i);
  }

  lemma LinksInChain(t: Table)
    requires Chained(t)
    ensures LinksStayInChain(t)
  {
    forall i: nat, j: nat | i < |t| && j < |t| && t[j].supersedes == t[i].id
      ensures i < j && Head(t, i) == Head(t, j)
    {
      LinkIsReplacement(t, i, j);
      HeadStep(t, i, j);
    }
  }

  lemma RetiredIffSuperseded(t: Table, i: nat)
    requires Chained(t) && i < |t|
    ensures !t[i].Active() <==> exists j :: 0 <= j < |t| && t[j].supersedes == t[i].id
  {
    if !t[i].Active() {
      assert Superseded(t, i);
      var j :| Replaces(t, i, j);
    }
    if j :| 0 <= j < |t| && t[j].supersedes == t[i].id {
      LinkIsReplacement(t, i, j);
    }
  }

  lemma ChainsHaveOneSuperseder(t: Table)
    requires Chained(t)
    ensures OneSuperseder(t)
  {
    forall i: nat | i < |t| ensures !t[i].Active() <==> exists j :: 0 <= j < |t| && t[j].supersedes == t[i].id {
      RetiredIffSuperseded(t, i);
    }
    forall i: nat, j: nat, k: nat | i < |t| && j < |t| && k < |t| && t[j].supersedes == t[i].id == t[k].supersedes
      ensures j == k
    {
      LinkOnce(t, i, j, k);
    }
  }

  lemma LinkOnce(t: Table, i: nat, j: nat, k: nat)
    requires Identified(t) && LinksDiffer(t)
    requires i < |t| && j < |t| && k < |t| && t[j].supersedes == t[i].id == t[k].supersedes
    ensures j == k
  {
    if j < k {
    } else if k < j {
    }
  }

  /** The shape kept by every write is exactly a set of disjoint chains. */
  lemma ChainedMeansChains(t: Table)
    requires Chained(t)
    ensures DisjointChains(t)
  {
    forall i: nat | i < |t| ensures KeyOf(t[Head(t, i)]) == KeyOf(t[i]) {
      HeadIsAncestor(t, i);
    }
    forall i: nat, j: nat | i <= j < |t| && Head(t, i) == Head(t, j) ensures Ancestor(t, i, j) {
      HeadIsAncestor(t, i);
      HeadIsAncestor(t, j);
      AncestorsAreLinear(t, i, j, Head(t, i));
    }
    LinksInChain(t);
    ChainsHaveOneSuperseder(t);
  }

  // ---- Newest by assertion time ----

  /** No row claims validity from before it was asserted. */
  ghost predicate ValidFromAssertion(t: Table) {
    forall i :: 0 <= i < |t| ==> AssertionTime(t[i], 0) <= ValidityStart(t[i], 0)
  }

  /** When no row is back-dated, assertion times never decrease towards the head. */
  lemma {:induction false} HeadAssertedLast(t: Table, i: nat)
    requires Chained(t) && ValidFromAssertion(t) && i < |t|
    ensures AssertionTime(t[i], 0) <= AssertionTime(t[Head(t, i)], 0)
    decreases |t| - i
  {
    if !t[i].Active() {
      assert Superseded(t, i);
      var j :| Replaces(t, i, j);
      HeadStep(t, i, j);
      HeadAssertedLast(t, j);
    }
  }
}
