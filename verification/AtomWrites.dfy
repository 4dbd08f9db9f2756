/**
 * One planned write against one table: what an insert and a retirement do when
 * the atom or pair they carry is sound for the atoms that exist.
 */
module AtomWrites {
  import opened Basics
  import opened Atoms
  import opened AtomTable
  import opened Chains
  import opened PlanFacts
  import opened Dedup

  ghost predicate AllStored(t: Table, known: Registry) {
    forall i :: 0 <= i < |t| ==> Stored(t[i], known)
  }

  ghost predicate ActiveId(t: Table, id: string) {
    exists i :: 0 <= i < |t| && t[i].id == id && t[i].Active()
  }

  /** A table in good order: chains hold and every row is the atom its id names. */
  ghost predicate Sound(t: Table, known: Registry) {
    Chained(t) && AllStored(t, known)
  }

  /** `u` has the rows of `t`, none reopened, relinked or rewritten, and event rows exactly as they were. */
  ghost predicate OnlyCloses(t: Table, u: Table) {
    && |t| <= |u|
    && forall i :: 0 <= i < |t| ==>
         && u[i] == t[i].(validTo := u[i].validTo)
         && (t[i].Event() || !t[i].Active() ==> u[i] == t[i])
  }

  lemma InsertStep(t: Table, a: Atom, clock: int, known: Registry)
    requires Sound(t, known) && Candidate(a, known) && !Has(t, a.id)
    ensures var u := Insert(t, Stamped(a, clock));
            && u == t + [Stamped(a, clock)]
            && Sound(u, known) && OnlyCloses(t, u)
            && ActiveCount(u) == ActiveCount(t) + 1
            && (forall x :: Has(u, x) <==> Has(t, x) || x == a.id)
            && (forall x :: ActiveId(u, x) <==> ActiveId(t, x) || x == a.id)
  {
    var b := Stamped(a, clock);
    InsertEffect(t, b);
    var u := t + [b];
    InsertKeepsChains(t, b);
    ActiveCountSnoc(t, b);
    assert b.Content() == a.Content();
    IdsAfterInsert(t, b);
  }

  lemma IdsAfterInsert(t: Table, b: Atom)
    requires b.Active()
    ensures forall x :: Has(t + [b], x) <==> Has(t, x) || x == b.id
    ensures forall x :: ActiveId(t + [b], x) <==> ActiveId(t, x) || x == b.id
  {
    var u := t + [b];
    assert u[|t|] == b;
    forall x ensures Has(u, x) <==> Has(t, x) || x == b.id {
      if i :| 0 <= i < |t| && t[i].id == x {
        assert u[i].id == x;
      }
      if i :| 0 <= i < |u| && u[i].id == x {
        assert i < |t| ==> t[i].id == x;
      }
    }
    forall x ensures ActiveId(u, x) <==> ActiveId(t, x) || x == b.id {
      if i :| 0 <= i < |t| && t[i].id == x && t[i].Active() {
        assert u[i].id == x && u[i].Active();
      }
      if i :| 0 <= i < |u| && u[i].id == x && u[i].Active() {
        assert i < |t| ==> t[i].id == x && t[i].Active();
      }
    }
  }

  lemma IdsAfterClose(t: Table, r: int, validTo: int, n: Atom)
    requires UniqueIds(t) && 0 <= r < |t| && n.Active() && n.id != t[r].id
    ensures forall x :: Has(Closed(t, r, validTo, n), x) <==> Has(t, x) || x == n.id
    ensures forall x :: ActiveId(Closed(t, r, validTo, n), x) <==> (ActiveId(t, x) && x != t[r].id) || x == n.id
  {
    var u := Closed(t, r, validTo, n);
    assert u[|t|] == n;
    forall x ensures Has(u, x) <==> Has(t, x) || x == n.id {
      if i :| 0 <= i < |t| && t[i].id == x {
        assert u[i].id == x;
      }
      if i :| 0 <= i < |u| && u[i].id == x {
        assert i < |t| ==> t[i].id == x;
      }
    }
    forall x ensures ActiveId(u, x) <==> (ActiveId(t, x) && x != t[r].id) || x == n.id {
      if i :| 0 <= i < |t| && t[i].id == x && t[i].Active() && x != t[r].id {
        assert u[i].id == x && u[i].Active();
      }
      if i :| 0 <= i < |u| && u[i].id == x && u[i].Active() {
        if i < |t| {
          assert i != r;
          assert t[i].id == x && t[i].Active();
          SameIdIfEqual(t, i, r);
        }
      }
    }
  }

  lemma SameIdIfEqual(t: Table, i: int, r: int)
    requires UniqueIds(t) && 0 <= i < |t| && 0 <= r < |t| && i != r
    ensures t[i].id != t[r].id
  {
    if i < r {
    } else {
    }
  }

  /** The row a sound pair names is the atom it was planned against, so retiring it is a sound link. */
  lemma NamedRowRetirable(t: Table, r: int, pair: Pair, clock: int, known: Registry)
    requires AllStored(t, known) && SoundPair(pair, known)
    requires 0 <= r < |t| && t[r].id == pair.retired.id && t[r].Active()
    ensures Retirable(t, r, pair.retired.validTo.value, Stamped(pair.successor, clock))
  {
    assert t[r].Content() == pair.retired.Content();
    assert KeyOf(t[r]) == KeyOf(t[r].Content());
    assert KeyOf(pair.retired) == KeyOf(pair.retired.Content());
    assert KeyOf(Stamped(pair.successor, clock)) == KeyOf(pair.successor);
  }

  /**
   * A planned retirement commits exactly when its predecessor is still active, and then it
   * closes that row, appends the successor, and keeps the number of active atoms.
   */
  lemma RetireStep(t: Table, pair: Pair, clock: int, known: Registry)
    requires Sound(t, known) && SoundPair(pair, known) && !Has(t, pair.successor.id)
    ensures var r := Retire(t, pair.retired.id, pair.retired.validTo.value, Stamped(pair.successor, clock));
            && (r.Some? <==> ActiveId(t, pair.retired.id))
            && (r.Some? ==>
                  && Sound(r.value, known) && OnlyCloses(t, r.value)
                  && ActiveCount(r.value) == ActiveCount(t)
                  && (forall x :: Has(r.value, x) <==> Has(t, x) || x == pair.successor.id)
                  && (forall x :: ActiveId(r.value, x)
                                  <==> (ActiveId(t, x) && x != pair.retired.id) || x == pair.successor.id))
  {
    var n, validTo := Stamped(pair.successor, clock), pair.retired.validTo.value;
    RetireEffect(t, pair.retired.id, validTo, n);
    var result := Retire(t, pair.retired.id, validTo, n);
    if result.Some? {
      var r :| 0 <= r < |t| && t[r].id == pair.retired.id && t[r].Active() && result.value == Closed(t, r, validTo, n);
      NamedRowRetirable(t, r, pair, clock, known);
      RetireKeepsChains(t, r, validTo, n);
      ActiveCountUpdate(t, r, t[r].(validTo := Some(validTo)));
      ActiveCountSnoc(t[r := t[r].(validTo := Some(validTo))], n);
      IdsAfterClose(t, r, validTo, n);
      ClosedStored(t, r, validTo, pair.successor, clock, known);
    }
  }

  lemma ClosedStored(t: Table, r: int, validTo: int, successor: Atom, clock: int, known: Registry)
    requires AllStored(t, known) && Stored(successor, known)
    requires 0 <= r < |t| && t[r].Active() && !t[r].Event()
    ensures AllStored(Closed(t, r, validTo, Stamped(successor, clock)), known)
    ensures OnlyCloses(t, Closed(t, r, validTo, Stamped(successor, clock)))
  {
    var u := Closed(t, r, validTo, Stamped(successor, clock));
    assert Stamped(successor, clock).Content() == successor.Content();
    assert u[r].Content() == t[r].Content();
  }
}
