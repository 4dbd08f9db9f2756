/**
 * The atoms table and its two writes: a plain insert, and the transaction that
 * inserts a replacement and retires its predecessor. Rows stay in insertion order.
 */
module AtomTable {
  import opened Basics
  import opened Atoms

  type Table = seq<Atom>

  /** The row with this id, or |t| when there is none. */
  function Position(t: Table, id: string): nat {
    if t == [] then 0 else if t[0].id == id then 0 else 1 + Position(t[1..], id)
  }

  lemma {:induction false} PositionIsFirst(t: Table, id: string)
    ensures Position(t, id) <= |t|
    ensures Position(t, id) < |t| ==> t[Position(t, id)].id == id
    ensures forall i :: 0 <= i < Position(t, id) ==> t[i].id != id
  {
    if t != [] && t[0].id != id {
      PositionIsFirst(t[1..], id);
      forall i | 0 <= i < Position(t, id) ensures t[i].id != id {
        if i > 0 {
          assert t[i] == t[1..][i - 1];
        }
      }
    }
  }

  ghost predicate Has(t: Table, id: string) {
    exists i :: 0 <= i < |t| && t[i].id == id
  }

  ghost predicate UniqueIds(t: Table) {
    forall i, j :: 0 <= i < j < |t| ==> t[i].id != t[j].id
  }

  /** The column defaults `insertAtom` fills in. */
  function Stamped(a: Atom, clock: int): Atom {
    var created := if a.createdAt == 0 then clock else a.createdAt;
    a.(createdAt := created, observedAt := if a.observedAt.None? then Some(created) else a.observedAt)
  }

  /** INSERT ... ON CONFLICT (id) DO NOTHING. */
  function Insert(t: Table, a: Atom): Table {
    if Position(t, a.id) < |t| then t else t + [a]
  }

  /** The supersession transaction: it commits as a whole or returns None and changes nothing. */
  function Retire(t: Table, id: string, validTo: int, superseding: Atom): Option<Table> {
    if Position(t, superseding.id) < |t| then None
    else
      var u := t + [superseding];
      PositionIsFirst(u, id);
      var i := Position(u, id);
      if i == |u| || !u[i].Active() then None
      else Some(u[i := u[i].(validTo := Some(validTo))])
  }

  /** A committed retirement appends the replacement and closes exactly one active row. */
  lemma RetireEffect(t: Table, id: string, validTo: int, superseding: Atom)
    requires UniqueIds(t) && superseding.id != id
    ensures Retire(t, id, validTo, superseding).Some? <==>
              !Has(t, superseding.id) && exists i :: 0 <= i < |t| && t[i].id == id && t[i].Active()
    ensures Retire(t, id, validTo, superseding).Some? ==>
              exists i :: 0 <= i < |t| && t[i].id == id && t[i].Active()
                && Retire(t, id, validTo, superseding).value
                   == t[i := t[i].(validTo := Some(validTo))] + [superseding]
  {
    PositionIsFirst(t, superseding.id);
    var u := t + [superseding];
    PositionIsFirst(u, id);
    var p := Position(u, id);
    if p < |t| {
      assert u[p] == t[p];
      assert u[p := u[p].(validTo := Some(validTo))] == t[p := t[p].(validTo := Some(validTo))] + [superseding];
    } else {
      forall i | 0 <= i < |t| ensures t[i].id != id {
        assert u[i] == t[i];
      }
    }
  }

  lemma InsertEffect(t: Table, a: Atom)
    ensures Insert(t, a) == if Has(t, a.id) then t else t + [a]
  {
    PositionIsFirst(t, a.id);
  }

  function ActiveCount(t: Table): nat {
    if t == [] then 0 else ActiveCount(t[..|t| - 1]) + if t[|t| - 1].Active() then 1 else 0
  }

  lemma {:induction false} ActiveCountUpdate(t: Table, i: nat, a: Atom)
    requires i < |t|
    ensures ActiveCount(t[i := a])
            == ActiveCount(t) - (if t[i].Active() then 1 else 0) + (if a.Active() then 1 else 0)
  {
    var front := t[..|t| - 1];
    if i == |t| - 1 {
      assert t[i := a][..|t| - 1] == front;
    } else {
      assert t[i := a][..|t| - 1] == front[i := a];
      ActiveCountUpdate(front, i, a);
    }
  }

  lemma ActiveCountSnoc(t: Table, a: Atom)
    ensures ActiveCount(t + [a]) == ActiveCount(t) + if a.Active() then 1 else 0
  {
    assert (t + [a])[..|t + [a]| - 1] == t;
  }

  /** The active rows of a project, which `GetActiveAtoms` may return in any order. */
  ghost predicate IsSnapshot(existing: seq<Atom>, t: Table, project: string) {
    && Pairwise(existing, DifferentIds())
    && forall a :: a in existing <==> a in t && a.project == project && a.Active()
  }

  function DifferentIds(): (Atom, Atom) -> bool {
    (x: Atom, y: Atom) => x.id != y.id
  }
}
