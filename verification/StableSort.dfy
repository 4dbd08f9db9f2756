/**
 * Stable sorting by a strict weak order, as Go's `sort.SliceStable` promises it:
 * the result is an ordered permutation in which equal elements keep their order.
 */
module StableSort {
  import opened Basics

  ghost predicate StrictWeakOrder<T(!new)>(less: (T, T) -> bool) {
    && (forall x :: !less(x, x))
    && (forall x, y, z :: less(x, y) && less(y, z) ==> less(x, z))
    && (forall x, y, z :: less(x, z) ==> less(x, y) || less(y, z))
  }

  ghost predicate Ordered<T>(s: seq<T>, less: (T, T) -> bool) {
    forall i, j :: 0 <= i < j < |s| ==> !less(s[j], s[i])
  }

  /** Places `x` after every element that is not greater than it. */
  function Insert<T>(s: seq<T>, x: T, less: (T, T) -> bool): seq<T> {
    if s == [] || !less(x, s[|s| - 1]) then s + [x]
    else Insert(s[..|s| - 1], x, less) + [s[|s| - 1]]
  }

  function Sort<T>(s: seq<T>, less: (T, T) -> bool): seq<T> {
    if s == [] then [] else Insert(Sort(s[..|s| - 1], less), s[|s| - 1], less)
  }

  lemma {:induction false} InsertPermutes<T>(s: seq<T>, x: T, less: (T, T) -> bool)
    ensures multiset(Insert(s, x, less)) == multiset(s) + multiset{x}
  {
    if s != [] && less(x, s[|s| - 1]) {
      InsertPermutes(s[..|s| - 1], x, less);
      assert s == s[..|s| - 1] + [s[|s| - 1]];
    }
  }

  lemma {:induction false} SortPermutes<T>(s: seq<T>, less: (T, T) -> bool)
    ensures multiset(Sort(s, less)) == multiset(s)
    ensures |Sort(s, less)| == |s|
  {
    if s != [] {
      SortPermutes(s[..|s| - 1], less);
      InsertPermutes(Sort(s[..|s| - 1], less), s[|s| - 1], less);
      assert s == s[..|s| - 1] + [s[|s| - 1]];
    }
    assert |multiset(Sort(s, less))| == |Sort(s, less)|;
  }

  lemma {:induction false} InsertOrders<T(!new)>(s: seq<T>, x: T, less: (T, T) -> bool)
    requires StrictWeakOrder(less) && Ordered(s, less)
    ensures Ordered(Insert(s, x, less), less)
  {
    if s != [] && less(x, s[|s| - 1]) {
      var front, last := s[..|s| - 1], s[|s| - 1];
      InsertOrders(front, x, less);
      InsertPermutes(front, x, less);
      var r := Insert(front, x, less);
      forall i | 0 <= i < |r| ensures !less(last, r[i]) {
        assert r[i] in multiset(r);
        assert r[i] in front || r[i] == x;
      }
    }
  }

  lemma {:induction false} SortOrders<T(!new)>(s: seq<T>, less: (T, T) -> bool)
    requires StrictWeakOrder(less)
    ensures Ordered(Sort(s, less), less)
  {
    if s != [] {
      SortOrders(s[..|s| - 1], less);
      InsertOrders(Sort(s[..|s| - 1], less), s[|s| - 1], less);
    }
  }

  /** Inserting an element outside a block of mutual ties leaves that block as it was. */
  lemma {:induction false} InsertKeepsTies<T>(s: seq<T>, x: T, less: (T, T) -> bool, p: T -> bool)
    requires forall a :: a in s && p(a) && p(x) ==> !less(x, a)
    ensures Filter(Insert(s, x, less), p) == Filter(s, p) + Filter([x], p)
  {
    if s == [] || !less(x, s[|s| - 1]) {
      FilterAppend(s, [x], p);
    } else {
      var front, last := s[..|s| - 1], s[|s| - 1];
      InsertKeepsTies(front, x, less, p);
      FilterAppend(Insert(front, x, less), [last], p);
      FilterAppend(front, [last], p);
      assert s == front + [last];
      assert !p(x) || !p(last);
    }
  }

  /** Stability: any block of mutually tied elements keeps its input order. */
  lemma {:induction false} SortStable<T(!new)>(s: seq<T>, less: (T, T) -> bool, p: T -> bool)
    requires forall a, b :: a in s && b in s && p(a) && p(b) ==> !less(a, b)
    ensures Filter(Sort(s, less), p) == Filter(s, p)
  {
    if s != [] {
      var front, last := s[..|s| - 1], s[|s| - 1];
      assert s == front + [last];
      SortStable(front, less, p);
      SortPermutes(front, less);
      PermutationMembers(Sort(front, less), front);
      InsertKeepsTies(Sort(front, less), last, less, p);
      FilterAppend(front, [last], p);
    }
  }

  ghost predicate StrictlyOrdered<T>(s: seq<T>, less: (T, T) -> bool) {
    forall i, j :: 0 <= i < j < |s| ==> less(s[i], s[j]) && !less(s[j], s[i])
  }

  ghost predicate SameMembers<T(!new)>(s: seq<T>, t: seq<T>) {
    forall x :: x in s <==> x in t
  }

  /** The least member does not depend on the arrangement. */
  lemma SameLeast<T(!new)>(s: seq<T>, t: seq<T>, less: (T, T) -> bool)
    requires SameMembers(s, t) && s != [] && t != []
    requires StrictlyOrdered(s, less) && StrictlyOrdered(t, less)
    ensures s[0] == t[0]
  {
    assert s[0] in s && t[0] in t;
    var i :| 0 <= i < |t| && t[i] == s[0];
    var j :| 0 <= j < |s| && s[j] == t[0];
  }

  lemma StrictTail<T(!new)>(s: seq<T>, less: (T, T) -> bool)
    requires s != [] && StrictlyOrdered(s, less)
    ensures StrictlyOrdered(s[1..], less)
    ensures forall x :: x in s[1..] <==> x in s && x != s[0]
  {
    forall x | x in s[1..] ensures x in s && x != s[0] {
      var j :| 1 <= j < |s| && s[j] == x;
      assert less(s[0], s[j]) && !less(s[j], s[0]);
    }
  }

  /** Two strictly ordered arrangements of the same members are the same sequence. */
  lemma {:induction false} StrictlyOrderedUnique<T(!new)>(s: seq<T>, t: seq<T>, less: (T, T) -> bool)
    requires SameMembers(s, t)
    requires StrictlyOrdered(s, less) && StrictlyOrdered(t, less)
    ensures s == t
  {
    assert s != [] ==> s[0] in s;
    assert t != [] ==> t[0] in t;
    if s != [] && t != [] {
      SameLeast(s, t, less);
      StrictTail(s, less);
      StrictTail(t, less);
      StrictlyOrderedUnique(s[1..], t[1..], less);
      assert s == [s[0]] + s[1..] && t == [t[0]] + t[1..];
    }
  }
}
