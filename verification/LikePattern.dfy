/**
 * Quoting user text for SQL LIKE. Three replacement passes must make a pattern that
 * means the literal text under the matcher of section 9.7.1 of the PostgreSQL manual.
 */
module LikePattern {
  import opened Basics
  import Text
  import StableSort

  /** `t LIKE p` with backslash as the escape character. */
  predicate Like(t: string, p: string)
    decreases |t| + |p|
  {
    if p == "" then t == ""
    else if p[0] == '%' then Like(t, p[1..]) || (t != "" && Like(t[1..], p))
    else if t == "" then false
    else if p[0] == '_' then Like(t[1..], p[1..])
    else if p[0] == '\\' then |p| >= 2 && t[0] == p[1] && Like(t[1..], p[2..])
    else t[0] == p[0] && Like(t[1..], p[1..])
  }

  function Replace(s: string, c: char, sub: string): string {
    if s == "" then "" else (if s[0] == c then sub else [s[0]]) + Replace(s[1..], c, sub)
  }

  lemma ReplaceNext(r: string, s: string, i: nat, c: char, sub: string)
    requires i < |s|
    ensures r + Replace(s[i..], c, sub) == (r + (if s[i] == c then sub else [s[i]])) + Replace(s[i + 1..], c, sub)
  {
    assert s[i..][0] == s[i] && s[i..][1..] == s[i + 1..];
  }

  method ReplaceAll(s: string, c: char, sub: string) returns (r: string)
    ensures r == Replace(s, c, sub)
  {
    r := "";
    for i := 0 to |s|
      invariant r + Replace(s[i..], c, sub) == Replace(s, c, sub)
    {
      var piece := if s[i] == c then sub else [s[i]];
      ReplaceNext(r, s, i, c, sub);
      r := r + piece;
    }
  }

  function Escaped(s: string): string {
    Replace(Replace(Replace(s, '\\', "\\\\"), '%', "\\%"), '_', "\\_")
  }

  method EscapeLike(s: string) returns (r: string)
    ensures r == Escaped(s)
  {
    r := ReplaceAll(s, '\\', "\\\\");
    r := ReplaceAll(r, '%', "\\%");
    r := ReplaceAll(r, '_', "\\_");
  }

  // ---- Three passes are one ----

  predicate Special(c: char) {
    c == '\\' || c == '%' || c == '_'
  }

  function Quote(c: char): string {
    if Special(c) then ['\\', c] else [c]
  }

  /** Every special character gets one backslash, in a single pass. */
  function Quoted(s: string): string {
    if s == "" then "" else Quote(s[0]) + Quoted(s[1..])
  }

  lemma {:induction false} ReplaceAppend(s: string, t: string, c: char, sub: string)
    ensures Replace(s + t, c, sub) == Replace(s, c, sub) + Replace(t, c, sub)
  {
    if s == "" {
      assert s + t == t;
    } else {
      assert (s + t)[1..] == s[1..] + t;
      ReplaceAppend(s[1..], t, c, sub);
      var first := if s[0] == c then sub else [s[0]];
      assert first + (Replace(s[1..], c, sub) + Replace(t, c, sub))
          == (first + Replace(s[1..], c, sub)) + Replace(t, c, sub);
    }
  }

  lemma ReplaceOne(x: char, c: char, sub: string)
    ensures Replace([x], c, sub) == if x == c then sub else [x]
  {
    assert [x][1..] == "";
  }

  lemma ReplaceTwo(x: char, y: char, c: char, sub: string)
    requires x != c
    ensures Replace([x, y], c, sub) == [x] + if y == c then sub else [y]
  {
    assert [x, y][1..] == [y];
    ReplaceOne(y, c, sub);
  }

  /** One character through all three passes. */
  lemma QuoteInThreePasses(c: char)
    ensures Escaped([c]) == Quote(c)
  {
    ReplaceOne(c, '\\', "\\\\");
    if c == '\\' {
      ReplaceTwo('\\', '\\', '%', "\\%");
      ReplaceTwo('\\', '\\', '_', "\\_");
    } else if c == '%' {
      ReplaceOne(c, '%', "\\%");
      ReplaceTwo('\\', '%', '_', "\\_");
    } else {
      ReplaceOne(c, '%', "\\%");
      ReplaceOne(c, '_', "\\_");
    }
  }

  lemma EscapedAppend(s: string, t: string)
    ensures Escaped(s + t) == Escaped(s) + Escaped(t)
  {
    var s1, t1 := Replace(s, '\\', "\\\\"), Replace(t, '\\', "\\\\");
    ReplaceAppend(s, t, '\\', "\\\\");
    ReplaceAppend(s1, t1, '%', "\\%");
    ReplaceAppend(Replace(s1, '%', "\\%"), Replace(t1, '%', "\\%"), '_', "\\_");
  }

  /** The three sequential replacements equal one character-wise pass. */
  lemma {:induction false} ThreePassesAreOne(s: string)
    ensures Escaped(s) == Quoted(s)
  {
    if s != "" {
      assert s == [s[0]] + s[1..];
      EscapedAppend([s[0]], s[1..]);
      QuoteInThreePasses(s[0]);
      ThreePassesAreOne(s[1..]);
    }
  }

  // ---- What a quoted pattern matches ----

  /** A quoted prefix consumes exactly itself, whatever pattern follows. */
  lemma {:induction false} QuotedConsumes(t: string, s: string, rest: string)
    ensures Like(t, Quoted(s) + rest) <==> s <= t && Like(t[|s|..], rest)
    decreases |s|
  {
    if s == "" {
      assert Quoted(s) + rest == rest;
      assert t[0..] == t;
    } else {
      var p := Quoted(s) + rest;
      var tail := Quoted(s[1..]) + rest;
      assert p == Quote(s[0]) + tail;
      assert p[|Quote(s[0])|..] == tail;
      if t != "" {
        QuotedConsumes(t[1..], s[1..], rest);
        PrefixTail(s, t);
      }
    }
  }

  lemma PrefixTail(s: string, t: string)
    requires s != "" && t != ""
    ensures s <= t <==> s[0] == t[0] && s[1..] <= t[1..]
    ensures s <= t ==> t[1..][|s| - 1..] == t[|s|..]
  {
    if s[0] == t[0] && s[1..] <= t[1..] {
      assert s == [s[0]] + s[1..];
      assert t[..|s|] == [t[0]] + t[1..][..|s| - 1];
    }
  }

  lemma {:induction false} PercentMatchesAll(t: string)
    ensures Like(t, "%")
  {
    assert "%"[1..] == "";
    if t != "" {
      PercentMatchesAll(t[1..]);
    }
  }

  /** Escaped text matches only itself. */
  lemma EscapedMatchesItself(t: string, s: string)
    ensures Like(t, Escaped(s)) <==> t == s
  {
    ThreePassesAreOne(s);
    assert Quoted(s) + "" == Quoted(s);
    QuotedConsumes(t, s, "");
  }

  /** Escaped prefix followed by % matches exactly the strings with that prefix. */
  lemma EscapedPrefixMatches(t: string, s: string)
    ensures Like(t, Escaped(s) + "%") <==> s <= t
  {
    ThreePassesAreOne(s);
    QuotedConsumes(t, s, "%");
    if s <= t {
      PercentMatchesAll(t[|s|..]);
    }
  }

  predicate Contains(t: string, s: string) {
    exists i :: 0 <= i <= |t| && s <= t[i..]
  }

  lemma ContainsSplit(t: string, s: string)
    ensures Contains(t, s) <==> s <= t || (t != "" && Contains(t[1..], s))
  {
    assert t[0..] == t;
    if i :| 0 <= i <= |t| && s <= t[i..] {
      if i > 0 {
        assert t[1..][i - 1..] == t[i..];
      }
    }
    if t != "" && Contains(t[1..], s) {
      var i :| 0 <= i <= |t[1..]| && s <= t[1..][i..];
      assert t[i + 1..] == t[1..][i..];
    }
  }

  /** % + escaped filter + % matches exactly the strings that contain the filter. */
  lemma {:induction false} EscapedContainsMatches(t: string, s: string)
    ensures Like(t, "%" + Escaped(s) + "%") <==> Contains(t, s)
    decreases |t|
  {
    var p := "%" + Escaped(s) + "%";
    assert p[1..] == Escaped(s) + "%";
    EscapedPrefixMatches(t, s);
    ContainsSplit(t, s);
    if t != "" {
      EscapedContainsMatches(t[1..], s);
    }
  }

  /** Escaping the backslash last would not do: the text "%" would no longer match itself. */
  lemma OrderMatters()
    ensures !Like("%", Replace(Replace("%", '%', "\\%"), '\\', "\\\\"))
  {
    ReplaceOne('%', '%', "\\%");
    assert "\\%"[1..] == "%";
    ReplaceOne('%', '\\', "\\\\");
    assert Replace("\\%", '\\', "\\\\") == "\\\\%";
  }

  // ---- The tag filter: case-insensitive containment ----

  predicate ILike(t: string, p: string) {
    Like(Text.ToLower(t), Text.ToLower(p))
  }

  /** The WHERE clause of the tag aggregate, as it receives the escaped filter. */
  predicate TagSelected(tag: string, escaped: string) {
    escaped == "" || ILike(tag, "%" + escaped + "%")
  }

  lemma {:induction false} LowerAppend(s: string, t: string)
    ensures Text.ToLower(s + t) == Text.ToLower(s) + Text.ToLower(t)
  {
    if s == "" {
      assert s + t == t;
    } else {
      assert (s + t)[1..] == s[1..] + t;
      LowerAppend(s[1..], t);
    }
  }

  lemma {:induction false} LowerQuoted(s: string)
    ensures Text.ToLower(Quoted(s)) == Quoted(Text.ToLower(s))
  {
    if s != "" {
      LowerQuoted(s[1..]);
      LowerAppend(Quote(s[0]), Quoted(s[1..]));
      LowerQuote(s[0]);
      assert Text.ToLower(s)[1..] == Text.ToLower(s[1..]);
    }
  }

  lemma LowerQuote(c: char)
    ensures Text.ToLower(Quote(c)) == Quote(Text.FoldChar(c))
  {
    assert [c][1..] == "" && Text.ToLower("") == "";
    if Special(c) {
      assert ['\\', c][1..] == [c];
    }
  }

  lemma {:induction false} QuotedEmpty(s: string)
    ensures Quoted(s) == "" <==> s == ""
  {
  }

  /** A tag is selected exactly when it contains the filter text, ignoring case. */
  lemma TagFilterIsContainment(tag: string, filter: string)
    ensures TagSelected(tag, Escaped(filter)) <==> Contains(Text.ToLower(tag), Text.ToLower(filter))
  {
    ThreePassesAreOne(filter);
    QuotedEmpty(filter);
    if filter == "" {
      assert Text.ToLower(tag)[0..] == Text.ToLower(tag);
    } else {
      var p := "%" + Escaped(filter) + "%";
      LowerAppend("%" + Escaped(filter), "%");
      LowerAppend("%", Escaped(filter));
      LowerQuoted(filter);
      ThreePassesAreOne(Text.ToLower(filter));
      assert Text.ToLower("%") == "%";
      EscapedContainsMatches(Text.ToLower(tag), Text.ToLower(filter));
    }
  }

  // ---- Expired projects ----

  datatype ProjectTtl = ProjectTtl(project: string, expiresAt: Option<int>)

  predicate Expired(row: ProjectTtl, cutoff: int) {
    row.expiresAt.Some? && row.expiresAt.value < cutoff
  }

  predicate ExpiresBefore(a: ProjectTtl, b: ProjectTtl) {
    match (a.expiresAt, b.expiresAt)
    case (Some(x), Some(y)) => x < y
    case (Some(_), None) => true
    case (None, _) => false
  }

  function Selected(rows: seq<ProjectTtl>, pattern: string, cutoff: int): seq<ProjectTtl> {
    Filter(rows, (row: ProjectTtl) => Expired(row, cutoff) && Like(row.project, pattern))
  }

  function Listing(rows: seq<ProjectTtl>, prefix: string, cutoff: int, limit: int): seq<ProjectTtl> {
    var sorted := StableSort.Sort(Selected(rows, Escaped(prefix) + "%", cutoff), ExpiresBefore);
    if 0 < limit < |sorted| then sorted[..limit] else sorted
  }

  method ListExpiredProjects(rows: seq<ProjectTtl>, prefix: string, cutoff: int, limit: int)
      returns (projects: seq<string>)
    ensures var picked := Listing(rows, prefix, cutoff, limit);
            |projects| == |picked| && forall i :: 0 <= i < |picked| ==> projects[i] == picked[i].project
  {
    var escaped := EscapeLike(prefix);
    var picked := StableSort.Sort(Selected(rows, escaped + "%", cutoff), ExpiresBefore);
    if 0 < limit < |picked| {
      picked := picked[..limit];
    }
    projects := [];
    for i := 0 to |picked|
      invariant |projects| == i && forall j :: 0 <= j < i ==> projects[j] == picked[j].project
    {
      projects := projects + [picked[i].project];
    }
  }

  /** All of these rows expire before the cutoff, earliest first. */
  ghost predicate EarliestFirst(rows: seq<ProjectTtl>, cutoff: int) {
    && (forall r :: r in rows ==> r.expiresAt.Some? && r.expiresAt.value < cutoff)
    && (forall i, j :: 0 <= i < j < |rows| ==> NoLater(rows[i], rows[j]))
  }

  predicate NoLater(q: ProjectTtl, r: ProjectTtl) {
    q.expiresAt.Some? && r.expiresAt.Some? && q.expiresAt.value <= r.expiresAt.value
  }

  lemma TakeEarliest(sorted: seq<ProjectTtl>, n: nat, cutoff: int, q: ProjectTtl, r: ProjectTtl)
    requires n <= |sorted| && EarliestFirst(sorted, cutoff)
    requires q in sorted[..n] && r in sorted && r !in sorted[..n]
    ensures NoLater(q, r)
  {
    var i :| 0 <= i < n && sorted[i] == q;
    var j :| 0 <= j < |sorted| && sorted[j] == r;
  }

  lemma SortedSelection(rows: seq<ProjectTtl>, prefix: string, cutoff: int)
    ensures var sorted := StableSort.Sort(Selected(rows, Escaped(prefix) + "%", cutoff), ExpiresBefore);
            && EarliestFirst(sorted, cutoff)
            && forall r :: r in sorted <==> r in rows && r.expiresAt.Some? && r.expiresAt.value < cutoff && prefix <= r.project
  {
    var chosen := Selected(rows, Escaped(prefix) + "%", cutoff);
    var sorted := StableSort.Sort(chosen, ExpiresBefore);
    forall r ensures r in chosen <==> r in rows && Expired(r, cutoff) && prefix <= r.project {
      EscapedPrefixMatches(r.project, prefix);
    }
    StableSort.SortPermutes(chosen, ExpiresBefore);
    PermutationMembers(sorted, chosen);
    StableSort.SortOrders(chosen, ExpiresBefore);
    forall i, j | 0 <= i < j < |sorted| ensures NoLater(sorted[i], sorted[j]) {
      assert sorted[i] in chosen && sorted[j] in chosen && !ExpiresBefore(sorted[j], sorted[i]);
    }
  }

  /**
   * The listing holds only expired projects with the literal prefix, earliest first; it is
   * complete without a limit, and with one it omits nothing that expired before a listed row.
   */
  lemma ListingIsEarliestExpired(rows: seq<ProjectTtl>, prefix: string, cutoff: int, limit: int)
    ensures var picked := Listing(rows, prefix, cutoff, limit);
            && EarliestFirst(picked, cutoff)
            && (forall r :: r in picked ==> r in rows && prefix <= r.project)
            && (limit > 0 ==> |picked| <= limit)
            && (forall r :: r in rows && r.expiresAt.Some? && r.expiresAt.value < cutoff && prefix <= r.project
                            && r !in picked ==>
                  limit > 0 && |picked| == limit
                  && forall q :: q in picked ==> NoLater(q, r))
  {
    SortedSelection(rows, prefix, cutoff);
    var sorted := StableSort.Sort(Selected(rows, Escaped(prefix) + "%", cutoff), ExpiresBefore);
    var picked := Listing(rows, prefix, cutoff, limit);
    if 0 < limit < |sorted| {
      forall q, r | q in picked && r in sorted && r !in picked ensures NoLater(q, r) {
        TakeEarliest(sorted, limit, cutoff, q, r);
      }
    }
  }
}
