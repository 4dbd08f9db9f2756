/**
 * Recovering an embedded JSON value from model output: a bracket scanner with string
 * and escape state, specified against the grammar of text balanced outside strings.
 */
module JsonScan {
  import opened Basics
  import Text

  // ---- The scanner ----

  predicate Opens(c: char) {
    c == '[' || c == '{'
  }

  predicate Closes(c: char) {
    c == ']' || c == '}'
  }

  function Closer(c: char): char {
    if c == '[' then ']' else '}'
  }

  /** The end of the value the scanner accepts from position i on, given its stack and flags. */
  function Scan(raw: string, i: nat, stack: seq<char>, inString: bool, escaped: bool): Option<nat>
    decreases |raw| - i
  {
    if i >= |raw| then None
    else
      var c := raw[i];
      if inString then
        if escaped then Scan(raw, i + 1, stack, true, false)
        else if c == '\\' then Scan(raw, i + 1, stack, true, true)
        else Scan(raw, i + 1, stack, c != '"', false)
      else if c == '"' then Scan(raw, i + 1, stack, true, false)
      else if Opens(c) then Scan(raw, i + 1, stack + [Closer(c)], false, false)
      else if Closes(c) then
        if stack == [] || c != stack[|stack| - 1] then None
        else if |stack| == 1 then Some(i + 1)
        else Scan(raw, i + 1, stack[..|stack| - 1], false, false)
      else Scan(raw, i + 1, stack, false, false)
  }

  method BalancedJsonFrom(raw: string, start: nat) returns (r: Option<string>)
    ensures match Scan(raw, start, [], false, false)
            case None => r == None
            case Some(end) => start < end <= |raw| && r == Some(Text.TrimSpace(raw[start..end]))
  {
    var stack: seq<char> := [];
    var inString, escaped := false, false;
    for i := start to Max(start, |raw|)
      invariant !inString ==> !escaped
      invariant Scan(raw, i, stack, inString, escaped) == Scan(raw, start, [], false, false)
    {
      var c := raw[i];
      if inString {
        if escaped {
          escaped := false;
          continue;
        }
        if c == '\\' {
          escaped := true;
        } else if c == '"' {
          inString := false;
        }
        continue;
      }
      if c == '"' {
        inString := true;
      } else if Opens(c) {
        stack := stack + [Closer(c)];
      } else if Closes(c) {
        if |stack| == 0 || c != stack[|stack| - 1] {
          return None;
        }
        stack := stack[..|stack| - 1];
        if |stack| == 0 {
          return Some(Text.TrimSpace(raw[start..i + 1]));
        }
      }
    }
    return None;
  }

  /** The first bracketed text that `valid` accepts as JSON. */
  function FirstBalanced(raw: string, start: nat, valid: string -> bool): Option<string>
    decreases |raw| - start
  {
    if start >= |raw| then None
    else if !Opens(raw[start]) then FirstBalanced(raw, start + 1, valid)
    else
      match Scan(raw, start, [], false, false)
      case Some(end) =>
        if start <= end <= |raw| && valid(Text.TrimSpace(raw[start..end]))
        then Some(Text.TrimSpace(raw[start..end]))
        else FirstBalanced(raw, start + 1, valid)
      case None => FirstBalanced(raw, start + 1, valid)
  }

  /**
   * The answer is the shortest balanced text at the first opening bracket where that text is valid
   * JSON, brackets without such a text being passed over; there is none if no bracket has one.
   */
  method FirstBalancedJson(raw: string, valid: string -> bool) returns (r: Option<string>)
    ensures r == FirstBalanced(raw, 0, valid)
    ensures r.Some? <==> exists start: nat :: Usable(raw, start, valid)
    ensures r.Some? ==> exists start: nat, end: nat ::
              FirstUsable(raw, start, end, valid) && r.value == Text.TrimSpace(raw[start..end])
  {
    FirstBalancedIsFirst(raw, valid);
    for start := 0 to |raw|
      invariant FirstBalanced(raw, start, valid) == FirstBalanced(raw, 0, valid)
    {
      if !Opens(raw[start]) {
        continue;
      }
      var text := BalancedJsonFrom(raw, start);
      if text.Some? && valid(text.value) {
        return text;
      }
    }
    return None;
  }

  // ---- Text balanced outside string literals ----

  /** What stands between two quotes: escapes come in pairs and no bare quote occurs. */
  predicate LiteralBody(s: string) {
    if s == "" then true
    else if s[0] == '\\' then |s| >= 2 && LiteralBody(s[2..])
    else s[0] != '"' && LiteralBody(s[1..])
  }

  predicate Neutral(c: char) {
    c != '"' && !Opens(c) && !Closes(c)
  }

  /** Balanced text: neutral characters, string literals and matching bracket groups. */
  datatype Forest =
    | End
    | Plain(c: char, next: Forest)
    | Literal(body: string, next: Forest)
    | Group(open: char, inner: Forest, next: Forest)

  predicate WellFormed(f: Forest) {
    match f
    case End => true
    case Plain(c, next) => Neutral(c) && WellFormed(next)
    case Literal(body, next) => LiteralBody(body) && WellFormed(next)
    case Group(open, inner, next) => Opens(open) && WellFormed(inner) && WellFormed(next)
  }

  function Flat(f: Forest): string {
    match f
    case End => ""
    case Plain(c, next) => [c] + Flat(next)
    case Literal(body, next) => "\"" + body + "\"" + Flat(next)
    case Group(open, inner, next) => [open] + Flat(inner) + [Closer(open)] + Flat(next)
  }

  predicate HasGroup(f: Forest) {
    match f
    case End => false
    case Plain(_, next) => HasGroup(next)
    case Literal(_, next) => HasGroup(next)
    case Group(_, _, _) => true
  }

  /** Balanced outside string literals, with at least one bracket group. */
  ghost predicate Balanced(s: string) {
    exists f :: WellFormed(f) && HasGroup(f) && Flat(f) == s
  }

  /** `s` stands in `raw` at position i. */
  predicate At(raw: string, i: nat, s: string) {
    i + |s| <= |raw| && raw[i..i + |s|] == s
  }

  lemma AtSplit(raw: string, i: nat, s: string, t: string)
    requires At(raw, i, s + t)
    ensures At(raw, i, s) && At(raw, i + |s|, t)
  {
    assert raw[i..i + |s + t|][..|s|] == s;
    assert raw[i..i + |s + t|][|s|..] == t;
  }

  lemma AtHead(raw: string, i: nat, c: char, t: string)
    requires At(raw, i, [c] + t)
    ensures i < |raw| && raw[i] == c && At(raw, i + 1, t)
  {
    AtSplit(raw, i, [c], t);
    assert raw[i] == raw[i..i + 1][0];
  }

  // ---- The scanner runs through balanced text ----

  lemma {:induction false} ScanLiteral(raw: string, i: nat, body: string, stack: seq<char>)
    requires LiteralBody(body) && At(raw, i, body + "\"")
    ensures Scan(raw, i, stack, true, false) == Scan(raw, i + |body| + 1, stack, false, false)
    decreases |body|
  {
    if body == "" {
      AtHead(raw, i, '"', "");
    } else if body[0] == '\\' {
      assert body + "\"" == [body[0]] + ([body[1]] + (body[2..] + "\""));
      AtHead(raw, i, body[0], [body[1]] + (body[2..] + "\""));
      AtHead(raw, i + 1, body[1], body[2..] + "\"");
      ScanLiteral(raw, i + 2, body[2..], stack);
    } else {
      assert body + "\"" == [body[0]] + (body[1..] + "\"");
      AtHead(raw, i, body[0], body[1..] + "\"");
      ScanLiteral(raw, i + 1, body[1..], stack);
    }
  }

  /** A string literal is skipped whole. */
  lemma ScanQuoted(raw: string, i: nat, body: string, rest: string, stack: seq<char>)
    requires LiteralBody(body) && At(raw, i, "\"" + body + "\"" + rest)
    ensures At(raw, i + |body| + 2, rest)
    ensures Scan(raw, i, stack, false, false) == Scan(raw, i + |body| + 2, stack, false, false)
  {
    assert "\"" + body + "\"" + rest == ['"'] + ((body + "\"") + rest);
    AtHead(raw, i, '"', (body + "\"") + rest);
    AtSplit(raw, i + 1, body + "\"", rest);
    ScanLiteral(raw, i + 1, body, stack);
  }

  lemma ScanPlain(raw: string, i: nat, c: char, rest: string, stack: seq<char>)
    requires Neutral(c) && At(raw, i, [c] + rest)
    ensures At(raw, i + 1, rest)
    ensures Scan(raw, i, stack, false, false) == Scan(raw, i + 1, stack, false, false)
  {
    AtHead(raw, i, c, rest);
  }

  lemma FlatLength(f: Forest)
    ensures f.Plain? ==> |Flat(f)| == 1 + |Flat(f.next)|
    ensures f.Literal? ==> |Flat(f)| == |f.body| + 2 + |Flat(f.next)|
    ensures f.Group? ==> |Flat(f)| == |Flat(f.inner)| + 2 + |Flat(f.next)|
  {
  }

  /** Inside a group the scanner passes balanced text with its stack unchanged. */
  lemma {:induction false} ScanForest(raw: string, i: nat, f: Forest, stack: seq<char>)
    requires WellFormed(f) && At(raw, i, Flat(f)) && stack != []
    ensures Scan(raw, i, stack, false, false) == Scan(raw, i + |Flat(f)|, stack, false, false)
    decreases f, 0
  {
    FlatLength(f);
    match f
    case End =>
    case Plain(c, next) =>
      ScanPlain(raw, i, c, Flat(next), stack);
      ScanForest(raw, i + 1, next, stack);
    case Literal(body, next) =>
      ScanQuoted(raw, i, body, Flat(next), stack);
      ScanForest(raw, i + |body| + 2, next, stack);
    case Group(open, inner, next) =>
      ScanGroup(raw, i, open, inner, Flat(next), stack);
      ScanForest(raw, i + |Flat(inner)| + 2, next, stack);
  }

  lemma AtGroup(raw: string, i: nat, open: char, inner: string, close: char, rest: string)
    requires At(raw, i, [open] + inner + [close] + rest)
    ensures i < |raw| && raw[i] == open && At(raw, i + 1, inner)
    ensures i + 1 + |inner| < |raw| && raw[i + 1 + |inner|] == close && At(raw, i + |inner| + 2, rest)
  {
    assert [open] + inner + [close] + rest == [open] + (inner + ([close] + rest));
    AtHead(raw, i, open, inner + ([close] + rest));
    AtSplit(raw, i + 1, inner, [close] + rest);
    AtHead(raw, i + 1 + |inner|, close, rest);
  }

  /** A group pushes its closer, and its closing bracket pops it again. */
  lemma {:induction false} ScanGroup(raw: string, i: nat, open: char, inner: Forest, rest: string, stack: seq<char>)
    requires Opens(open) && WellFormed(inner) && At(raw, i, [open] + Flat(inner) + [Closer(open)] + rest)
    ensures At(raw, i + |Flat(inner)| + 2, rest)
    ensures stack != [] ==>
              Scan(raw, i, stack, false, false) == Scan(raw, i + |Flat(inner)| + 2, stack, false, false)
    ensures stack == [] ==> Scan(raw, i, stack, false, false) == Some(i + |Flat(inner)| + 2)
    decreases inner, 1
  {
    AtGroup(raw, i, open, Flat(inner), Closer(open), rest);
    ScanForest(raw, i + 1, inner, stack + [Closer(open)]);
    assert (stack + [Closer(open)])[..|stack|] == stack;
  }

  /** From an empty stack the scanner stops at the end of the first group. */
  lemma {:induction false} ScanStopsWithin(raw: string, i: nat, f: Forest)
    requires WellFormed(f) && HasGroup(f) && At(raw, i, Flat(f))
    ensures Scan(raw, i, [], false, false).Some?
    ensures i < Scan(raw, i, [], false, false).value <= i + |Flat(f)|
    decreases f
  {
    match f
    case Plain(c, next) =>
      ScanPlain(raw, i, c, Flat(next), []);
      ScanStopsWithin(raw, i + 1, next);
    case Literal(body, next) =>
      ScanQuoted(raw, i, body, Flat(next), []);
      ScanStopsWithin(raw, i + |body| + 2, next);
    case Group(open, inner, next) =>
      ScanGroup(raw, i, open, inner, Flat(next), []);
  }

  // ---- What the scanner accepts is balanced ----

  lemma {:induction false} LiteralFrom(raw: string, i: nat, stack: seq<char>, e: nat) returns (k: nat)
    requires Scan(raw, i, stack, true, false) == Some(e)
    ensures i <= k < |raw| && raw[k] == '"' && LiteralBody(raw[i..k])
    ensures Scan(raw, k + 1, stack, false, false) == Some(e)
    decreases |raw| - i
  {
    if raw[i] == '\\' {
      k := LiteralFrom(raw, i + 2, stack, e);
      assert raw[i..k][2..] == raw[i + 2..k];
    } else if raw[i] == '"' {
      k := i;
    } else {
      k := LiteralFrom(raw, i + 1, stack, e);
      assert raw[i..k][1..] == raw[i + 1..k];
    }
  }

  lemma SlicePlain(raw: string, i: nat, j: nat, next: Forest)
    requires i < j <= |raw| && raw[i + 1..j] == Flat(next)
    ensures raw[i..j] == Flat(Plain(raw[i], next))
  {
  }

  lemma SliceAround(raw: string, i: nat, k: nat, j: nat)
    requires i < k < j <= |raw|
    ensures raw[i..j] == [raw[i]] + raw[i + 1..k] + [raw[k]] + raw[k + 1..j]
  {
    assert raw[i..j] == raw[i..k] + raw[k..j];
    assert raw[i..k] == [raw[i]] + raw[i + 1..k];
    assert raw[k..j] == [raw[k]] + raw[k + 1..j];
  }

  lemma SliceLiteral(raw: string, i: nat, k: nat, j: nat, next: Forest)
    requires i < k < j <= |raw| && raw[i] == '"' && raw[k] == '"' && raw[k + 1..j] == Flat(next)
    ensures raw[i..j] == Flat(Literal(raw[i + 1..k], next))
  {
    SliceAround(raw, i, k, j);
  }

  lemma SliceGroup(raw: string, i: nat, m: nat, j: nat, inner: Forest, next: Forest)
    requires i < m < j <= |raw| && raw[m] == Closer(raw[i]) && raw[i + 1..m] == Flat(inner) && raw[m + 1..j] == Flat(next)
    ensures raw[i..j] == Flat(Group(raw[i], inner, next))
  {
    SliceAround(raw, i, m, j);
  }

  /** An accepted scan inside a group reads balanced text up to that group's closing bracket. */
  lemma {:induction false} ForestFrom(raw: string, i: nat, stack: seq<char>, e: nat) returns (f: Forest, j: nat)
    requires stack != [] && Scan(raw, i, stack, false, false) == Some(e)
    ensures i <= j < |raw| && WellFormed(f) && raw[i..j] == Flat(f)
    ensures raw[j] == stack[|stack| - 1] && Closes(raw[j])
    ensures if |stack| == 1 then e == j + 1 else Scan(raw, j + 1, stack[..|stack| - 1], false, false) == Some(e)
    decreases |raw| - i
  {
    var c := raw[i];
    var next;
    if c == '"' {
      var k := LiteralFrom(raw, i + 1, stack, e);
      next, j := ForestFrom(raw, k + 1, stack, e);
      f := Literal(raw[i + 1..k], next);
      SliceLiteral(raw, i, k, j, next);
    } else if Opens(c) {
      var inner, m := ForestFrom(raw, i + 1, stack + [Closer(c)], e);
      assert (stack + [Closer(c)])[..|stack|] == stack;
      next, j := ForestFrom(raw, m + 1, stack, e);
      f := Group(c, inner, next);
      SliceGroup(raw, i, m, j, inner, next);
    } else if Closes(c) {
      f, j := End, i;
    } else {
      next, j := ForestFrom(raw, i + 1, stack, e);
      f := Plain(c, next);
      SlicePlain(raw, i, j, next);
    }
  }

  lemma {:induction false} AcceptedIsBalanced(raw: string, i: nat, e: nat) returns (f: Forest)
    requires Scan(raw, i, [], false, false) == Some(e)
    ensures i < e <= |raw| && WellFormed(f) && HasGroup(f) && raw[i..e] == Flat(f)
    decreases |raw| - i
  {
    var c := raw[i];
    if c == '"' {
      var k := LiteralFrom(raw, i + 1, [], e);
      var next := AcceptedIsBalanced(raw, k + 1, e);
      f := Literal(raw[i + 1..k], next);
      SliceLiteral(raw, i, k, e, next);
    } else if Opens(c) {
      assert [] + [Closer(c)] == [Closer(c)];
      var inner, m := ForestFrom(raw, i + 1, [Closer(c)], e);
      f := Group(c, inner, End);
      assert raw[e..e] == Flat(End);
      SliceGroup(raw, i, m, e, inner, End);
    } else {
      var next := AcceptedIsBalanced(raw, i + 1, e);
      f := Plain(c, next);
      SlicePlain(raw, i, e, next);
    }
  }

  /**
   * The scanner succeeds exactly when some prefix from the start is balanced outside
   * string literals, and then it stops at the shortest such prefix.
   */
  lemma ScanFindsShortestBalanced(raw: string, start: nat)
    requires start <= |raw|
    ensures Scan(raw, start, [], false, false).Some? <==> exists e :: start <= e <= |raw| && Balanced(raw[start..e])
    ensures match Scan(raw, start, [], false, false)
            case None => true
            case Some(e) =>
              && start < e <= |raw| && Balanced(raw[start..e])
              && forall k :: start <= k < e ==> !Balanced(raw[start..k])
  {
    var r := Scan(raw, start, [], false, false);
    if r.Some? {
      var f := AcceptedIsBalanced(raw, start, r.value);
      assert Balanced(raw[start..r.value]);
    }
    forall k | start <= k <= |raw| && Balanced(raw[start..k]) ensures r.Some? && r.value <= k {
      var f :| WellFormed(f) && HasGroup(f) && Flat(f) == raw[start..k];
      ScanStopsWithin(raw, start, f);
    }
  }

  // ---- The first bracket that works out ----

  /** The shortest balanced text from the opening bracket at `start` ends at `end`. */
  ghost predicate Shortest(raw: string, start: nat, end: nat) {
    && start < end <= |raw| && Opens(raw[start]) && Balanced(raw[start..end])
    && forall k :: start <= k < end ==> !Balanced(raw[start..k])
  }

  ghost predicate UsableTo(raw: string, start: nat, end: nat, valid: string -> bool) {
    Shortest(raw, start, end) && valid(Text.TrimSpace(raw[start..end]))
  }

  /** An opening bracket whose shortest balanced text is valid JSON. */
  ghost predicate Usable(raw: string, start: nat, valid: string -> bool) {
    exists end: nat :: UsableTo(raw, start, end, valid)
  }

  ghost predicate NoneUsable(raw: string, from: nat, to: nat, valid: string -> bool) {
    forall k :: from <= k < to ==> !Usable(raw, k, valid)
  }

  ghost predicate FirstUsable(raw: string, start: nat, end: nat, valid: string -> bool) {
    UsableTo(raw, start, end, valid) && NoneUsable(raw, 0, start, valid)
  }

  /** What the scanner says about a bracket is what the grammar says. */
  lemma UsableIff(raw: string, start: nat, valid: string -> bool)
    requires start < |raw|
    ensures match Scan(raw, start, [], false, false)
            case None => !Usable(raw, start, valid)
            case Some(e) =>
              && start < e <= |raw|
              && (Usable(raw, start, valid) <==> UsableTo(raw, start, e, valid))
              && (UsableTo(raw, start, e, valid) <==> Opens(raw[start]) && valid(Text.TrimSpace(raw[start..e])))
  {
    ScanFindsShortestBalanced(raw, start);
    var r := Scan(raw, start, [], false, false);
    if end: nat :| UsableTo(raw, start, end, valid) {
      assert r.Some?;
      assert Balanced(raw[start..end]);
    }
  }

  /** The search from `start` on. */
  ghost predicate Answers(raw: string, start: nat, valid: string -> bool, r: Option<string>) {
    match r
    case None => NoneUsable(raw, start, |raw|, valid)
    case Some(text) =>
      exists at: nat, end: nat :: start <= at && UsableTo(raw, at, end, valid) && NoneUsable(raw, start, at, valid)
                        && text == Text.TrimSpace(raw[at..end])
  }

  lemma {:induction false} SearchAnswers(raw: string, start: nat, valid: string -> bool)
    ensures Answers(raw, start, valid, FirstBalanced(raw, start, valid))
    decreases |raw| - start
  {
    if start < |raw| {
      UsableIff(raw, start, valid);
      var e := Scan(raw, start, [], false, false);
      if Usable(raw, start, valid) {
        assert UsableTo(raw, start, e.value, valid) && NoneUsable(raw, start, start, valid);
      } else {
        SearchAnswers(raw, start + 1, valid);
        SearchGoesOn(raw, start, valid, FirstBalanced(raw, start + 1, valid));
      }
    }
  }

  lemma SearchGoesOn(raw: string, start: nat, valid: string -> bool, r: Option<string>)
    requires Answers(raw, start + 1, valid, r) && !Usable(raw, start, valid)
    ensures Answers(raw, start, valid, r)
  {
    if r.Some? {
      var at: nat, end: nat :| start + 1 <= at && UsableTo(raw, at, end, valid) && NoneUsable(raw, start + 1, at, valid)
                     && r.value == Text.TrimSpace(raw[at..end]);
      assert NoneUsable(raw, start, at, valid);
    }
  }

  lemma FirstBalancedIsFirst(raw: string, valid: string -> bool)
    ensures var r := FirstBalanced(raw, 0, valid);
            && (r.Some? <==> exists start: nat :: Usable(raw, start, valid))
            && (r.Some? ==> exists start: nat, end: nat ::
                  FirstUsable(raw, start, end, valid) && r.value == Text.TrimSpace(raw[start..end]))
  {
    SearchAnswers(raw, 0, valid);
    var r := FirstBalanced(raw, 0, valid);
    if r.Some? {
      var at: nat, end: nat :| 0 <= at && UsableTo(raw, at, end, valid) && NoneUsable(raw, 0, at, valid)
                     && r.value == Text.TrimSpace(raw[at..end]);
      assert FirstUsable(raw, at, end, valid) && Usable(raw, at, valid);
    }
  }
}
