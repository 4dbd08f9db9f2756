/**
 * JSON texts as sections 2 to 7 of RFC 8259 lay them out, with white space where the
 * grammar allows it, and their exact recovery from surrounding prose.
 */
module JsonText {
  import opened Basics
  import opened JsonScan
  import Text

  /** A character of a JSON string as written: bare, a short escape, or \uXXXX. */
  datatype Piece = Bare(c: char) | Escape(c: char) | Unicode(hex: string)

  /** Scalars are numbers, true, false and null. Gaps are runs of white space. */
  datatype Value =
    | Scalar(text: string)
    | Str(pieces: seq<Piece>)
    | Arr(elements: Elements)
    | Obj(members: Members)

  datatype Elements =
    | NoElements(gap: string)
    | LastElement(before: string, value: Value, after: string)
    | NextElement(before: string, value: Value, after: string, rest: Elements)

  datatype Members =
    | NoMembers(gap: string)
    | LastMember(before: string, key: seq<Piece>, colon: string, value: Value, after: string)
    | NextMember(before: string, key: seq<Piece>, colon: string, value: Value, after: string, others: Members)

  // ---- Well-formed texts ----

  predicate Gap(s: string) {
    forall i :: 0 <= i < |s| ==> s[i] in " \t\n\r"
  }

  /** The characters of numbers and of the names true, false and null. */
  predicate ScalarText(s: string) {
    s != "" && forall i :: 0 <= i < |s| ==> '0' <= s[i] <= '9' || 'a' <= s[i] <= 'z' || s[i] in "+-.E"
  }

  /** A colon with white space around it. */
  predicate Colon(s: string) {
    exists i :: 0 <= i < |s| && s[i] == ':' && Gap(s[..i]) && Gap(s[i + 1..])
  }

  predicate Hex(c: char) {
    '0' <= c <= '9' || 'a' <= c <= 'f' || 'A' <= c <= 'F'
  }

  predicate PieceOk(p: Piece) {
    match p
    case Bare(c) => c >= ' ' && c != '"' && c != '\\'
    case Escape(c) => c in "\"\\/bfnrt"
    case Unicode(hex) => |hex| == 4 && forall i :: 0 <= i < 4 ==> Hex(hex[i])
  }

  predicate PiecesOk(ps: seq<Piece>) {
    forall i :: 0 <= i < |ps| ==> PieceOk(ps[i])
  }

  predicate ValueOk(v: Value) {
    match v
    case Scalar(text) => ScalarText(text)
    case Str(ps) => PiecesOk(ps)
    case Arr(es) => ElementsOk(es)
    case Obj(ms) => MembersOk(ms)
  }

  predicate ElementsOk(es: Elements) {
    match es
    case NoElements(gap) => Gap(gap)
    case LastElement(before, v, after) => Gap(before) && ValueOk(v) && Gap(after)
    case NextElement(before, v, after, rest) =>
      Gap(before) && ValueOk(v) && Gap(after) && !rest.NoElements? && ElementsOk(rest)
  }

  predicate MembersOk(ms: Members) {
    match ms
    case NoMembers(gap) => Gap(gap)
    case LastMember(before, key, colon, v, after) =>
      Gap(before) && PiecesOk(key) && Colon(colon) && ValueOk(v) && Gap(after)
    case NextMember(before, key, colon, v, after, others) =>
      && Gap(before) && PiecesOk(key) && Colon(colon) && ValueOk(v) && Gap(after)
      && !others.NoMembers? && MembersOk(others)
  }

  // ---- Printing ----

  function PrintPiece(p: Piece): string {
    match p
    case Bare(c) => [c]
    case Escape(c) => ['\\', c]
    case Unicode(hex) => "\\u" + hex
  }

  function PrintPieces(ps: seq<Piece>): string {
    if ps == [] then "" else PrintPiece(ps[0]) + PrintPieces(ps[1..])
  }

  function Print(v: Value): string {
    match v
    case Scalar(text) => text
    case Str(ps) => "\"" + PrintPieces(ps) + "\""
    case Arr(es) => "[" + PrintElements(es) + "]"
    case Obj(ms) => "{" + PrintMembers(ms) + "}"
  }

  function PrintElements(es: Elements): string {
    match es
    case NoElements(gap) => gap
    case LastElement(before, v, after) => before + (Print(v) + after)
    case NextElement(before, v, after, rest) => before + (Print(v) + (after + "," + PrintElements(rest)))
  }

  function PrintMembers(ms: Members): string {
    match ms
    case NoMembers(gap) => gap
    case LastMember(before, key, colon, v, after) =>
      before + ("\"" + PrintPieces(key) + "\"" + (colon + (Print(v) + after)))
    case NextMember(before, key, colon, v, after, others) =>
      before + ("\"" + PrintPieces(key) + "\"" + (colon + (Print(v) + (after + "," + PrintMembers(others)))))
  }

  // ---- A JSON text is balanced text ----

  function Plains(s: string, next: Forest): Forest {
    if s == "" then next else Plain(s[0], Plains(s[1..], next))
  }

  lemma {:induction false} PlainsFlat(s: string, next: Forest)
    ensures Flat(Plains(s, next)) == s + Flat(next)
    ensures WellFormed(next) && (forall i :: 0 <= i < |s| ==> Neutral(s[i])) ==> WellFormed(Plains(s, next))
  {
    if s != "" {
      PlainsFlat(s[1..], next);
      assert s == [s[0]] + s[1..];
    }
  }

  function ToForest(v: Value, next: Forest): Forest {
    match v
    case Scalar(text) => Plains(text, next)
    case Str(ps) => Literal(PrintPieces(ps), next)
    case Arr(es) => Group('[', ElementsForest(es), next)
    case Obj(ms) => Group('{', MembersForest(ms), next)
  }

  function ElementsForest(es: Elements): Forest {
    match es
    case NoElements(gap) => Plains(gap, End)
    case LastElement(before, v, after) => Plains(before, ToForest(v, Plains(after, End)))
    case NextElement(before, v, after, rest) =>
      Plains(before, ToForest(v, Plains(after + ",", ElementsForest(rest))))
  }

  function MembersForest(ms: Members): Forest {
    match ms
    case NoMembers(gap) => Plains(gap, End)
    case LastMember(before, key, colon, v, after) =>
      Plains(before, Literal(PrintPieces(key), Plains(colon, ToForest(v, Plains(after, End)))))
    case NextMember(before, key, colon, v, after, others) =>
      Plains(before, Literal(PrintPieces(key), Plains(colon, ToForest(v, Plains(after + ",", MembersForest(others))))))
  }

  lemma {:induction false} BodyAppend(s: string, t: string)
    requires LiteralBody(s) && LiteralBody(t)
    ensures LiteralBody(s + t)
    decreases |s|
  {
    if s == "" {
      assert s + t == t;
    } else if s[0] == '\\' {
      assert (s + t)[2..] == s[2..] + t;
      BodyAppend(s[2..], t);
    } else {
      assert (s + t)[1..] == s[1..] + t;
      BodyAppend(s[1..], t);
    }
  }

  lemma {:induction false} BareBody(s: string)
    requires forall i :: 0 <= i < |s| ==> s[i] != '"' && s[i] != '\\'
    ensures LiteralBody(s)
  {
    if s != "" {
      BareBody(s[1..]);
    }
  }

  lemma PieceBody(p: Piece)
    requires PieceOk(p)
    ensures LiteralBody(PrintPiece(p))
  {
    match p
    case Bare(c) =>
    case Escape(c) =>
      assert PrintPiece(p)[2..] == "";
    case Unicode(hex) =>
      BareBody(hex);
      assert PrintPiece(p)[2..] == hex;
  }

  /** A printed string never ends its literal early: its quotes and backslashes are escaped. */
  lemma {:induction false} PiecesBody(ps: seq<Piece>)
    requires PiecesOk(ps)
    ensures LiteralBody(PrintPieces(ps))
  {
    if ps != [] {
      PieceBody(ps[0]);
      PiecesBody(ps[1..]);
      BodyAppend(PrintPiece(ps[0]), PrintPieces(ps[1..]));
    }
  }

  lemma {:induction false} ForestPrints(v: Value, next: Forest)
    ensures Flat(ToForest(v, next)) == Print(v) + Flat(next)
    decreases v, 0
  {
    match v
    case Scalar(text) => PlainsFlat(text, next);
    case Str(ps) =>
    case Arr(es) => ElementsPrint(es);
    case Obj(ms) => MembersPrint(ms);
  }

  lemma {:induction false} ElementPrint(before: string, v: Value, tail: Forest)
    ensures Flat(Plains(before, ToForest(v, tail))) == before + (Print(v) + Flat(tail))
    decreases v, 1
  {
    ForestPrints(v, tail);
    PlainsFlat(before, ToForest(v, tail));
  }

  lemma {:induction false} ElementsPrint(es: Elements)
    ensures Flat(ElementsForest(es)) == PrintElements(es)
    decreases es, 0
  {
    match es
    case NoElements(gap) => PlainsFlat(gap, End);
    case LastElement(before, v, after) =>
      PlainsFlat(after, End);
      ElementPrint(before, v, Plains(after, End));
    case NextElement(before, v, after, rest) =>
      ElementsPrint(rest);
      PlainsFlat(after + ",", ElementsForest(rest));
      ElementPrint(before, v, Plains(after + ",", ElementsForest(rest)));
  }

  lemma {:induction false} MemberPrint(before: string, key: seq<Piece>, colon: string, v: Value, tail: Forest)
    ensures Flat(Plains(before, Literal(PrintPieces(key), Plains(colon, ToForest(v, tail)))))
            == before + ("\"" + PrintPieces(key) + "\"" + (colon + (Print(v) + Flat(tail))))
    decreases v, 1
  {
    ForestPrints(v, tail);
    PlainsFlat(colon, ToForest(v, tail));
    PlainsFlat(before, Literal(PrintPieces(key), Plains(colon, ToForest(v, tail))));
  }

  lemma {:induction false} MembersPrint(ms: Members)
    ensures Flat(MembersForest(ms)) == PrintMembers(ms)
    decreases ms, 0
  {
    match ms
    case NoMembers(gap) => PlainsFlat(gap, End);
    case LastMember(before, key, colon, v, after) =>
      PlainsFlat(after, End);
      MemberPrint(before, key, colon, v, Plains(after, End));
    case NextMember(before, key, colon, v, after, others) =>
      MembersPrint(others);
      PlainsFlat(after + ",", MembersForest(others));
      MemberPrint(before, key, colon, v, Plains(after + ",", MembersForest(others)));
  }

  lemma {:induction false} ForestOk(v: Value, next: Forest)
    requires ValueOk(v) && WellFormed(next)
    ensures WellFormed(ToForest(v, next))
    decreases v, 0
  {
    match v
    case Scalar(text) => PlainsFlat(text, next);
    case Str(ps) => PiecesBody(ps);
    case Arr(es) => ElementsForestOk(es);
    case Obj(ms) => MembersForestOk(ms);
  }

  lemma {:induction false} ElementForestOk(before: string, v: Value, tail: Forest)
    requires Gap(before) && ValueOk(v) && WellFormed(tail)
    ensures WellFormed(Plains(before, ToForest(v, tail)))
    decreases v, 1
  {
    ForestOk(v, tail);
    GapNeutral(before);
    PlainsFlat(before, ToForest(v, tail));
  }

  lemma GapNeutral(s: string)
    requires Gap(s)
    ensures forall i :: 0 <= i < |s| ==> Neutral(s[i])
    ensures forall i :: 0 <= i < |s + ","| ==> Neutral((s + ",")[i])
  {
  }

  lemma {:induction false} ElementsForestOk(es: Elements)
    requires ElementsOk(es)
    ensures WellFormed(ElementsForest(es))
    decreases es, 0
  {
    match es
    case NoElements(gap) =>
      GapNeutral(gap);
      PlainsFlat(gap, End);
    case LastElement(before, v, after) =>
      GapNeutral(after);
      PlainsFlat(after, End);
      ElementForestOk(before, v, Plains(after, End));
    case NextElement(before, v, after, rest) =>
      ElementsForestOk(rest);
      GapNeutral(after);
      PlainsFlat(after + ",", ElementsForest(rest));
      ElementForestOk(before, v, Plains(after + ",", ElementsForest(rest)));
  }

  lemma {:induction false} MemberForestOk(before: string, key: seq<Piece>, colon: string, v: Value, tail: Forest)
    requires Gap(before) && PiecesOk(key) && Colon(colon) && ValueOk(v) && WellFormed(tail)
    ensures WellFormed(Plains(before, Literal(PrintPieces(key), Plains(colon, ToForest(v, tail)))))
    decreases v, 1
  {
    ForestOk(v, tail);
    ColonNeutral(colon);
    PlainsFlat(colon, ToForest(v, tail));
    PiecesBody(key);
    GapNeutral(before);
    PlainsFlat(before, Literal(PrintPieces(key), Plains(colon, ToForest(v, tail))));
  }

  lemma ColonNeutral(s: string)
    requires Colon(s)
    ensures forall i :: 0 <= i < |s| ==> Neutral(s[i])
  {
    var k :| 0 <= k < |s| && s[k] == ':' && Gap(s[..k]) && Gap(s[k + 1..]);
    forall i | 0 <= i < |s| ensures Neutral(s[i]) {
      if i < k {
        assert s[i] == s[..k][i];
      } else if i > k {
        assert s[i] == s[k + 1..][i - k - 1];
      }
    }
  }

  lemma {:induction false} MembersForestOk(ms: Members)
    requires MembersOk(ms)
    ensures WellFormed(MembersForest(ms))
    decreases ms, 0
  {
    match ms
    case NoMembers(gap) =>
      GapNeutral(gap);
      PlainsFlat(gap, End);
    case LastMember(before, key, colon, v, after) =>
      GapNeutral(after);
      PlainsFlat(after, End);
      MemberForestOk(before, key, colon, v, Plains(after, End));
    case NextMember(before, key, colon, v, after, others) =>
      MembersForestOk(others);
      GapNeutral(after);
      PlainsFlat(after + ",", MembersForest(others));
      MemberForestOk(before, key, colon, v, Plains(after + ",", MembersForest(others)));
  }

  // ---- Recovery ----

  /** From the opening bracket of a printed array or object the scanner stops exactly at its end. */
  lemma ScanReadsValue(raw: string, start: nat, v: Value)
    requires (v.Arr? || v.Obj?) && ValueOk(v) && At(raw, start, Print(v))
    ensures Opens(Print(v)[0]) && Scan(raw, start, [], false, false) == Some(start + |Print(v)|)
    ensures Text.TrimSpace(Print(v)) == Print(v)
  {
    ForestPrints(v, End);
    ForestOk(v, End);
    var f := ToForest(v, End);
    assert Flat(f) == Print(v);
    ScanGroup(raw, start, f.open, f.inner, "", []);
  }

  lemma {:induction false} SkipsTo(raw: string, i: nat, start: nat, valid: string -> bool)
    requires i <= start <= |raw| && NoneUsable(raw, i, start, valid)
    ensures FirstBalanced(raw, i, valid) == FirstBalanced(raw, start, valid)
    decreases start - i
  {
    if i < start {
      UsableIff(raw, i, valid);
      SkipsTo(raw, i + 1, start, valid);
    }
  }

  /**
   * Embedded JSON is recovered exactly: after any prefix none of whose brackets starts a balanced
   * text that is valid, and before any trailing text, the answer is the printed array or object itself.
   */
  lemma EmbeddedValueRecovered(prefix: string, v: Value, trailer: string, valid: string -> bool)
    requires (v.Arr? || v.Obj?) && ValueOk(v) && valid(Print(v))
    requires NoneUsable(prefix + Print(v) + trailer, 0, |prefix|, valid)
    ensures FirstBalanced(prefix + Print(v) + trailer, 0, valid) == Some(Print(v))
  {
    var raw := prefix + Print(v) + trailer;
    var start := |prefix|;
    assert At(raw, start, Print(v));
    ScanReadsValue(raw, start, v);
    assert raw[start] == Print(v)[0];
    SkipsTo(raw, 0, start, valid);
  }

  /** A prefix without an opening bracket is such a prefix. */
  lemma NoBracketNoneUsable(prefix: string, rest: string, valid: string -> bool)
    requires forall k :: 0 <= k < |prefix| ==> !Opens(prefix[k])
    ensures NoneUsable(prefix + rest, 0, |prefix|, valid)
  {
    forall k | 0 <= k < |prefix| ensures !Usable(prefix + rest, k, valid) {
      assert (prefix + rest)[k] == prefix[k];
    }
  }
}
