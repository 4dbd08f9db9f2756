/**
 * Splitting a long session into bounded windows, cut before a speaker's turn when one
 * starts in the second half of the window.
 */
module SessionWindows {
  import opened Basics
  import Text

  const ROLE_PREFIXES := ["user:", "human:", "assistant:", "system:", "tool:",
                          "[user]", "[human]", "[assistant]", "[system]", "[tool]"]

  predicate HasPrefix(s: string, p: string) {
    |p| <= |s| && s[..|p|] == p
  }

  /** A turn starts at position b of the window: a new line, then a role name in any case. */
  predicate TurnAt(runes: string, b: int) {
    && 0 < b < |runes| && runes[b - 1] == '\n'
    && exists k :: 0 <= k < |ROLE_PREFIXES| && HasPrefix(Text.ToLower(runes[b..]), ROLE_PREFIXES[k])
  }

  /** The last turn that starts inside the window, or 0. */
  method LastMessageBoundary(runes: string) returns (b: nat)
    ensures b == 0 || TurnAt(runes, b)
    ensures forall c :: b < c ==> !TurnAt(runes, c)
    ensures b == LastTurn(runes, |runes|)
  {
    var i := |runes| - 1;
    while i >= 0
      invariant -1 <= i < |runes|
      invariant forall c :: i + 1 < c ==> !TurnAt(runes, c)
      invariant LastTurn(runes, |runes|) == LastTurn(runes, i + 1)
      decreases i
    {
      if runes[i] == '\n' && i + 1 < |runes| {
        var nextLine := Text.ToLower(runes[i + 1..]);
        for k := 0 to |ROLE_PREFIXES|
          invariant forall j :: 0 <= j < k ==> !HasPrefix(nextLine, ROLE_PREFIXES[j])
        {
          if HasPrefix(nextLine, ROLE_PREFIXES[k]) {
            return i + 1;
          }
        }
      }
      i := i - 1;
    }
    return 0;
  }

  /** The largest turn start not above n, or 0. */
  function LastTurn(runes: string, n: nat): nat {
    if n == 0 then 0 else if TurnAt(runes, n) then n else LastTurn(runes, n - 1)
  }

  /** Where a text longer than a window is cut. */
  function Cut(runes: string, maxRunes: nat): nat
    requires maxRunes <= |runes|
  {
    var boundary := LastTurn(runes[..maxRunes], maxRunes);
    if boundary >= maxRunes / 2 then boundary else maxRunes
  }

  lemma {:induction false} LastTurnIsTurn(runes: string, n: nat)
    ensures LastTurn(runes, n) <= n
    ensures LastTurn(runes, n) == 0 || TurnAt(runes, LastTurn(runes, n))
    ensures forall c :: LastTurn(runes, n) < c <= n ==> !TurnAt(runes, c)
  {
    if n > 0 && !TurnAt(runes, n) {
      LastTurnIsTurn(runes, n - 1);
    }
  }

  /** A cut advances exactly when a window holds at least two runes. */
  lemma CutAdvancesIff(runes: string, maxRunes: nat)
    requires maxRunes < |runes|
    ensures Cut(runes, maxRunes) > 0 <==> maxRunes >= 2
    ensures Cut(runes, maxRunes) <= maxRunes && Cut(runes, maxRunes) >= maxRunes / 2
    ensures Cut(runes, maxRunes) == maxRunes || maxRunes < 2 || TurnAt(runes[..maxRunes], Cut(runes, maxRunes))
  {
    LastTurnIsTurn(runes[..maxRunes], maxRunes);
  }

  /** A window of the limit's size is cut at its last turn if that is in its second half, and not at all otherwise. */
  ghost predicate CutWell(window: string, end: nat) {
    if end < |window| then 2 * end + 1 >= |window| && TurnAt(window, end) && forall c :: end < c ==> !TurnAt(window, c)
    else forall c :: 2 * c + 1 >= |window| ==> !TurnAt(window, c)
  }

  lemma CutIsLastTurn(runes: string, maxRunes: nat)
    requires 2 <= maxRunes < |runes|
    ensures CutWell(runes[..maxRunes], Cut(runes, maxRunes))
  {
    var window := runes[..maxRunes];
    LastTurnIsTurn(window, maxRunes);
    assert forall c :: TurnAt(window, c) ==> c <= LastTurn(window, maxRunes) < maxRunes;
  }

  function Windows(runes: string, maxRunes: nat): seq<string>
    requires maxRunes >= 2 || |runes| <= maxRunes
    decreases |runes|
  {
    if |runes| <= maxRunes then [runes]
    else
      CutAdvancesIff(runes, maxRunes);
      var end := Cut(runes, maxRunes);
      [runes[..end]] + Windows(runes[end..], maxRunes)
  }

  /**
   * For longer texts the bound is exact: with a limit of one rune the source's loop cuts empty
   * windows for ever, and with zero it divides by zero before the loop.
   */
  method Split(text: string, maxRunes: nat) returns (windows: seq<string>)
    requires maxRunes >= 2 || |text| <= maxRunes
    ensures windows == Windows(text, maxRunes)
  {
    var runes := text;
    if |runes| <= maxRunes {
      return [text];
    }
    windows := [];
    while |runes| > maxRunes
      invariant windows + Windows(runes, maxRunes) == Windows(text, maxRunes)
      decreases |runes|
    {
      var end := maxRunes;
      var boundary := LastMessageBoundary(runes[..maxRunes]);
      if boundary >= maxRunes / 2 {
        end := boundary;
      }
      CutAdvancesIff(runes, maxRunes);
      assert end == Cut(runes, maxRunes);
      assert windows + ([runes[..end]] + Windows(runes[end..], maxRunes))
          == windows + [runes[..end]] + Windows(runes[end..], maxRunes);
      windows := windows + [runes[..end]];
      runes := runes[end..];
    }
    windows := windows + [runes];
  }

  function Concat(parts: seq<string>): string {
    if parts == [] then "" else parts[0] + Concat(parts[1..])
  }

  /**
   * The windows of a session concatenate to it, none exceeds the limit, and every window
   * but the last is at least half full.
   */
  lemma {:induction false} WindowsPartition(runes: string, maxRunes: nat)
    requires maxRunes >= 2
    ensures var ws := Windows(runes, maxRunes);
            && |ws| >= 1 && Concat(ws) == runes
            && (forall i :: 0 <= i < |ws| ==> |ws[i]| <= maxRunes)
            && (forall i :: 0 <= i < |ws| - 1 ==> |ws[i]| >= maxRunes / 2)
    decreases |runes|
  {
    if |runes| > maxRunes {
      CutAdvancesIff(runes, maxRunes);
      var end := Cut(runes, maxRunes);
      WindowsPartition(runes[end..], maxRunes);
      var rest := Windows(runes[end..], maxRunes);
      var ws := [runes[..end]] + rest;
      assert ws[1..] == rest;
    }
  }

  /** Half-full windows bound the number of model calls a session costs. */
  lemma {:induction false} WindowCountBounded(runes: string, maxRunes: nat)
    requires maxRunes >= 2
    ensures (|Windows(runes, maxRunes)| - 1) * (maxRunes / 2) <= |runes|
    decreases |runes|
  {
    if |runes| > maxRunes {
      CutAdvancesIff(runes, maxRunes);
      var end := Cut(runes, maxRunes);
      WindowCountBounded(runes[end..], maxRunes);
      OneMore(|Windows(runes[end..], maxRunes)| - 1, maxRunes / 2);
    }
  }

  lemma OneMore(n: int, h: int)
    ensures (n + 1) * h == n * h + h
  {
  }

  /**
   * Every window but the last takes the limit from what is left of the text, less what follows the
   * last turn that starts in its second half. So a shorter window ends just before a turn, the last
   * one the limit lets it see, and a full window has no turn in its second half.
   */
  lemma {:induction false} WindowsEndAtLastTurns(runes: string, maxRunes: nat, i: nat)
    requires maxRunes >= 2 && i + 1 < |Windows(runes, maxRunes)|
    ensures var ws := Windows(runes, maxRunes);
            var rest := Concat(ws[i..]);
            && |rest| > maxRunes && CutWell(rest[..maxRunes], |ws[i]|)
            && (|ws[i]| == maxRunes || TurnAt(rest, |ws[i]|))
    decreases |runes|
  {
    CutAdvancesIff(runes, maxRunes);
    var end := Cut(runes, maxRunes);
    var ws := Windows(runes, maxRunes);
    assert ws[1..] == Windows(runes[end..], maxRunes);
    if i == 0 {
      WindowsPartition(runes, maxRunes);
      assert ws[0..] == ws;
      CutIsLastTurn(runes, maxRunes);
      if end < maxRunes {
        TurnInLonger(runes, maxRunes, end);
      }
    } else {
      WindowsEndAtLastTurns(runes[end..], maxRunes, i - 1);
      assert ws[1..][i - 1..] == ws[i..];
    }
  }

  lemma {:induction false} LowerPrefix(s: string, n: nat)
    requires n <= |s|
    ensures |Text.ToLower(s)| == |s| && Text.ToLower(s)[..n] == Text.ToLower(s[..n])
  {
    if s != "" {
      LowerPrefix(s[1..], if n == 0 then 0 else n - 1);
      if n > 0 {
        assert s[..n][1..] == s[1..][..n - 1];
      }
    }
  }

  /** A turn seen inside a window is a turn of the whole text. */
  lemma TurnInLonger(runes: string, n: nat, b: nat)
    requires n <= |runes| && TurnAt(runes[..n], b)
    ensures TurnAt(runes, b)
  {
    var k :| 0 <= k < |ROLE_PREFIXES| && HasPrefix(Text.ToLower(runes[..n][b..]), ROLE_PREFIXES[k]);
    var p := ROLE_PREFIXES[k];
    LowerPrefix(runes[..n][b..], |runes[..n][b..]|);
    LowerPrefix(runes[..n][b..], |p|);
    LowerPrefix(runes[b..], |p|);
    assert runes[..n][b..][..|p|] == runes[b..][..|p|];
  }
}
