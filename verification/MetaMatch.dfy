// The glob matcher: gnu-efi/lib/str.c.

module Globs {
  import opened Units

  const STAR: Char16 := 0x2A
  const DASH: Char16 := 0x2D
  const QUESTION: Char16 := 0x3F
  const OPEN: Char16 := 0x5B
  const CLOSE: Char16 := 0x5D

  // The terminator of a string may be read, nothing behind it.
  function At(text: seq<Char16>, i: nat): Char16
    requires i <= |text|
  {
    if i < |text| then text[i] else 0
  }

  // ----- What a pattern means -----

  datatype Token = Run | One | Set(body: seq<Char16>) | Literal(c: Char16)

  function CloseAt(pattern: seq<Char16>): (i: nat)
    ensures i <= |pattern| && (i < |pattern| ==> pattern[i] == CLOSE)
    ensures forall j :: 0 <= j < i ==> pattern[j] != CLOSE
  {
    if pattern == [] || pattern[0] == CLOSE then 0 else 1 + CloseAt(pattern[1..])
  }

  // Every `[` has a `]` behind it.
  predicate Closed(pattern: seq<Char16>)
    decreases |pattern|
  {
    pattern == [] ||
    if pattern[0] == OPEN then
      var end := CloseAt(pattern[1..]);
      end + 1 < |pattern| && Closed(pattern[end + 2..])
    else
      Closed(pattern[1..])
  }

  function Tokens(pattern: seq<Char16>): seq<Token>
    requires Closed(pattern)
    decreases |pattern|
  {
    if pattern == [] then []
    else if pattern[0] == OPEN then
      var end := CloseAt(pattern[1..]);
      [Set(pattern[1..][..end])] + Tokens(pattern[end + 2..])
    else
      [if pattern[0] == STAR then Run else if pattern[0] == QUESTION then One else Literal(pattern[0])]
      + Tokens(pattern[1..])
  }

  // Position i of a set admits c: a character admits itself; a dash admits the range
  // between its neighbours (from zero at the start, nothing at the end), and itself
  // only right behind another dash.
  predicate AdmitsAt(body: seq<Char16>, i: nat, c: Char16)
    requires i < |body|
  {
    || (body[i] == c && (c != DASH || (i > 0 && body[i - 1] == DASH)))
    || (body[i] == DASH && i + 1 < |body| && (if i > 0 then body[i - 1] else 0) <= c <= body[i + 1])
  }

  predicate InSet(body: seq<Char16>, c: Char16) {
    exists i :: 0 <= i < |body| && AdmitsAt(body, i, c)
  }

  predicate Admits(token: Token, piece: seq<Char16>) {
    match token
    case Run => true
    case One => |piece| == 1
    case Set(body) => |piece| == 1 && InSet(body, piece[0])
    case Literal(c) => piece == [c]
  }

  function Flatten(pieces: seq<seq<Char16>>): seq<Char16> {
    if pieces == [] then [] else pieces[0] + Flatten(pieces[1..])
  }

  predicate Spells(tokens: seq<Token>, pieces: seq<seq<Char16>>) {
    |pieces| == |tokens| && forall i :: 0 <= i < |tokens| ==> Admits(tokens[i], pieces[i])
  }

  /** The language of a pattern: the strings that cut into one piece for each token. */
  ghost predicate Matches(text: seq<Char16>, tokens: seq<Token>) {
    exists pieces :: Spells(tokens, pieces) && Flatten(pieces) == text
  }

  // The head token takes the first k characters, the others the rest.
  ghost predicate HeadTakes(text: seq<Char16>, tokens: seq<Token>, k: nat)
    requires tokens != []
  {
    k <= |text| && Admits(tokens[0], text[..k]) && Matches(text[k..], tokens[1..])
  }

  lemma MatchesNothing(text: seq<Char16>)
    ensures Matches(text, []) <==> text == []
  {
    assert Spells([], []) && Flatten([]) == [];
  }

  lemma MatchesHead(text: seq<Char16>, tokens: seq<Token>)
    requires tokens != []
    ensures Matches(text, tokens) <==> exists k: nat :: HeadTakes(text, tokens, k)
  {
    if Matches(text, tokens) {
      var pieces :| Spells(tokens, pieces) && Flatten(pieces) == text;
      var k := |pieces[0]|;
      assert text[..k] == pieces[0] && text[k..] == Flatten(pieces[1..]);
      assert Spells(tokens[1..], pieces[1..]);
      assert HeadTakes(text, tokens, k);
    }
    if k: nat :| HeadTakes(text, tokens, k) {
      var rest :| Spells(tokens[1..], rest) && Flatten(rest) == text[k..];
      var pieces := [text[..k]] + rest;
      assert pieces[1..] == rest && text == text[..k] + text[k..];
      assert Spells(tokens, pieces);
    }
  }

  // A token other than `*` takes exactly one character.
  lemma MatchesOne(text: seq<Char16>, tokens: seq<Token>)
    requires tokens != [] && !tokens[0].Run?
    ensures Matches(text, tokens) <==> text != [] && Admits(tokens[0], [text[0]]) && Matches(text[1..], tokens[1..])
  {
    MatchesHead(text, tokens);
    if text != [] {
      assert text[..1] == [text[0]];
      assert HeadTakes(text, tokens, 1) <==> Admits(tokens[0], [text[0]]) && Matches(text[1..], tokens[1..]);
    }
    if k: nat :| HeadTakes(text, tokens, k) {
      assert |text[..k]| == 1;
    }
  }

  // The tail of a pattern from position p on.
  predicate ClosedFrom(pattern: seq<Char16>, p: nat)
    requires p <= |pattern|
  {
    Closed(pattern[p..])
  }

  ghost predicate Means(text: seq<Char16>, s: nat, pattern: seq<Char16>, p: nat)
    requires s <= |text| && p <= |pattern| && ClosedFrom(pattern, p)
  {
    Matches(text[s..], Tokens(pattern[p..]))
  }

  lemma MeansStar(text: seq<Char16>, s: nat, pattern: seq<Char16>, p: nat, next: nat)
    requires s <= |text| && p < |pattern| && ClosedFrom(pattern, p) && pattern[p] == STAR && next == p + 1
    ensures ClosedFrom(pattern, next)
    ensures Means(text, s, pattern, p) <==> exists j :: s <= j <= |text| && Means(text, j, pattern, next)
  {
    var tokens := Tokens(pattern[p..]);
    assert pattern[p..][1..] == pattern[p + 1..];
    assert tokens[1..] == Tokens(pattern[p + 1..]);
    MatchesHead(text[s..], tokens);
    if k: nat :| HeadTakes(text[s..], tokens, k) {
      assert text[s..][k..] == text[s + k..];
      var j := s + k;
      assert Means(text, j, pattern, next);
    }
    if j :| s <= j <= |text| && Means(text, j, pattern, next) {
      assert text[s..][j - s..] == text[j..];
      assert HeadTakes(text[s..], tokens, j - s);
    }
  }

  lemma MeansOne(text: seq<Char16>, s: nat, pattern: seq<Char16>, p: nat, after: nat, next: nat)
    requires after == s + 1 && next == p + 1
    requires s <= |text| && p < |pattern| && ClosedFrom(pattern, p) && pattern[p] != STAR && pattern[p] != OPEN
    ensures ClosedFrom(pattern, next)
    ensures Means(text, s, pattern, p) <==>
              s < |text| && (pattern[p] == QUESTION || text[s] == pattern[p]) && Means(text, after, pattern, next)
  {
    var tokens := Tokens(pattern[p..]);
    assert pattern[p..][1..] == pattern[p + 1..];
    assert tokens[1..] == Tokens(pattern[p + 1..]);
    MatchesOne(text[s..], tokens);
    if s < |text| {
      assert text[s..][1..] == text[s + 1..];
    }
  }

  lemma MeansSet(text: seq<Char16>, s: nat, pattern: seq<Char16>, p: nat, start: nat, end: nat, after: nat, next: nat)
    requires after == s + 1 && start == p + 1 && next == end + 1
    requires s <= |text| && p < |pattern| && ClosedFrom(pattern, p) && pattern[p] == OPEN
    requires end == start + CloseAt(pattern[start..])
    ensures end < |pattern| && pattern[end] == CLOSE && ClosedFrom(pattern, next)
    ensures forall j :: start <= j < end ==> pattern[j] != CLOSE
    ensures Means(text, s, pattern, p) <==>
              s < |text| && InSet(pattern[start..end], text[s]) && Means(text, after, pattern, next)
  {
    var tokens := Tokens(pattern[p..]);
    var i := CloseAt(pattern[p + 1..]);
    assert pattern[p..][1..] == pattern[p + 1..];
    assert pattern[p..][i + 2..] == pattern[end + 1..];
    assert pattern[p..][1..][..i] == pattern[p + 1..end];
    assert tokens[1..] == Tokens(pattern[end + 1..]);
    assert forall j :: p < j < end ==> pattern[j] == pattern[p + 1..][j - p - 1];
    MatchesOne(text[s..], tokens);
    if s < |text| {
      assert text[s..][1..] == text[s + 1..];
    }
  }

  // ----- The matcher -----

  /** MetaMatch on the string from s on and the pattern from p on. */
  method MetaMatch(text: seq<Char16>, s: nat, pattern: seq<Char16>, p: nat) returns (r: bool)
    requires IsText(text) && IsText(pattern) && s <= |text| && p <= |pattern| && ClosedFrom(pattern, p)
    ensures r <==> Means(text, s, pattern, p)
    decreases |pattern| - p, 0
  {
    var str, next := s, p;
    ghost var verdict := Means(text, s, pattern, p);
    while true
      invariant s <= str <= |text| && p <= next <= |pattern| && ClosedFrom(pattern, next)
      invariant verdict == Means(text, str, pattern, next)
      decreases |pattern| - next
    {
      var c := At(pattern, next);
      if c == 0 {
        MatchesNothing(text[str..]);
        return At(text, str) == 0;
      }
      next := next + 1;
      if c == STAR {
        MeansStar(text, str, pattern, next - 1, next);
        r := MatchRun(text, str, pattern, next);
        return;
      }
      var matched;
      matched, next := MatchOne(text, str, pattern, c, next);
      if !matched {
        return false;
      }
      str := str + 1;
    }
  }

  // The other cases of the switch: one character against `?`, a set or a literal c just read.
  method MatchOne(text: seq<Char16>, str: nat, pattern: seq<Char16>, c: Char16, p: nat) returns (matched: bool, next: nat)
    requires IsText(text) && IsText(pattern) && str <= |text| && 0 < p <= |pattern| && ClosedFrom(pattern, p - 1)
    requires c == pattern[p - 1] && c != STAR
    ensures p <= next <= |pattern| && (matched ==> str < |text| && ClosedFrom(pattern, next))
    ensures Means(text, str, pattern, p - 1) == (matched && Means(text, str + 1, pattern, next))
  {
    next := p;
    var unit := At(text, str);
    if c == OPEN {
      matched, next := MatchOneOf(text, str, pattern, p);
    } else {
      MeansOne(text, str, pattern, p - 1, str + 1, p);
      matched := if c == QUESTION then unit != 0 else unit == c;
    }
  }

  method MatchOneOf(text: seq<Char16>, str: nat, pattern: seq<Char16>, p: nat) returns (matched: bool, next: nat)
    requires IsText(text) && IsText(pattern) && str <= |text| && 0 < p <= |pattern| && ClosedFrom(pattern, p - 1)
    requires pattern[p - 1] == OPEN
    ensures p <= next <= |pattern| && (matched ==> str < |text| && ClosedFrom(pattern, next))
    ensures Means(text, str, pattern, p - 1) == (matched && Means(text, str + 1, pattern, next))
  {
    var unit := At(text, str);
    ghost var end, after := p + CloseAt(pattern[p..]), str + 1;
    ghost var behind := end + 1;
    MeansSet(text, str, pattern, p - 1, p, end, after, behind);
    if unit == 0 {
      assert str == |text|;
      return false, p;
    }
    matched, next := MatchSet(pattern, p, unit, end);
    assert matched ==> next == behind;
  }

  // The loop behind a `*`: any number of characters, then the rest of the pattern.
  method MatchRun(text: seq<Char16>, s: nat, pattern: seq<Char16>, p: nat) returns (r: bool)
    requires IsText(text) && IsText(pattern) && s <= |text| && p <= |pattern| && ClosedFrom(pattern, p)
    ensures r <==> exists j :: s <= j <= |text| && Means(text, j, pattern, p)
    decreases |pattern| - p, 1
  {
    var str := s;
    while At(text, str) != 0
      invariant s <= str <= |text|
      invariant forall j :: s <= j < str ==> !Means(text, j, pattern, p)
      decreases |text| - str
    {
      var found := MetaMatch(text, str, pattern, p);
      if found {
        return true;
      }
      str := str + 1;
    }
    r := MetaMatch(text, str, pattern, p);
  }

  // The set loop, behind a `[`: whether c is in the set, and the position behind its `]`.
  method MatchSet(pattern: seq<Char16>, start: nat, c: Char16, ghost end: nat) returns (matched: bool, next: nat)
    requires IsText(pattern) && start <= end < |pattern| && pattern[end] == CLOSE && c != 0
    requires forall j :: start <= j < end ==> pattern[j] != CLOSE
    ensures matched <==> InSet(pattern[start..end], c)
    ensures start <= next <= end + 1 && (matched ==> next == end + 1)
  {
    ghost var body := pattern[start..end];
    next := start;
    var l := 0;
    var p := 1;
    while true
      invariant start <= next <= end
      invariant pattern[next] == DASH ==> l == if next > start then pattern[next - 1] else 0
      invariant next > start && pattern[next - 1] == DASH ==> c != pattern[next]
      invariant forall i :: 0 <= i < next - start ==> !AdmitsAt(body, i, c)
      decreases end - next
    {
      p := At(pattern, next);
      next := next + 1;
      if p == CLOSE {
        return false, next;
      }
      if p == DASH {
        p := At(pattern, next);
        if p == 0 || p == CLOSE {
          return false, next;
        }
        if l <= c <= p {
          assert AdmitsAt(body, next - 1 - start, c);
          break;
        }
      }
      l := p;
      if c == p {
        assert AdmitsAt(body, next - 1 - start, c) || AdmitsAt(body, next - start, c);
        break;
      }
    }
    while p != 0 && p != CLOSE
      invariant next <= end + 1 && (p == CLOSE <==> next == end + 1) && p != 0
      decreases end + 1 - next
    {
      p := At(pattern, next);
      next := next + 1;
    }
    return true, next;
  }
}
