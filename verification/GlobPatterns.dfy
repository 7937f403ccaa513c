// What the kinds of patterns match: gnu-efi/lib/str.c, MetaMatch.

module GlobPatterns {
  import opened Units
  import opened Globs

  // A character that stands for itself in a pattern.
  predicate IsPlain(c: Char16) {
    c != 0x2A && c != 0x3F && c != 0x5B
  }

  lemma OneToken(text: seq<Char16>, first: seq<Char16>, rest: seq<Char16>)
    requires |first| == 1 && first[0] != OPEN && first[0] != STAR && Closed(rest)
    ensures Closed(first + rest)
    ensures Matches(text, Tokens(first + rest)) <==>
              text != [] && (first[0] == 0x3F || text[0] == first[0]) && Matches(text[1..], Tokens(rest))
  {
    assert (first + rest)[1..] == rest;
    MatchesOne(text, Tokens(first + rest));
  }

  /** Plain characters match themselves, and the rest of the pattern what follows them. */
  lemma {:induction false} PlainPattern(plain: seq<Char16>, rest: seq<Char16>, text: seq<Char16>)
    requires (forall i :: 0 <= i < |plain| ==> IsPlain(plain[i])) && Closed(rest)
    ensures Closed(plain + rest)
    ensures Matches(text, Tokens(plain + rest)) <==>
              |plain| <= |text| && text[..|plain|] == plain && Matches(text[|plain|..], Tokens(rest))
    decreases |plain|
  {
    if plain == [] {
      assert plain + rest == rest && text[0..] == text && text[..0] == [];
    } else {
      assert plain + rest == [plain[0]] + (plain[1..] + rest);
      PlainPattern(plain[1..], rest, if text == [] then [] else text[1..]);
      OneToken(text, [plain[0]], plain[1..] + rest);
      if text != [] && |plain| <= |text| {
        assert text[1..][|plain| - 1..] == text[|plain|..];
        assert text[..|plain|] == [text[0]] + text[1..][..|plain| - 1];
        assert plain == [plain[0]] + plain[1..];
      }
    }
  }

  /** A question mark matches any one character, a star anything. */
  lemma WildPatterns(text: seq<Char16>)
    ensures Closed([0x3F]) && (Matches(text, Tokens([0x3F])) <==> |text| == 1)
    ensures Closed([0x2A]) && Matches(text, Tokens([0x2A]))
  {
    assert [0x3F] + [] == [0x3F] && Tokens([]) == [];
    OneToken(text, [0x3F], []);
    if text != [] {
      MatchesNothing(text[1..]);
    }
    assert [0x2A][1..] == [] && Tokens([0x2A]) == [Run] + [];
    MatchesNothing(text[|text|..]);
    MatchesHead(text, [Run]);
    assert HeadTakes(text, [Run], |text|);
  }

  // A set with nothing behind it.
  lemma SetAlone(body: seq<Char16>, text: seq<Char16>, pattern: seq<Char16>)
    requires (forall i :: 0 <= i < |body| ==> body[i] != CLOSE) && pattern == [OPEN] + body + [CLOSE]
    ensures Closed(pattern)
    ensures Matches(text, Tokens(pattern)) <==> |text| == 1 && InSet(body, text[0])
  {
    SetCloses(body);
    assert pattern[1..] == body + [CLOSE];
    assert pattern[|body| + 2..] == [] && (body + [CLOSE])[..|body|] == body;
    assert Tokens(pattern) == [Set(body)] + Tokens([]);
    assert [Set(body)][1..] == [] && Tokens(pattern) == [Set(body)];
    MatchesOne(text, [Set(body)]);
    if text != [] {
      MatchesNothing(text[1..]);
    }
  }

  lemma {:induction false} SetCloses(body: seq<Char16>)
    requires forall i :: 0 <= i < |body| ==> body[i] != CLOSE
    ensures CloseAt(body + [CLOSE]) == |body|
    decreases |body|
  {
    if body != [] {
      assert (body + [CLOSE])[1..] == body[1..] + [CLOSE];
      SetCloses(body[1..]);
    }
  }

  /** A set of characters without a dash matches any one of them. */
  lemma SetPattern(body: seq<Char16>, text: seq<Char16>)
    requires forall i :: 0 <= i < |body| ==> body[i] != 0x5D && body[i] != 0x2D
    ensures Closed([0x5B] + body + [0x5D])
    ensures Matches(text, Tokens([0x5B] + body + [0x5D])) <==> |text| == 1 && text[0] in body
  {
    SetAlone(body, text, [0x5B] + body + [0x5D]);
    if |text| == 1 && text[0] in body {
      var i :| 0 <= i < |body| && body[i] == text[0];
      assert AdmitsAt(body, i, text[0]);
    }
  }

  /** A range matches any one character from its low to its high end; its ends match also where they are exchanged. */
  lemma RangePattern(low: Char16, high: Char16, text: seq<Char16>)
    requires low != 0x2D && high != 0x2D && low != 0x5D && high != 0x5D
    ensures Closed([0x5B, low, 0x2D, high, 0x5D])
    ensures Matches(text, Tokens([0x5B, low, 0x2D, high, 0x5D])) <==>
              |text| == 1 && (low <= text[0] <= high || text[0] == low || text[0] == high)
  {
    var body := [low, DASH, high];
    assert [0x5B, low, 0x2D, high, 0x5D] == [OPEN] + body + [CLOSE];
    SetAlone(body, text, [0x5B, low, 0x2D, high, 0x5D]);
    if |text| == 1 {
      RangeSet(low, high, text[0], body);
    }
  }

  lemma RangeSet(low: Char16, high: Char16, c: Char16, body: seq<Char16>)
    requires low != DASH && high != DASH && body == [low, DASH, high]
    ensures InSet(body, c) <==> low <= c <= high || c == low || c == high
  {
    assert AdmitsAt(body, 0, c) <==> c == low;
    assert AdmitsAt(body, 1, c) <==> low <= c <= high;
    assert AdmitsAt(body, 2, c) <==> c == high;
  }
}
