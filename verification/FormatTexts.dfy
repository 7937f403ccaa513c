// What each conversion of a format prints: gnu-efi/lib/print.c, _Print.

module FormatTexts {
  import opened Units
  import opened PrintSpec
  import opened FormatSpec
  import N = Numbers
  import D = Decimals
  import T = NumberTexts

  // A directive prints the text of its argument as its flags and widths ask.
  ghost predicate Prints(s: Spec, arg: Arg, text: seq<Char16>) {
    var pieces := Pieces(Spelled(s), [arg]);
    pieces.Some? && Text(pieces.value) == ItemText(Meant(s, text))
  }

  lemma PrintsItem(s: Spec, arg: Arg, text: seq<Char16>)
    requires TakesArg(s.conversion) && s.width < WORD_LIMIT && s.field < WORD_LIMIT
    requires Converted(s.conversion, s.long, s.comma, arg) == Some(text)
    ensures Prints(s, arg, text)
  {
    var item := Meant(s, text);
    SpelledReads(s, arg, text, [], []);
    assert Spelled(s) + [] == Spelled(s) && [arg] + [] == [arg];
    assert [Field(item)] + [] == [Field(item)];
    FirstText(Field(item), []);
    assert ItemText(item) + Text([]) == ItemText(item);
  }

  // ----- Strings and characters -----

  /** %s prints the string it is given, %a the characters of a narrow one, each for NULL the text "(null)". */
  lemma StringPrints(s: Spec, text: seq<Char16>, chars: seq<byte>, narrow: seq<Char16>)
    requires s.width < WORD_LIMIT && s.field < WORD_LIMIT
    requires |narrow| == |chars| && forall i :: 0 <= i < |chars| ==> narrow[i] == chars[i]
    ensures s.conversion == 0x73 ==> Prints(s, Wide(text), text)
    ensures s.conversion == 0x61 ==> Prints(s, Ascii(chars), narrow)
    ensures s.conversion == 0x73 || s.conversion == 0x61 ==> Prints(s, NoString, [0x28, 0x6E, 0x75, 0x6C, 0x6C, 0x29])
  {
    if s.conversion == 0x73 {
      PrintsItem(s, Wide(text), text);
      PrintsItem(s, NoString, NULL_TEXT);
    } else if s.conversion == 0x61 {
      assert Widened(chars) == narrow;
      PrintsItem(s, Ascii(chars), narrow);
      PrintsItem(s, NoString, NULL_TEXT);
    }
  }

  // A directive without flags and widths.
  function Bare(conversion: Char16, long: bool): Spec {
    Spec(false, false, false, 0, 0, long, conversion)
  }

  lemma BareSpelled(conversion: Char16)
    ensures Spelled(Bare(conversion, false)) == [0x25, conversion]
  {
  }

  lemma BareText(conversion: Char16, long: bool, text: seq<Char16>)
    requires conversion != UPPER_X && |text| <= UNSET
    ensures ItemText(Meant(Bare(conversion, long), text)) == text
  {
    var item := Meant(Bare(conversion, long), text);
    assert Repeat(SPACE, 0) + (Repeat(SPACE, 0) + text) == text;
    assert text[..|text|] == text;
  }

  /** A string printed by %s alone is the string, and "(null)" stands for NULL and for itself. */
  lemma StringPrintsItself(text: seq<Char16>, null_: seq<Char16>)
    requires |text| <= UNSET && null_ == [0x28, 0x6E, 0x75, 0x6C, 0x6C, 0x29]
    ensures var pieces := Pieces([0x25, 0x73], [Wide(text)]); pieces.Some? && Text(pieces.value) == text
    ensures var pieces := Pieces([0x25, 0x73], [NoString]); pieces.Some? && Text(pieces.value) == null_
  {
    BareSpelled(0x73);
    BareText(0x73, false, text);
    BareText(0x73, false, null_);
    StringPrints(Bare(0x73, false), text, [], []);
  }

  /** %c prints the low 16 bits of its argument, and nothing if they are zero. */
  lemma CharPrints(s: Spec, v: nat)
    requires s.conversion == 0x63 && s.width < WORD_LIMIT && s.field < WORD_LIMIT
    ensures Prints(s, Number(v), if v % 0x1_0000 == 0 then [] else [v % 0x1_0000])
  {
    PrintsItem(s, Number(v), if v % 0x1_0000 == 0 then [] else [v % 0x1_0000]);
  }

  /** The texts of GUIDs, device paths, floats, times and statuses are printed as they are made. */
  lemma MadePrints(s: Spec, text: seq<Char16>)
    requires IsMade(s.conversion) && s.width < WORD_LIMIT && s.field < WORD_LIMIT
    ensures Prints(s, Made(text), text)
  {
    PrintsItem(s, Made(text), text);
  }

  // ----- Numbers -----

  // The number of which v holds so many low bits, in two's complement.
  predicate Twos(x: int, v: nat, range: nat) {
    range > 0 && 0 <= 2 * x + range && 2 * x < range && (x - v) % range == 0
  }

  function RangeOf(long: bool): (r: nat)
    ensures r > 0
  {
    if long then WORD_LIMIT else 0x1_0000_0000
  }

  lemma SignedExact(v: nat, long: bool)
    ensures Twos(Signed(v, long), v, RangeOf(long))
  {
    if long {
      Remainders(v, WORD_LIMIT);
    } else {
      Remainders(v, 0x1_0000_0000);
    }
  }

  lemma Remainders(v: nat, range: nat)
    requires range == WORD_LIMIT || range == 0x1_0000_0000
    ensures (v % range - v) % range == 0 && (v % range - range - v) % range == 0
  {
    if range == WORD_LIMIT {
    } else {
    }
  }

  // The text behind padding stands for x, with commas as asked for.
  ghost predicate PrintsNumber(s: Spec, arg: Arg, x: int) {
    exists text: seq<Char16> ::
      Prints(s, arg, text) && T.Value(text) == x && T.CommasAt(T.Unsigned(text), s.comma)
      && text != [] && (text[0] == N.MINUS <==> x < 0)
  }

  lemma NumberPrinted(s: Spec, v: nat, x: int)
    requires TakesArg(s.conversion) && s.width < WORD_LIMIT && s.field < WORD_LIMIT
    requires Converted(s.conversion, s.long, s.comma, Number(v)) == Some(D.DecText(x, s.comma))
    requires -0x8000_0000_0000_0000 <= x < WORD_LIMIT
    ensures PrintsNumber(s, Number(v), x)
  {
    PrintsItem(s, Number(v), D.DecText(x, s.comma));
    T.DecTextExact(x, s.comma);
  }

  /**
   * %d prints its argument as a signed number of 32 bits, or of 64 with l. %u prints it as an unsigned number of
   * 32 bits, and with l as ValueToString takes it: signed.
   */
  lemma DecPrints(s: Spec, v: nat)
    requires (s.conversion == 0x64 || s.conversion == 0x75) && s.width < WORD_LIMIT && s.field < WORD_LIMIT
    ensures s.conversion == 0x64 || s.long ==>
              exists x: int :: Twos(x, v, if s.long then WORD_LIMIT else 0x1_0000_0000) && PrintsNumber(s, Number(v), x)
    ensures s.conversion == 0x75 && !s.long ==> PrintsNumber(s, Number(v), v % 0x1_0000_0000)
  {
    if s.conversion == 0x64 || s.long {
      var x := Signed(v, s.long);
      SignedExact(v, s.long);
      NumberPrinted(s, v, x);
      assert Twos(x, v, if s.long then WORD_LIMIT else 0x1_0000_0000);
    } else {
      NumberPrinted(s, v, v % 0x1_0000_0000);
    }
  }

  /** %x and %X print the digits of the low 32 or 64 bits, in capitals and without a leading zero of their own. */
  lemma HexPrints(s: Spec, v: nat)
    requires IsHex(s.conversion) && s.width < WORD_LIMIT && s.field < WORD_LIMIT
    ensures exists text: seq<Char16> ::
              Prints(s, Number(v), text) && text != []
              && N.ReadHex(0, N.Unspaced(text)) == v % (if s.long then WORD_LIMIT else 0x1_0000_0000)
              && (forall i :: 0 <= i < |text| ==> T.IsHexChar(text[i])) && (text[0] == 0x30 ==> |text| == 1)
  {
    var u := FormatSpec.Unsigned(v, s.long);
    var text := N.HexText(u);
    PrintsItem(s, Number(v), text);
    N.HexRoundTrip(u);
    T.HexTextExact(u);
    assert Prints(s, Number(v), text);
  }

  // ----- Other directives -----

  /** A star takes the width, or behind a dot the field width, from the arguments. */
  lemma StarReads(field: bool, conversion: Char16, width: nat, arg: Arg, text: seq<Char16>)
    requires TakesArg(conversion) && conversion != UPPER_X && Converted(conversion, false, false, arg) == Some(text)
    ensures Pieces([PERCENT] + (if field then [DOT] else []) + [STAR, conversion], [Number(width), arg])
         == Some([Field(Item(text, if field then 0 else width % WORD_LIMIT, if field then width % WORD_LIMIT else UNSET,
                             SPACE, true))])
  {
    var fmt := [PERCENT] + (if field then [DOT] else []) + [STAR, conversion];
    var args := [Number(width), arg];
    var st := FRESH.(inField := field);
    var item := ItemOf(WithNumber(st, width % WORD_LIMIT), text);
    assert fmt[1..] == Flag(field, DOT) + [STAR, conversion];
    FlagRead(field, DOT, [STAR, conversion], args, FRESH, st);
    assert [STAR, conversion][1..] == [conversion] + [] && args[1..] == [arg];
    assert OneTurn([STAR, conversion], args, st) == More(WithNumber(st, width % WORD_LIMIT), [conversion] + [], [arg]);
    ConversionRead(conversion, [], [arg], WithNumber(st, width % WORD_LIMIT));
    assert Directive(fmt[1..], args, FRESH) == Found(item, [], [arg][1..]);
    assert [Field(item)] + [] == [Field(item)];
  }

  /** Without an output attribute n, h, e, N, H and E are passed over. */
  lemma AttributeReads(c: Char16, rest: seq<Char16>, args: seq<Arg>, st: Fields)
    requires c in [0x6E, 0x68, 0x65, 0x4E, 0x48, 0x45]
    ensures Directive([c] + rest, args, st) == Directive(rest, args, st)
  {
    assert ([c] + rest)[1..] == rest;
  }

  // The characters that mean something in a directive: 0 to 9, % - , . * l n h e N H E a s c u d x X g D f t r.
  predicate IsKnown(c: Char16) {
    0x30 <= c <= 0x39
    || c in [0x25, 0x2D, 0x2C, 0x2E, 0x2A, 0x6C, 0x6E, 0x68, 0x65, 0x4E, 0x48, 0x45, 0x61, 0x73, 0x63, 0x75, 0x64,
             0x78, 0x58, 0x67, 0x44, 0x66, 0x74, 0x72]
  }

  /** A directive with any other character prints a question mark and takes no argument. */
  lemma UnknownReads(c: Char16, rest: seq<Char16>, args: seq<Arg>)
    requires !IsKnown(c)
    ensures Pieces([PERCENT, c] + rest, args)
         == Behind(Field(Item([0x3F], 0, UNSET, SPACE, true)), Pieces(rest, args))
  {
    var fmt := [PERCENT, c] + rest;
    assert fmt[1..] == [c] + rest;
    assert ([c] + rest)[1..] == rest;
  }
}
