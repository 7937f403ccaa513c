// What a format string means: gnu-efi/lib/print.c, _Print.

module FormatSpec {
  import opened Units
  import opened PrintSpec
  import N = Numbers
  import D = Decimals

  const PERCENT: Char16 := 0x25
  const STAR: Char16 := 0x2A
  const COMMA: Char16 := 0x2C
  const DASH: Char16 := 0x2D
  const DOT: Char16 := 0x2E
  const ZERO: Char16 := 0x30
  const QUESTION: Char16 := 0x3F
  const LOWER_L: Char16 := 0x6C
  const UPPER_X: Char16 := 0x58
  const LOWER_X: Char16 := 0x78

  // What va_arg finds: an integer, a string of either width or NULL, or something whose text
  // (of a GUID, a time, a status, a float or a device path) others make.
  datatype Arg = Number(v: nat) | Wide(text: seq<Char16>) | Ascii(chars: seq<byte>) | NoString | Made(text: seq<Char16>)

  predicate IsArg(arg: Arg) {
    match arg
    case Number(v) => true
    case Wide(text) => IsText(text)
    case Ascii(chars) => forall i :: 0 <= i < |chars| ==> chars[i] != 0
    case NoString => true
    case Made(text) => IsText(text)
  }

  predicate AreArgs(args: seq<Arg>) {
    forall i :: 0 <= i < |args| ==> IsArg(args[i])
  }

  // PRINT_ITEM while its directive is read; inField says that WidthParse points at FieldWidth.
  datatype Fields = Fields(width: nat, field: nat, inField: bool, pad: Char16, padBefore: bool, comma: bool, long: bool)

  const FRESH := Fields(0, UNSET, false, SPACE, true, false, false)

  function WithNumber(st: Fields, n: nat): Fields {
    if st.inField then st.(field := n) else st.(width := n)
  }

  function ItemOf(st: Fields, text: seq<Char16>): Item {
    Item(text, st.width, st.field, st.pad, st.padBefore)
  }

  // An integer argument as INT64 or INT32, and as UINT64 or UINT32.
  function Signed(v: nat, long: bool): int {
    var range := if long then WORD_LIMIT else 0x1_0000_0000;
    if v % range < range / 2 then v % range else v % range - range
  }

  function Unsigned(v: nat, long: bool): nat {
    v % (if long then WORD_LIMIT else 0x1_0000_0000)
  }

  predicate IsDigit(c: Char16) {
    ZERO <= c <= ZERO + 9
  }

  // n, h, e, N, H and E: without an output attribute they set nothing.
  predicate IsAttribute(c: Char16) {
    c == 0x6E || c == 0x68 || c == 0x65 || c == 0x4E || c == 0x48 || c == 0x45
  }

  predicate IsHex(c: Char16) {
    c == UPPER_X || c == LOWER_X
  }

  // g, D, f, t and r.
  predicate IsMade(c: Char16) {
    c == 0x67 || c == 0x44 || c == 0x66 || c == 0x74 || c == 0x72
  }

  // a, s, c, u, d and those.
  predicate TakesArg(c: Char16) {
    c == 0x61 || c == 0x73 || c == 0x63 || c == 0x75 || c == 0x64 || IsHex(c) || IsMade(c)
  }

  function Widened(chars: seq<byte>): (r: seq<Char16>)
    ensures |r| == |chars| && forall i :: 0 <= i < |r| ==> r[i] == chars[i]
  {
    seq(|chars|, i requires 0 <= i < |chars| => chars[i] as Char16)
  }

  // "(null)"
  const NULL_TEXT: seq<Char16> := [0x28, 0x6E, 0x75, 0x6C, 0x6C, 0x29]

  datatype Option<T> = None | Some(value: T)

  // The text of an argument; none if it is not of the type the conversion takes.
  function Converted(c: Char16, long: bool, comma: bool, arg: Arg): Option<seq<Char16>> {
    match arg
    case Number(v) =>
      if c == 0x63 then Some(if v % 0x1_0000 == 0 then [] else [v % 0x1_0000])
      else if IsHex(c) then Some(N.HexText(Unsigned(v, long)))
      else if c == 0x75 then Some(D.DecText(if long then Signed(v, long) else Unsigned(v, long), comma))
      else if c == 0x64 then Some(D.DecText(Signed(v, long), comma))
      else None
    case Wide(text) => if c == 0x73 then Some(text) else None
    case Ascii(chars) => if c == 0x61 then Some(Widened(chars)) else None
    case NoString => if c == 0x61 || c == 0x73 then Some(NULL_TEXT) else None
    case Made(text) => if IsMade(c) then Some(text) else None
  }

  // %X is a fixed eight or sixteen digits.
  function Widths(c: Char16, st: Fields): Fields {
    if c == UPPER_X then st.(width := if st.long then 16 else 8, pad := ZERO) else st
  }

  // How many digits come first.
  function Leading(fmt: seq<Char16>): (n: nat)
    ensures n <= |fmt| && (n < |fmt| ==> !IsDigit(fmt[n]))
    ensures forall i :: 0 <= i < n ==> IsDigit(fmt[i])
  {
    if fmt == [] || !IsDigit(fmt[0]) then 0 else 1 + Leading(fmt[1..])
  }

  // What one turn of the inner loop comes to: more of the directive to read, an item, or a
  // missing argument or one of another type.
  datatype Turn =
    | More(st: Fields, fmt: seq<Char16>, args: seq<Arg>)
    | Found(item: Item, fmt: seq<Char16>, args: seq<Arg>)
    | Stuck

  function OneTurn(fmt: seq<Char16>, args: seq<Arg>, st: Fields): (r: Turn)
    requires fmt != []
    ensures !r.Stuck? ==> |r.fmt| < |fmt|
  {
    var c, rest := fmt[0], fmt[1..];
    if c == PERCENT then Found(ItemOf(st, [PERCENT]), rest, args)
    else if c == ZERO then More(st.(pad := ZERO), rest, args)
    else if c == DASH then More(st.(padBefore := false), rest, args)
    else if c == COMMA then More(st.(comma := true), rest, args)
    else if c == DOT then More(st.(inField := true), rest, args)
    else if c == STAR then
      if args != [] && args[0].Number? then More(WithNumber(st, args[0].v % WORD_LIMIT), rest, args[1..]) else Stuck
    else if IsDigit(c) then More(WithNumber(st, D.ReadDec(0, fmt)), fmt[Leading(fmt)..], args)
    else if c == LOWER_L then More(st.(long := true), rest, args)
    else if IsAttribute(c) then More(st, rest, args)
    else if TakesArg(c) then TakeArg(c, rest, args, st)
    else Found(ItemOf(st, [QUESTION]), rest, args)
  }

  function TakeArg(c: Char16, rest: seq<Char16>, args: seq<Arg>, st: Fields): (r: Turn)
    ensures !r.Stuck? ==> r.fmt == rest
  {
    if args == [] then Stuck
    else
      match Converted(c, st.long, st.comma, args[0])
      case Some(text) => Found(ItemOf(Widths(c, st), text), rest, args[1..])
      case None => Stuck
  }

  // A directive behind its `%`: an item, or Stuck, also where the format ends within it and
  // the code goes on behind the terminator.
  function Directive(fmt: seq<Char16>, args: seq<Arg>, st: Fields): (r: Turn)
    ensures !r.More? && (r.Found? ==> |r.fmt| < |fmt|)
    decreases |fmt|
  {
    if fmt == [] then Stuck
    else
      var turn := OneTurn(fmt, args, st);
      if turn.More? then Directive(turn.fmt, turn.args, turn.st) else turn
  }

  // A whole format with its arguments; none if a directive is incomplete or finds the wrong argument.
  function Pieces(fmt: seq<Char16>, args: seq<Arg>): Option<seq<Piece>>
    decreases |fmt|
  {
    if fmt == [] then Some([])
    else if fmt[0] != PERCENT then Behind(Char(fmt[0]), Pieces(fmt[1..], args))
    else
      match Directive(fmt[1..], args, FRESH)
      case Found(item, rest, others) => Behind(Field(item), Pieces(rest, others))
      case _ => None
  }

  function Behind(first: Piece, rest: Option<seq<Piece>>): Option<seq<Piece>> {
    match rest
    case Some(pieces) => Some([first] + pieces)
    case None => None
  }

  // ----- What a directive is written to mean -----

  // A directive as one writes it: %-0,w.fl and the conversion. Zero stands for a width not given.
  datatype Spec = Spec(left: bool, zero: bool, comma: bool, width: nat, field: nat, long: bool, conversion: Char16)

  function Flag(on: bool, c: Char16): seq<Char16> {
    if on then [c] else []
  }

  function Plain(n: nat): seq<Char16> {
    if n == 0 then [] else D.Grouped(N.Digits(n, 10), true, false)
  }

  function Spelled(s: Spec): seq<Char16> {
    [PERCENT] + (Flag(s.left, DASH) + (Flag(s.zero, ZERO) + (Flag(s.comma, COMMA) + (Plain(s.width)
      + (Flag(s.field > 0, DOT) + (Plain(s.field) + (Flag(s.long, LOWER_L) + [s.conversion])))))))
  }

  // The item it asks for.
  function Meant(s: Spec, text: seq<Char16>): Item {
    var fixed := s.conversion == UPPER_X;
    Item(text, if fixed then (if s.long then 16 else 8) else s.width,
         if s.field > 0 then s.field else UNSET,
         if s.zero || fixed then ZERO else SPACE, !s.left)
  }

  lemma FlagRead(on: bool, c: Char16, t: seq<Char16>, args: seq<Arg>, st: Fields, st': Fields)
    requires c == DASH || c == ZERO || c == COMMA || c == DOT || c == LOWER_L
    requires st' == if !on then st
                    else if c == DASH then st.(padBefore := false)
                    else if c == ZERO then st.(pad := ZERO)
                    else if c == COMMA then st.(comma := true)
                    else if c == DOT then st.(inField := true)
                    else st.(long := true)
    ensures Directive(Flag(on, c) + t, args, st) == Directive(t, args, st')
  {
    if on {
      assert ([c] + t)[1..] == t;
    } else {
      assert [] + t == t;
    }
  }

  lemma {:induction false} DigitsLead(v: nat, rest: seq<Char16>)
    requires rest != [] && !IsDigit(rest[0])
    ensures Leading(Plain(v) + rest) == |Plain(v)| && (v > 0 ==> IsDigit((Plain(v) + rest)[0]) && Plain(v)[0] != ZERO)
    decreases v
  {
    PlainDigits(v);
    LeadingExact(Plain(v), rest);
  }

  lemma {:induction false} LeadingExact(digits: seq<Char16>, rest: seq<Char16>)
    requires rest != [] && !IsDigit(rest[0]) && forall i :: 0 <= i < |digits| ==> IsDigit(digits[i])
    ensures Leading(digits + rest) == |digits|
    decreases |digits|
  {
    if digits == [] {
      assert digits + rest == rest;
    } else {
      assert (digits + rest)[1..] == digits[1..] + rest;
      LeadingExact(digits[1..], rest);
    }
  }

  // Decimal digits, the first of which is not zero.
  lemma {:induction false} PlainDigits(v: nat)
    ensures forall i :: 0 <= i < |Plain(v)| ==> IsDigit(Plain(v)[i])
    ensures v > 0 ==> Plain(v) != [] && Plain(v)[0] != ZERO
    decreases v
  {
    if v > 0 {
      PlainDigits(v / 10);
      D.PlainConcat(N.Digits(v / 10, 10), v % 10, true);
      assert Plain(v) == D.Grouped(N.Digits(v / 10, 10), true, false) + [ZERO + v % 10];
    }
  }

  lemma NumberRead(n: nat, t: seq<Char16>, args: seq<Arg>, st: Fields)
    requires n < WORD_LIMIT && t != [] && !IsDigit(t[0])
    ensures Directive(Plain(n) + t, args, st) == Directive(t, args, if n > 0 then WithNumber(st, n) else st)
  {
    if n > 0 {
      NumberTurn(n, t, Plain(n) + t, args, st);
    } else {
      assert Plain(n) + t == t;
    }
  }

  lemma NumberTurn(n: nat, t: seq<Char16>, fmt: seq<Char16>, args: seq<Arg>, st: Fields)
    requires 0 < n < WORD_LIMIT && t != [] && !IsDigit(t[0]) && fmt == Plain(n) + t
    ensures fmt != [] && OneTurn(fmt, args, st) == More(WithNumber(st, n), t, args)
  {
    NumberParts(n, t, fmt);
    NumberFirst(n, t, fmt, args, st);
  }

  lemma NumberParts(n: nat, t: seq<Char16>, fmt: seq<Char16>)
    requires 0 < n < WORD_LIMIT && t != [] && !IsDigit(t[0]) && fmt == Plain(n) + t
    ensures fmt != [] && IsDigit(fmt[0]) && fmt[0] != ZERO && fmt[Leading(fmt)..] == t && D.ReadDec(0, fmt) == n
  {
    DigitsLead(n, t);
    D.ReadPlain(n, true, t);
    assert fmt[0] == Plain(n)[0];
    assert D.ReadDec(n, t) == n;
  }

  lemma NumberFirst(n: nat, t: seq<Char16>, fmt: seq<Char16>, args: seq<Arg>, st: Fields)
    requires fmt != [] && IsDigit(fmt[0]) && fmt[0] != ZERO && fmt[Leading(fmt)..] == t && D.ReadDec(0, fmt) == n
    ensures OneTurn(fmt, args, st) == More(WithNumber(st, n), t, args)
  {
  }

  lemma ConversionRead(c: Char16, rest: seq<Char16>, args: seq<Arg>, st: Fields)
    requires TakesArg(c)
    ensures Directive([c] + rest, args, st) == TakeArg(c, rest, args, st)
  {
    assert ([c] + rest)[1..] == rest;
  }

  // What is left of a directive behind each of its parts, and what follows it.
  datatype Tails = Tails(flags: seq<Char16>, zero: seq<Char16>, comma: seq<Char16>, width: seq<Char16>,
                         dot: seq<Char16>, field: seq<Char16>, long: seq<Char16>, conversion: seq<Char16>)

  predicate AreTails(s: Spec, rest: seq<Char16>, t: Tails) {
    && t.conversion == [s.conversion] + rest
    && t.long == Flag(s.long, LOWER_L) + t.conversion
    && t.field == Plain(s.field) + t.long
    && t.dot == Flag(s.field > 0, DOT) + t.field
    && t.width == Plain(s.width) + t.dot
    && t.comma == Flag(s.comma, COMMA) + t.width
    && t.zero == Flag(s.zero, ZERO) + t.comma
    && t.flags == Flag(s.left, DASH) + t.zero
  }

  lemma SpelledTails(s: Spec, rest: seq<Char16>) returns (t: Tails)
    ensures AreTails(s, rest, t) && Spelled(s) + rest == [PERCENT] + t.flags
  {
    var conversion := [s.conversion] + rest;
    var long := Flag(s.long, LOWER_L) + conversion;
    var field := Plain(s.field) + long;
    var dot := Flag(s.field > 0, DOT) + field;
    var width := Plain(s.width) + dot;
    var comma := Flag(s.comma, COMMA) + width;
    var zero := Flag(s.zero, ZERO) + comma;
    t := Tails(Flag(s.left, DASH) + zero, zero, comma, width, dot, field, long, conversion);
    var l := Flag(s.long, LOWER_L) + [s.conversion];
    Regroup(Flag(s.long, LOWER_L), [s.conversion], rest);
    var f := Plain(s.field) + l;
    Regroup(Plain(s.field), l, rest);
    var d := Flag(s.field > 0, DOT) + f;
    Regroup(Flag(s.field > 0, DOT), f, rest);
    var w := Plain(s.width) + d;
    Regroup(Plain(s.width), d, rest);
    var c := Flag(s.comma, COMMA) + w;
    Regroup(Flag(s.comma, COMMA), w, rest);
    var z := Flag(s.zero, ZERO) + c;
    Regroup(Flag(s.zero, ZERO), c, rest);
    var m := Flag(s.left, DASH) + z;
    Regroup(Flag(s.left, DASH), z, rest);
    Regroup([PERCENT], m, rest);
  }

  // The fields behind the flags, behind the width, and behind the whole.
  function Flagged(s: Spec): Fields {
    Fields(0, UNSET, false, if s.zero then ZERO else SPACE, !s.left, s.comma, false)
  }

  function Given(s: Spec): Fields {
    Flagged(s).(width := s.width, field := if s.field > 0 then s.field else UNSET, inField := s.field > 0, long := s.long)
  }

  lemma FlagsRead(s: Spec, rest: seq<Char16>, t: Tails, args: seq<Arg>)
    requires AreTails(s, rest, t)
    ensures Directive(t.flags, args, FRESH) == Directive(t.width, args, Flagged(s))
  {
    var st1 := FRESH.(padBefore := !s.left);
    var st2 := st1.(pad := if s.zero then ZERO else SPACE);
    FlagRead(s.left, DASH, t.zero, args, FRESH, st1);
    FlagRead(s.zero, ZERO, t.comma, args, st1, st2);
    FlagRead(s.comma, COMMA, t.width, args, st2, Flagged(s));
  }

  lemma WidthsRead(s: Spec, rest: seq<Char16>, t: Tails, args: seq<Arg>)
    requires AreTails(s, rest, t) && TakesArg(s.conversion) && s.width < WORD_LIMIT && s.field < WORD_LIMIT
    ensures Directive(t.width, args, Flagged(s)) == Directive(t.conversion, args, Given(s))
  {
    var st1 := Flagged(s).(width := s.width);
    var st2 := st1.(inField := s.field > 0);
    var st3 := st2.(field := if s.field > 0 then s.field else UNSET);
    NumberRead(s.width, t.dot, args, Flagged(s));
    FlagRead(s.field > 0, DOT, t.field, args, st1, st2);
    NumberRead(s.field, t.long, args, st2);
    FlagRead(s.long, LOWER_L, t.conversion, args, st3, Given(s));
  }

  /**
   * A directive is read as it is meant: flags, width, field width and length in this order give the item with
   * these, and the format goes on behind it with the other arguments.
   */
  lemma SpelledReads(s: Spec, arg: Arg, text: seq<Char16>, rest: seq<Char16>, args: seq<Arg>)
    requires TakesArg(s.conversion) && s.width < WORD_LIMIT && s.field < WORD_LIMIT
    requires Converted(s.conversion, s.long, s.comma, arg) == Some(text)
    ensures Pieces(Spelled(s) + rest, [arg] + args) == Behind(Field(Meant(s, text)), Pieces(rest, args))
  {
    var t := SpelledTails(s, rest);
    var given := [arg] + args;
    FlagsRead(s, rest, t, given);
    WidthsRead(s, rest, t, given);
    ConversionRead(s.conversion, rest, given, Given(s));
    assert given[1..] == args;
    assert Directive(t.flags, given, FRESH) == Found(Meant(s, text), rest, args);
    assert ([PERCENT] + t.flags)[1..] == t.flags;
  }

  /** Text without a percent sign means itself. */
  lemma {:induction false} TextReads(plain: seq<Char16>, rest: seq<Char16>, args: seq<Arg>)
    requires forall i :: 0 <= i < |plain| ==> plain[i] != PERCENT
    ensures Pieces(plain + rest, args).Some? <==> Pieces(rest, args).Some?
    ensures Pieces(rest, args).Some? ==> Text(Pieces(plain + rest, args).value) == plain + Text(Pieces(rest, args).value)
    decreases |plain|
  {
    if plain == [] {
      assert plain + rest == rest;
    } else {
      var c, more := plain[0], plain[1..];
      TextReads(more, rest, args);
      CharReads(c, more + rest, args);
      Regroup([c], more, rest);
      assert [c] + more == plain;
      if Pieces(rest, args).Some? {
        var behind := Text(Pieces(rest, args).value);
        FirstText(Char(c), Pieces(more + rest, args).value);
        Regroup([c], more, behind);
      }
    }
  }

  lemma CharReads(c: Char16, rest: seq<Char16>, args: seq<Arg>)
    requires c != PERCENT
    ensures Pieces([c] + rest, args) == Behind(Char(c), Pieces(rest, args))
  {
    assert ([c] + rest)[1..] == rest;
  }

  lemma FirstText(first: Piece, pieces: seq<Piece>)
    ensures Text([first] + pieces) == PieceText(first) + Text(pieces)
  {
    TextConcat([first], pieces);
    assert [first][..0] == [];
    assert [] + PieceText(first) == PieceText(first);
  }

  /** A percent sign is written as two. */
  lemma PercentReads(rest: seq<Char16>, args: seq<Arg>)
    ensures Pieces([PERCENT, PERCENT] + rest, args)
         == Behind(Field(Item([PERCENT], 0, UNSET, SPACE, true)), Pieces(rest, args))
  {
    var fmt := [PERCENT, PERCENT] + rest;
    assert fmt[1..] == [PERCENT] + rest;
    assert fmt[1..][1..] == rest;
  }

  // ----- Reading back what a format prints -----

  lemma {:induction false} SpacesSkipped(k: nat, text: seq<Char16>)
    ensures N.Unspaced(Repeat(SPACE, k) + text) == N.Unspaced(text)
    decreases k
  {
    var padded := Repeat(SPACE, k) + text;
    if k == 0 {
      assert padded == text;
    } else {
      SpacesSkipped(k - 1, text);
      assert padded[1..] == Repeat(SPACE, k - 1) + text;
    }
  }

  lemma {:induction false} ZerosRead(k: nat, text: seq<Char16>)
    ensures N.ReadHex(0, Repeat(ZERO, k) + text) == N.ReadHex(0, text)
    decreases k
  {
    var padded := Repeat(ZERO, k) + text;
    if k == 0 {
      assert padded == text;
    } else {
      ZerosRead(k - 1, text);
      assert padded[1..] == Repeat(ZERO, k - 1) + text;
      assert N.HexDigit(padded[0]) == 0;
    }
  }

  lemma PaddedReads(pad: Char16, k: nat, v: nat)
    requires v < WORD_LIMIT && (pad == SPACE || pad == ZERO)
    ensures N.ReadHex(0, N.Unspaced(Repeat(pad, k) + N.HexText(v))) == v
  {
    var text := N.HexText(v);
    N.HexRoundTrip(v);
    if pad == SPACE {
      SpacesSkipped(k, text);
    } else {
      HexUnspaced(v);
      assert k > 0 ==> Repeat(ZERO, k)[0] == ZERO;
      ZerosRead(k, text);
    }
  }

  lemma HexUnspaced(v: nat)
    ensures N.Unspaced(N.HexText(v)) == N.HexText(v)
  {
    if v > 0 {
      assert N.HexText(v)[0] == N.HexChar(N.Digits(v, 16)[0]);
    }
  }

  // Without a field width nothing is cut and no spaces are added.
  lemma UncutText(item: Item)
    requires item.fieldWidth == UNSET && |item.text| <= UNSET
    ensures exists k: nat :: ItemText(item) == Repeat(item.pad, k) + item.text
  {
    var k := Width(item) - Shown(item);
    assert item.text[..Shown(item)] == item.text;
    assert Repeat(SPACE, 0) + Body(item) == Body(item) == Body(item) + Repeat(SPACE, 0);
    assert ItemText(item) == Repeat(item.pad, k) + item.text;
  }

  /**
   * What %x and %X print, with any flags and any width, xtoi reads back: the number, or its low
   * 32 bits without the l. Only a field width can cut it.
   */
  lemma HexPrintsBack(s: Spec, v: nat)
    requires IsHex(s.conversion) && s.width < WORD_LIMIT && s.field == 0
    ensures var pieces := Pieces(Spelled(s), [Number(v)]);
            pieces.Some? && N.ReadHex(0, N.Unspaced(Text(pieces.value))) == Unsigned(v, s.long)
  {
    var text := N.HexText(Unsigned(v, s.long));
    var item := Meant(s, text);
    SpelledReads(s, Number(v), text, [], []);
    assert Spelled(s) + [] == Spelled(s) && [Number(v)] + [] == [Number(v)];
    FirstText(Field(item), []);
    assert [Field(item)] + [] == [Field(item)];
    HexShort(Unsigned(v, s.long));
    UncutText(item);
    var k: nat :| ItemText(item) == Repeat(item.pad, k) + text;
    PaddedReads(item.pad, k, Unsigned(v, s.long));
    assert ItemText(item) + Text([]) == ItemText(item);
  }

  lemma HexShort(v: nat)
    requires v < WORD_LIMIT
    ensures |N.HexText(v)| <= 16
  {
    N.PowerValues();
    N.DigitsBounded(v, 16, 16);
  }
}
