// Printing by a format string: gnu-efi/lib/print.c, _Print and the functions around it.

module Formats {
  import opened Units
  import opened PrintSpec
  import opened FormatSpec
  import opened Printing
  import N = Numbers
  import D = Decimals

  // ----- Reading a directive -----

  // The digits of a width.
  method ReadWidth(fmt: seq<Char16>, at: nat) returns (n: nat, next: nat)
    requires at < |fmt|
    ensures n == D.ReadDec(0, fmt[at..]) && next == at + Leading(fmt[at..])
  {
    n, next := 0, at;
    while next < |fmt| && IsDigit(fmt[next])
      invariant at <= next <= |fmt| && D.ReadDec(0, fmt[at..]) == D.ReadDec(n, fmt[next..])
      invariant at + Leading(fmt[at..]) == next + Leading(fmt[next..])
    {
      D.ReadDecAt(n, fmt, next, next + 1);
      assert fmt[next..][1..] == fmt[next + 1..];
      n := (n * 10 + (fmt[next] - ZERO)) % WORD_LIMIT;
      next := next + 1;
    }
    ReadEnds(n, fmt[next..]);
  }

  lemma ReadEnds(n: nat, text: seq<Char16>)
    requires text == [] || !IsDigit(text[0])
    ensures D.ReadDec(n, text) == n && Leading(text) == 0
  {
  }

  method ReadScratch(scratch: array<Char16>, ghost text: seq<Char16>) returns (r: seq<Char16>)
    requires Holds(scratch[..], text)
    ensures r == text
  {
    var n := StrLen(scratch, text);
    assert scratch[..n] == scratch[..][..|text|];
    r := scratch[..n];
  }

  // The text of an integer, through the scratch buffer of the item.
  method ConvertNumber(c: Char16, long: bool, comma: bool, v: nat) returns (text: seq<Char16>)
    requires Converted(c, long, comma, Number(v)).Some?
    ensures Converted(c, long, comma, Number(v)) == Some(text) && IsText(text)
  {
    var scratch := new Char16[100];
    if c == 0x63 {
      text := if v % 0x1_0000 == 0 then [] else [v % 0x1_0000];
    } else if IsHex(c) {
      var value := Unsigned(v, long);
      N.ValueToHex(scratch, value);
      text := ReadScratch(scratch, N.HexText(value));
    } else {
      var value: int := if c == 0x75 && !long then Unsigned(v, long) else Signed(v, long);
      D.ValueToString(scratch, comma, value);
      text := ReadScratch(scratch, D.DecText(value, comma));
    }
  }

  method Convert(c: Char16, st: Fields, arg: Arg) returns (text: seq<Char16>)
    requires IsArg(arg) && Converted(c, st.long, st.comma, arg).Some?
    ensures Converted(c, st.long, st.comma, arg) == Some(text) && IsText(text)
  {
    match arg {
      case Number(v) => text := ConvertNumber(c, st.long, st.comma, v);
      case Wide(wide) => text := wide;
      case Ascii(chars) => text := Widened(chars);
      case NoString => text := NULL_TEXT;
      case Made(made) => text := made;
    }
  }

  // The cases of the switch that only set fields of the item.
  method SetField(fmt: seq<Char16>, at: nat, args: seq<Arg>, st: Fields) returns (next: nat, rest: seq<Arg>, after: Fields)
    requires at < |fmt| && OneTurn(fmt[at..], args, st).More? && AreArgs(args) && st.pad != 0
    ensures at < next <= |fmt| && OneTurn(fmt[at..], args, st) == More(after, fmt[next..], rest)
    ensures AreArgs(rest) && after.pad != 0
  {
    var c := fmt[at];
    assert fmt[at..][1..] == fmt[at + 1..];
    next, rest, after := at + 1, args, st;
    if c == ZERO {
      after := st.(pad := ZERO);
    } else if c == DASH {
      after := st.(padBefore := false);
    } else if c == COMMA {
      after := st.(comma := true);
    } else if c == DOT {
      after := st.(inField := true);
    } else if c == STAR {
      after := WithNumber(st, args[0].v % WORD_LIMIT);
      rest := args[1..];
    } else if IsDigit(c) {
      var n;
      n, next := ReadWidth(fmt, at);
      assert fmt[at..][Leading(fmt[at..])..] == fmt[next..];
      after := WithNumber(st, n);
    } else if c == LOWER_L {
      after := st.(long := true);
    }
  }

  // The cases that find the item.
  method FindItem(fmt: seq<Char16>, at: nat, args: seq<Arg>, st: Fields) returns (item: Item, rest: seq<Arg>)
    requires at < |fmt| && OneTurn(fmt[at..], args, st).Found? && AreArgs(args) && st.pad != 0
    ensures OneTurn(fmt[at..], args, st) == Found(item, fmt[at + 1..], rest)
    ensures AreArgs(rest) && IsText(item.text) && item.pad != 0
  {
    var c := fmt[at];
    assert fmt[at..][1..] == fmt[at + 1..];
    if c == PERCENT {
      return ItemOf(st, [PERCENT]), args;
    }
    if TakesArg(c) {
      var text := Convert(c, st, args[0]);
      return ItemOf(Widths(c, st), text), args[1..];
    }
    return ItemOf(st, [QUESTION]), args;
  }

  predicate SetsField(c: Char16) {
    c == ZERO || c == DASH || c == COMMA || c == DOT || c == STAR || IsDigit(c) || c == LOWER_L || IsAttribute(c)
  }

  lemma SetsOrFinds(fmt: seq<Char16>, args: seq<Arg>, st: Fields)
    requires fmt != [] && Directive(fmt, args, st).Found?
    ensures var turn := OneTurn(fmt, args, st);
            if SetsField(fmt[0]) then turn.More? && Directive(turn.fmt, turn.args, turn.st) == Directive(fmt, args, st)
            else turn.Found? && turn == Directive(fmt, args, st)
  {
  }

  // One turn of that loop which finds no item yet. The attributes n, h and e flush the chunk buffer.
  method ReadOn(ps: PrintState, fmt: seq<Char16>, at: nat, args: seq<Arg>, st: Fields, ghost found: Turn)
    returns (next: nat, rest: seq<Arg>, after: Fields)
    requires ps.Ready() && ps.Room(|ps.Printed()|)
    requires at < |fmt| && SetsField(fmt[at]) && AreArgs(args) && st.pad != 0
    requires found.Found? && Directive(fmt[at..], args, st) == found
    modifies ps`Pos, ps.Buffer, ps.Context, ps.Context.str
    ensures ps.Ready() && ps.Printed() == old(ps.Printed())
    ensures ps.Context.str == null || ps.Context.str == old(ps.Context.str) || fresh(ps.Context.str)
    ensures ps.Output == StringWorker ==> ps.Context.str == old(ps.Context.str) && ps.Context.maxlen == old(ps.Context.maxlen)
    ensures at < next < |fmt| && Directive(fmt[next..], rest, after) == found && AreArgs(rest) && after.pad != 0
  {
    SetsOrFinds(fmt[at..], args, st);
    if fmt[at] == 0x6E || fmt[at] == 0x68 || fmt[at] == 0x65 {
      ps.PFLUSH();
    }
    next, rest, after := SetField(fmt, at, args, st);
  }

  // The inner loop of _Print.
  method ReadItem(ps: PrintState, fmt: seq<Char16>, start: nat, args: seq<Arg>)
    returns (item: Item, next: nat, rest: seq<Arg>)
    requires ps.Ready() && ps.Room(|ps.Printed()|)
    requires start <= |fmt| && AreArgs(args) && Directive(fmt[start..], args, FRESH).Found?
    modifies ps`Pos, ps.Buffer, ps.Context, ps.Context.str
    ensures ps.Ready() && ps.Printed() == old(ps.Printed())
    ensures ps.Context.str == null || ps.Context.str == old(ps.Context.str) || fresh(ps.Context.str)
    ensures ps.Output == StringWorker ==> ps.Context.str == old(ps.Context.str) && ps.Context.maxlen == old(ps.Context.maxlen)
    ensures start < next <= |fmt| && Directive(fmt[start..], args, FRESH) == Found(item, fmt[next..], rest)
    ensures AreArgs(rest) && IsText(item.text) && item.pad != 0
  {
    var st := FRESH;
    next, rest := start, args;
    ghost var found := Directive(fmt[start..], args, FRESH);
    while SetsField(fmt[next])
      invariant start <= next < |fmt| && AreArgs(rest) && st.pad != 0
      invariant Directive(fmt[next..], rest, st) == found
      invariant ps.Ready() && ps.Printed() == old(ps.Printed())
      invariant ps.Context.str == null || ps.Context.str == old(ps.Context.str) || fresh(ps.Context.str)
      invariant ps.Output == StringWorker ==> ps.Context.str == old(ps.Context.str) && ps.Context.maxlen == old(ps.Context.maxlen)
      decreases |fmt| - next
    {
      next, rest, st := ReadOn(ps, fmt, next, rest, st, found);
    }
    SetsOrFinds(fmt[next..], rest, st);
    item, rest := FindItem(fmt, next, rest, st);
    next := next + 1;
  }

  // ----- Printing -----

  // What is left of the format prints what is left of the pieces.
  ghost predicate Left(fmt: seq<Char16>, at: nat, args: seq<Arg>, all: seq<Piece>, done: nat) {
    at <= |fmt| && done <= |all| && Pieces(fmt[at..], args) == Some(all[done..])
  }

  lemma NextPiece(fmt: seq<Char16>, at: nat, after: nat, args: seq<Arg>, all: seq<Piece>, done: nat, next: nat)
    requires Left(fmt, at, args, all, done) && at < |fmt| && after == at + 1 && next == done + 1
    ensures done < |all|
    ensures fmt[at] != PERCENT ==> all[done] == Char(fmt[at]) && Left(fmt, after, args, all, next)
    ensures fmt[at] == PERCENT ==>
              var d := Directive(fmt[after..], args, FRESH);
              d.Found? && all[done] == Field(d.item) && Pieces(d.fmt, d.args) == Some(all[next..])
  {
    assert fmt[at..][1..] == fmt[after..];
    assert all[done..] != [] ==> all[done..][1..] == all[next..];
  }

  // One turn of the loop of _Print: a character or an item.
  method PrintNext(ps: PrintState, fmt: seq<Char16>, at: nat, args: seq<Arg>, ghost all: seq<Piece>, ghost done: nat)
    returns (next: nat, rest: seq<Arg>)
    requires ps.Ready() && IsText(fmt) && at < |fmt| && AreArgs(args)
    requires Left(fmt, at, args, all, done) && ps.PrintedSoFar(all, done)
    modifies ps`Pos, ps`Len, ps.Buffer, ps.Context, ps.Context.str
    ensures ps.Ready() && ps.PrintedSoFar(all, done + 1)
    ensures ps.Context.str == null || ps.Context.str == old(ps.Context.str) || fresh(ps.Context.str)
    ensures ps.Output == StringWorker ==> ps.Context.str == old(ps.Context.str) && ps.Context.maxlen == old(ps.Context.maxlen)
    ensures at < next && AreArgs(rest) && Left(fmt, next, rest, all, done + 1)
  {
    NextPiece(fmt, at, at + 1, args, all, done, done + 1);
    TextStep(all, done);
    var c := fmt[at];
    if c != PERCENT {
      ExpandOne(c);
      ps.PPUTC(c);
      return at + 1, args;
    }
    var item;
    item, next, rest := ReadItem(ps, fmt, at + 1, args);
    ps.PITEM(item);
  }

  // _Print
  method Print(ps: PrintState, fmt: seq<Char16>, args: seq<Arg>, ghost all: seq<Piece>) returns (len: nat)
    requires ps.Valid() && ps.Context.Sent == [] && ps.Pos == 0
    requires IsText(fmt) && AreArgs(args) && Pieces(fmt, args) == Some(all) && ps.Room(|Expand(Text(all))|)
    modifies ps`Pos, ps`Len, ps.Buffer, ps.Context, ps.Context.str
    ensures ps.Valid() && ps.Ended() && ps.Context.Sent == Expand(Text(all)) && len == |ps.Context.Sent|
    ensures ps.Context.str == null || ps.Context.str == old(ps.Context.str) || fresh(ps.Context.str)
    ensures ps.Output == StringWorker ==> ps.Context.str == old(ps.Context.str) && ps.Context.maxlen == old(ps.Context.maxlen)
  {
    ps.Len := 0;
    ps.Pos := 0;
    PrintAll(ps, fmt, args, all);
    ps.PFLUSH();
    len := ps.Len;
  }

  method PrintAll(ps: PrintState, fmt: seq<Char16>, args: seq<Arg>, ghost all: seq<Piece>)
    requires ps.Ready() && ps.PrintedSoFar(all, 0)
    requires IsText(fmt) && AreArgs(args) && Pieces(fmt, args) == Some(all)
    modifies ps`Pos, ps`Len, ps.Buffer, ps.Context, ps.Context.str
    ensures ps.Ready() && ps.PrintedSoFar(all, |all|) && all[..|all|] == all
    ensures ps.Context.str == null || ps.Context.str == old(ps.Context.str) || fresh(ps.Context.str)
    ensures ps.Output == StringWorker ==> ps.Context.str == old(ps.Context.str) && ps.Context.maxlen == old(ps.Context.maxlen)
  {
    var at, rest := 0, args;
    ghost var done: nat := 0;
    assert fmt[0..] == fmt && all[0..] == all;
    while at < |fmt|
      invariant 0 <= at && AreArgs(rest) && Left(fmt, at, rest, all, done)
      invariant ps.Ready() && ps.PrintedSoFar(all, done)
      invariant ps.Context.str == null || ps.Context.str == old(ps.Context.str) || fresh(ps.Context.str)
      invariant ps.Output == StringWorker ==> ps.Context.str == old(ps.Context.str) && ps.Context.maxlen == old(ps.Context.maxlen)
      decreases |fmt| - at
    {
      at, rest := PrintNext(ps, fmt, at, rest, all, done);
      done := done + 1;
    }
    AllPrinted(fmt, rest, all, done);
  }

  lemma AllPrinted(fmt: seq<Char16>, args: seq<Arg>, all: seq<Piece>, done: nat)
    requires Left(fmt, |fmt|, args, all, done)
    ensures done == |all|
  {
    assert fmt[|fmt|..] == [];
  }

  /** VSPrint: the first units of what the format prints, newlines expanded, as far as the limit lets them in. */
  method VSPrint(str: array<Char16>, strSize: nat, fmt: seq<Char16>, args: seq<Arg>) returns (len: nat)
    requires IsText(fmt) && AreArgs(args) && Pieces(fmt, args).Some? && strSize < WORD_LIMIT
    requires strSize / 2 <= str.Length && (strSize < 2 ==> |Expand(Text(Pieces(fmt, args).value))| < str.Length)
    modifies str
    ensures var out, limit := Expand(Text(Pieces(fmt, args).value)), Limit(strSize);
            && len == (if |out| <= limit then |out| else limit) && len <= str.Length && str[..len] == out[..len]
            && (limit > 0 ==> len < str.Length && str[len] == 0)
            && (limit == 0 ==> str[..] == old(str[..]))
            && (forall i :: len < i < str.Length ==> str[i] == old(str[i]))
  {
    LimitExact(strSize);
    var spc := new PoolPrint(str, Limit(strSize), n => false);
    var ps := new PrintState(StringWorker, spc);
    var printed := Print(ps, fmt, args, Pieces(fmt, args).value);
    len := spc.len;
  }

  /** PoolPrint: all that the format prints, unless there is no memory for some block of its size and 201 units. */
  method VPoolPrint(fmt: seq<Char16>, args: seq<Arg>, pool: Pool) returns (spc: PoolPrint)
    requires IsText(fmt) && AreArgs(args) && Pieces(fmt, args).Some?
    ensures spc.Valid()
    ensures spc.Failed ==> Refuses(pool, 2 * (|Expand(Text(Pieces(fmt, args).value))| + 1 + STRING_LEN))
    ensures !spc.Failed ==>
              spc.str != null && spc.Text() == Expand(Text(Pieces(fmt, args).value))
              && spc.len < spc.str.Length && spc.str[spc.len] == 0
  {
    spc := new PoolPrint(null, 0, pool);
    var ps := new PrintState(PoolWorker, spc);
    var printed := Print(ps, fmt, args, Pieces(fmt, args).value);
  }
}
