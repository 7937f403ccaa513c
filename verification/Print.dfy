// The print engine: gnu-efi/lib/print.c.

module Printing {
  import opened Units
  import opened PrintSpec

  // A buffer holding a NUL-terminated string.
  predicate Holds(buffer: seq<Char16>, text: seq<Char16>) {
    |text| < |buffer| && buffer[..|text|] == text && buffer[|text|] == 0 && IsText(text)
  }

  method StrLen(buffer: array<Char16>, ghost text: seq<Char16>) returns (n: nat)
    requires Holds(buffer[..], text)
    ensures n == |text|
  {
    n := 0;
    assert forall k :: 0 <= k < |text| ==> buffer[k] == buffer[..][..|text|][k] == text[k];
    while buffer[n] != 0
      invariant n <= |text|
      decreases |text| - n
    {
      n := n + 1;
    }
  }

  // From the start of one buffer into another.
  method CopyUnits(to: array<Char16>, at: nat, buffer: array<Char16>, n: nat)
    requires to != buffer && n <= buffer.Length && at + n <= to.Length
    modifies to
    ensures to[..at + n] == old(to[..at]) + buffer[..n]
    ensures forall i :: at + n <= i < to.Length ==> to[i] == old(to[i])
  {
    ghost var before := to[..];
    CopyMem(to, at, buffer[..], 0, n);
    assert to[..at + n] == to[..at] + to[at..at + n];
    forall i | at + n <= i < to.Length
      ensures to[i] == before[i]
    {
      assert to[at + n..][i - at - n] == before[at + n..][i - at - n];
    }
  }

  // There is no memory for some block of at most this many bytes.
  ghost predicate Refuses(pool: Pool, limit: nat) {
    exists n: nat :: n <= limit && !pool(n)
  }

  lemma StillRefuses(pool: Pool, limit: nat, more: nat)
    requires Refuses(pool, limit) && limit <= more
    ensures Refuses(pool, more)
  {
    var n: nat :| n <= limit && !pool(n);
    assert n <= more;
  }

  // What the append workers write to.
  class PoolPrint {
    var str: array?<Char16>
    var len: nat
    var maxlen: nat
    // All text handed over, and whether an allocation has failed.
    ghost var Sent: seq<Char16>
    ghost var Failed: bool
    const Grants: Pool
    // The buffer as it was given.
    ghost const Initial: seq<Char16>

    ghost predicate Valid()
      reads this
    {
      len <= maxlen && (if str == null then maxlen == 0 else len <= str.Length)
    }

    ghost function Text(): (r: seq<Char16>)
      requires Valid()
      reads this, str
      ensures |r| == len
    {
      if str == null then [] else str[..len]
    }

    constructor (buffer: array?<Char16>, limit: nat, pool: Pool)
      requires buffer == null ==> limit == 0
      ensures Grants == pool
      ensures Valid() && str == buffer && maxlen == limit && Sent == [] && len == 0 && !Failed
      ensures buffer != null ==> Initial == buffer[..]
    {
      str, len, maxlen, Sent, Failed := buffer, 0, limit, [], false;
      Initial := if buffer == null then [] else buffer[..];
      Grants := pool;
    }

    // _SPrint
    method SPrint(buffer: array<Char16>, ghost text: seq<Char16>)
      requires Valid() && Holds(buffer[..], text) && buffer != str
      requires str != null ==> |Take(Text() + text, maxlen)| < str.Length
      modifies this`len, this`Sent, str
      ensures Valid() && Sent == old(Sent) + text && Text() == Take(old(Text()) + text, maxlen)
      ensures maxlen > 0 && str != null ==> len < str.Length && str[len] == 0
      ensures str != null ==> forall i :: len < i < str.Length ==> str[i] == old(str[i])
      ensures str != null && maxlen == 0 ==> str[..] == old(str[..])
    {
      var n := StrLen(buffer, text);
      if len + n > maxlen {
        n := maxlen - len;
      }
      assert text[..n] == buffer[..n];
      ghost var kept := Text() + text[..n];
      assert kept == Take(Text() + text, maxlen);
      if str != null {
        CopyUnits(str, len, buffer, n);
      }
      len := len + n;
      if len < maxlen {
        if str != null {
          str[len] := 0;
        }
      } else if maxlen != 0 {
        str[maxlen] := 0;
      }
      Sent := Sent + text;
      assert str != null ==> str[..len] == kept;
    }

    // ReallocatePool: a copy in a larger buffer, or NULL.
    method ReallocatePool(current: array?<Char16>, size: nat, newSize: nat) returns (r: array?<Char16>)
      requires size <= newSize && (if current == null then size == 0 else size <= current.Length)
      ensures r != null <==> Grants(2 * newSize)
      ensures r != null ==> fresh(r) && r.Length == newSize
      ensures r != null && current != null ==> r[..size] == current[..size]
    {
      if !Grants(2 * newSize) {
        return null;
      }
      var larger := new Char16[newSize];
      if current != null {
        CopyUnits(larger, 0, current, size);
        assert larger[..size] == larger[..0 + size];
      }
      return larger;
    }

    // _PoolPrint
    method PoolPrint(buffer: array<Char16>, ghost text: seq<Char16>)
      requires Valid() && Holds(buffer[..], text) && buffer != str
      requires str != null ==> maxlen == str.Length
      modifies this, str
      ensures Valid() && Sent == old(Sent) + text
      ensures Failed <==> old(Failed)
                          || (old(len) + |text| + 1 > old(maxlen) && !Grants(2 * (old(len) + |text| + 1 + STRING_LEN)))
      ensures str != null ==> maxlen == str.Length && str != buffer && (str == old(str) || fresh(str))
      ensures !Failed ==> str != null && Text() == old(Text()) + text && len < str.Length && str[len] == 0
    {
      var n := StrLen(buffer, text);
      var newlen := len + n + 1;
      ghost var before := Text();
      if newlen > maxlen {
        newlen := newlen + STRING_LEN;
        maxlen := newlen;
        str := ReallocatePool(str, len, maxlen);
        if str == null {
          len := 0;
          maxlen := 0;
          Failed := true;
        }
      }
      assert str != null ==> Text() == before && |before + text| < maxlen;
      SPrint(buffer, text);
    }
  }

  datatype Worker = StringWorker | PoolWorker

  class PrintState {
    const Buffer: array<Char16>
    var Pos: nat
    var Len: nat
    const Output: Worker
    const Context: PoolPrint

    constructor (worker: Worker, context: PoolPrint)
      ensures fresh(Buffer) && Buffer.Length == STRING_LEN && Pos == 0 && Len == 0
      ensures Output == worker && Context == context
    {
      Buffer := new Char16[STRING_LEN];
      Pos, Len, Output, Context := 0, 0, worker, context;
    }

    // The string buffer holds what was handed over, cut at the limit, and is otherwise as it was.
    ghost predicate Cut()
      reads Context, Context.str
    {
      && Context.Valid() && Context.str != null && |Context.Initial| == Context.str.Length
      && Context.Text() == Take(Context.Sent, Context.maxlen)
      && (forall i :: Context.len < i < |Context.Initial| ==> Context.str[i] == Context.Initial[i])
      && (Context.maxlen == 0 ==> Context.str[..] == Context.Initial)
    }

    // The pool holds all that was handed over, unless an allocation has failed.
    ghost predicate Whole()
      reads Context, Context.str
    {
      && Context.Valid() && (Context.str != null ==> Context.maxlen == Context.str.Length)
      && (!Context.Failed ==> Context.Text() == Context.Sent)
      && (Context.Failed ==> Refuses(Context.Grants, 2 * (|Context.Sent| + 1 + STRING_LEN)))
    }

    ghost predicate Kept()
      reads Context, Context.str
    {
      if Output == StringWorker then Cut() else Whole()
    }

    // There is a terminator behind it, unless the limit is zero or an allocation has failed.
    ghost predicate Ended()
      reads Context, Context.str
    {
      (if Output == StringWorker then Context.maxlen > 0 else !Context.Failed) ==>
        Context.str != null && Context.len < Context.str.Length && Context.str[Context.len] == 0
    }

    ghost predicate Valid()
      reads this, Buffer, Context, Context.str
    {
      && Buffer.Length == STRING_LEN && Pos < STRING_LEN && Buffer != Context.str
      && IsText(Buffer[..Pos]) && Kept() && Len == |Context.Sent| + Pos
    }

    // Between calls of PPUTC.
    ghost predicate Ready()
      reads this, Buffer, Context, Context.str
    {
      Valid() && Pos < STRING_LEN - 1
    }

    // All text put so far, in the chunk buffer or already handed over.
    ghost function Printed(): seq<Char16>
      requires Buffer.Length == STRING_LEN && Pos < STRING_LEN
      reads this, Buffer, Context
    {
      Context.Sent + Buffer[..Pos]
    }

    // The string buffer has room for n units and a terminator, as far as the limit lets them in.
    ghost predicate Room(n: nat)
      reads Context, Context.str
    {
      Output == StringWorker && Context.str != null ==> Context.maxlen < Context.str.Length || n < Context.str.Length
    }

    method PFLUSH()
      requires Valid() && Room(|Printed()|)
      modifies this`Pos, Buffer, Context, Context.str
      ensures Valid() && Pos == 0 && Printed() == old(Printed()) == Context.Sent && Ended()
      ensures Context.str == null || Context.str == old(Context.str) || fresh(Context.str)
      ensures Output == StringWorker ==> Context.str == old(Context.str) && Context.maxlen == old(Context.maxlen)
    {
      ghost var text := Buffer[..Pos];
      Buffer[Pos] := 0;
      assert Buffer[..Pos] == text;
      if Output == StringWorker {
        TakeConcat(Context.Sent, text, Context.maxlen);
        Context.SPrint(Buffer, text);
      } else {
        Context.PoolPrint(Buffer, text);
        if old(Context.Failed) {
          StillRefuses(Context.Grants, 2 * (|old(Context.Sent)| + 1 + STRING_LEN), 2 * (|Context.Sent| + 1 + STRING_LEN));
        }
      }
      Pos := 0;
    }

    method PPUTC(c: Char16)
      requires Ready() && c != 0 && Room(|Printed() + Out(c)|)
      modifies this`Pos, this`Len, Buffer, Context, Context.str
      ensures Ready() && Printed() == old(Printed()) + Out(c)
      ensures Context.str == null || Context.str == old(Context.str) || fresh(Context.str)
      ensures Output == StringWorker ==> Context.str == old(Context.str) && Context.maxlen == old(Context.maxlen)
      decreases c == NEWLINE
    {
      if c == NEWLINE {
        PPUTC(RETURN);
      }
      PutUnit(c);
    }

    // The rest of PPUTC: one unit into the chunk buffer, which is flushed when full.
    method PutUnit(c: Char16)
      requires Ready() && c != 0 && Room(|Printed()| + 1)
      modifies this`Pos, this`Len, Buffer, Context, Context.str
      ensures Ready() && Printed() == old(Printed()) + [c]
      ensures Context.str == null || Context.str == old(Context.str) || fresh(Context.str)
      ensures Output == StringWorker ==> Context.str == old(Context.str) && Context.maxlen == old(Context.maxlen)
    {
      ghost var text := Buffer[..Pos];
      Buffer[Pos] := c;
      Pos := Pos + 1;
      assert Buffer[..Pos] == text + [c];
      Len := Len + 1;
      if Pos >= STRING_LEN - 1 {
        PFLUSH();
      }
    }

    // The loops of PITEM: a character n times, and the first n characters of an item.
    method PutPadding(c: Char16, n: nat)
      requires Ready() && c != 0 && Room(|Printed() + Expand(Repeat(c, n))|)
      modifies this`Pos, this`Len, Buffer, Context, Context.str
      ensures Ready() && Printed() == old(Printed()) + Expand(Repeat(c, n))
      ensures Context.str == null || Context.str == old(Context.str) || fresh(Context.str)
      ensures Output == StringWorker ==> Context.str == old(Context.str) && Context.maxlen == old(Context.maxlen)
    {
      PutText(Repeat(c, n));
    }

    method PutText(text: seq<Char16>)
      requires Ready() && IsText(text) && Room(|Printed() + Expand(text)|)
      modifies this`Pos, this`Len, Buffer, Context, Context.str
      ensures Ready() && Printed() == old(Printed()) + Expand(text)
      ensures Context.str == null || Context.str == old(Context.str) || fresh(Context.str)
      ensures Output == StringWorker ==> Context.str == old(Context.str) && Context.maxlen == old(Context.maxlen)
    {
      ghost var before := Printed();
      var i := 0;
      while i < |text|
        invariant i <= |text| && Ready() && PutSoFar(before, text, i)
        invariant Context.str == null || Context.str == old(Context.str) || fresh(Context.str)
        invariant Output == StringWorker ==> Context.str == old(Context.str) && Context.maxlen == old(Context.maxlen)
      {
        PutAt(before, text, i);
        i := i + 1;
      }
      assert text[..|text|] == text;
    }

    ghost predicate PutSoFar(before: seq<Char16>, text: seq<Char16>, i: nat)
      requires Ready()
      reads this, Buffer, Context, Context.str
    {
      i <= |text| && Printed() == before + Expand(text[..i]) && Room(|before + Expand(text)|)
    }

    // One turn of such a loop.
    method PutAt(ghost before: seq<Char16>, text: seq<Char16>, i: nat)
      requires Ready() && IsText(text) && i < |text| && PutSoFar(before, text, i)
      modifies this`Pos, this`Len, Buffer, Context, Context.str
      ensures Ready() && PutSoFar(before, text, i + 1)
      ensures Context.str == null || Context.str == old(Context.str) || fresh(Context.str)
      ensures Output == StringWorker ==> Context.str == old(Context.str) && Context.maxlen == old(Context.maxlen)
    {
      ExpandStep(text, i);
      PPUTC(text[i]);
    }

    // The length of an item: up to its terminator or its field width.
    method ItemLength(item: Item) returns (len: nat)
      requires IsText(item.text)
      ensures len == Shown(item)
    {
      len := 0;
      while len < item.fieldWidth
        invariant len <= |item.text| && len <= item.fieldWidth
        decreases item.fieldWidth - len
      {
        var c: Char16 := if len < |item.text| then item.text[len] else 0;
        if c == 0 {
          break;
        }
        len := len + 1;
      }
    }

    // The padding of an item and the item itself.
    method PutBody(item: Item, len: nat, width: nat)
      requires Ready() && IsText(item.text) && item.pad != 0 && Room(|Printed() + Expand(Body(item))|)
      requires len == Shown(item) && width == Width(item)
      modifies this`Pos, this`Len, Buffer, Context, Context.str
      ensures Ready() && Printed() == old(Printed()) + Expand(Body(item))
      ensures Context.str == null || Context.str == old(Context.str) || fresh(Context.str)
      ensures Output == StringWorker ==> Context.str == old(Context.str) && Context.maxlen == old(Context.maxlen)
    {
      ghost var pad, text := Repeat(item.pad, width - len), item.text[..len];
      ghost var middle := Printed() + Expand(pad);
      ExpandTwo(Printed(), pad, text, middle, middle + Expand(text));
      PutPadding(item.pad, width - len);
      PutText(item.text[..len]);
    }

    // The two arms of PITEM: spaces before the item, or behind it.
    method PutRight(item: Item, len: nat, width: nat, spaces: nat)
      requires Ready() && IsText(item.text) && item.pad != 0 && Room(|Printed() + Expand(ItemText(item))|)
      requires item.padBefore && len == Shown(item) && width == Width(item) && spaces == Spaces(item)
      modifies this`Pos, this`Len, Buffer, Context, Context.str
      ensures Ready() && Printed() == old(Printed()) + Expand(ItemText(item))
      ensures Context.str == null || Context.str == old(Context.str) || fresh(Context.str)
      ensures Output == StringWorker ==> Context.str == old(Context.str) && Context.maxlen == old(Context.maxlen)
    {
      ghost var fill := Repeat(SPACE, spaces);
      ghost var middle := Printed() + Expand(fill);
      ExpandTwo(Printed(), fill, Body(item), middle, middle + Expand(Body(item)));
      PutPadding(SPACE, spaces);
      PutBody(item, len, width);
    }

    method PutLeft(item: Item, len: nat, width: nat, spaces: nat)
      requires Ready() && IsText(item.text) && item.pad != 0 && Room(|Printed() + Expand(ItemText(item))|)
      requires !item.padBefore && len == Shown(item) && width == Width(item) && spaces == Spaces(item)
      modifies this`Pos, this`Len, Buffer, Context, Context.str
      ensures Ready() && Printed() == old(Printed()) + Expand(ItemText(item))
      ensures Context.str == null || Context.str == old(Context.str) || fresh(Context.str)
      ensures Output == StringWorker ==> Context.str == old(Context.str) && Context.maxlen == old(Context.maxlen)
    {
      ghost var fill := Repeat(SPACE, spaces);
      ghost var middle := Printed() + Expand(Body(item));
      ExpandTwo(Printed(), Body(item), fill, middle, middle + Expand(fill));
      PutBody(item, len, width);
      PutPadding(SPACE, spaces);
    }

    method PITEM(item: Item)
      requires Ready() && IsText(item.text) && item.pad != 0 && Room(|Printed() + Expand(ItemText(item))|)
      modifies this`Pos, this`Len, Buffer, Context, Context.str
      ensures Ready() && Printed() == old(Printed()) + Expand(ItemText(item))
      ensures Context.str == null || Context.str == old(Context.str) || fresh(Context.str)
      ensures Output == StringWorker ==> Context.str == old(Context.str) && Context.maxlen == old(Context.maxlen)
    {
      var len := ItemLength(item);
      var fieldWidth := if item.fieldWidth == UNSET then len else item.fieldWidth;
      var width := if len > item.width then len else item.width;
      var spaces := if width < fieldWidth then fieldWidth - width else 0;
      if item.padBefore {
        PutRight(item, len, width, spaces);
      } else {
        PutLeft(item, len, width, spaces);
      }
    }

    ghost predicate PrintedSoFar(pieces: seq<Piece>, i: nat)
      requires Ready()
      reads this, Buffer, Context, Context.str
    {
      i <= |pieces| && Printed() == Expand(PrintSpec.Text(pieces[..i])) && Room(|Expand(PrintSpec.Text(pieces))|)
    }
  }

  // StrSize / sizeof(CHAR16) - 1, in 64 bits.
  function Limit(strSize: nat): nat {
    (strSize / 2 - 1) % 0x1_0000_0000_0000_0000
  }

  lemma LimitExact(strSize: nat)
    requires strSize < 0x1_0000_0000_0000_0000
    ensures Limit(strSize) == if strSize < 2 then UNSET else strSize / 2 - 1
  {
  }
}
