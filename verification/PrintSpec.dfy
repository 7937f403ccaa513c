// What the print engine is to print: gnu-efi/lib/print.c.

module PrintSpec {
  import opened Units

  const STRING_LEN := 200
  const SPACE: Char16 := 0x20
  const NEWLINE: Char16 := 0x0A
  const RETURN: Char16 := 0x0D
  // A field width not given.
  const UNSET := 0xFFFF_FFFF_FFFF_FFFF

  // A newline goes out behind a carriage return.
  function Out(c: Char16): (r: seq<Char16>)
    ensures |r| > 0
  {
    if c == NEWLINE then [RETURN, NEWLINE] else [c]
  }

  function Expand(text: seq<Char16>): seq<Char16> {
    if text == [] then [] else Expand(text[..|text| - 1]) + Out(text[|text| - 1])
  }

  // The text with every carriage return right before a newline taken out.
  function WithoutReturns(text: seq<Char16>): seq<Char16>
    decreases |text|
  {
    var n := |text|;
    if n == 0 then []
    else if n >= 2 && text[n - 1] == NEWLINE && text[n - 2] == RETURN then WithoutReturns(text[..n - 2]) + [NEWLINE]
    else WithoutReturns(text[..n - 1]) + [text[n - 1]]
  }

  predicate AllReturned(text: seq<Char16>) {
    forall k :: 0 <= k < |text| && text[k] == NEWLINE ==> k > 0 && text[k - 1] == RETURN
  }

  /** Expanding puts one carriage return before every newline, and changes nothing else. */
  lemma {:induction false} ExpandUndone(text: seq<Char16>)
    ensures WithoutReturns(Expand(text)) == text && AllReturned(Expand(text))
    decreases |text|
  {
    if text != [] {
      var front, c := text[..|text| - 1], text[|text| - 1];
      ExpandUndone(front);
      OutReturned(Expand(front), c, Expand(text));
      OutUndone(Expand(front), c, Expand(text));
      assert front + [c] == text;
    }
  }

  lemma OutReturned(before: seq<Char16>, c: Char16, out: seq<Char16>)
    requires AllReturned(before) && out == before + Out(c)
    ensures AllReturned(out)
  {
  }

  lemma OutUndone(before: seq<Char16>, c: Char16, out: seq<Char16>)
    requires out == before + Out(c)
    ensures WithoutReturns(out) == WithoutReturns(before) + [c]
  {
    if c == NEWLINE {
      NewlineUndone(before, out, |before| + 2);
    } else {
      CharUndone(before, c, out, |before| + 1);
    }
  }

  lemma NewlineUndone(before: seq<Char16>, out: seq<Char16>, n: nat)
    requires out == before + [RETURN, NEWLINE] && n == |out|
    ensures WithoutReturns(out) == WithoutReturns(before) + [NEWLINE]
  {
    assert out[..n - 2] == before;
    assert out[n - 1] == NEWLINE && out[n - 2] == RETURN;
  }

  lemma CharUndone(before: seq<Char16>, c: Char16, out: seq<Char16>, n: nat)
    requires out == before + [c] && c != NEWLINE && n == |out|
    ensures WithoutReturns(out) == WithoutReturns(before) + [c]
  {
    assert out[..n - 1] == before;
    assert out[n - 1] == c;
  }

  function Repeat(c: Char16, n: nat): (r: seq<Char16>)
    ensures |r| == n
  {
    seq(n, i => c)
  }

  datatype Item = Item(text: seq<Char16>, width: nat, fieldWidth: nat, pad: Char16, padBefore: bool)

  function Max(a: nat, b: nat): nat {
    if a > b then a else b
  }

  // How much of the text an item shows, how wide it is with padding, and its field.
  function Shown(item: Item): nat {
    if |item.text| <= item.fieldWidth then |item.text| else item.fieldWidth
  }

  function Width(item: Item): nat {
    Max(Shown(item), item.width)
  }

  function Spaces(item: Item): nat {
    var field := if item.fieldWidth == UNSET then Shown(item) else item.fieldWidth;
    if Width(item) < field then field - Width(item) else 0
  }

  function Body(item: Item): seq<Char16> {
    Repeat(item.pad, Width(item) - Shown(item)) + item.text[..Shown(item)]
  }

  // An item cut to its field width, padded to its width, and with spaces to its field width.
  function ItemText(item: Item): seq<Char16> {
    var spaces := Repeat(SPACE, Spaces(item));
    if item.padBefore then spaces + Body(item) else Body(item) + spaces
  }

  // Where the padding and where the text of an item begin.
  function BodyAt(item: Item): nat {
    if item.padBefore then Spaces(item) else 0
  }

  function TextAt(item: Item): nat {
    BodyAt(item) + Width(item) - Shown(item)
  }

  /**
   * An item, character by character: the first characters of its text that its field width lets in, padding in
   * front of them up to its width, and spaces on the side asked for up to its field width, if one is given.
   */
  lemma ItemWidth(item: Item)
    ensures Shown(item) == if |item.text| <= item.fieldWidth then |item.text| else item.fieldWidth
    ensures Width(item) == Max(Shown(item), item.width)
    ensures |ItemText(item)| == Max(Width(item), if item.fieldWidth == UNSET then 0 else item.fieldWidth)
    ensures |ItemText(item)| == Width(item) + Spaces(item)
    ensures forall i :: 0 <= i < |ItemText(item)| ==>
              ItemText(item)[i] ==
                if i < BodyAt(item) || BodyAt(item) + Width(item) <= i then SPACE
                else if i < TextAt(item) then item.pad
                else item.text[i - TextAt(item)]
  {
  }

  datatype Piece = Char(c: Char16) | Field(item: Item)

  function PieceText(piece: Piece): seq<Char16> {
    match piece
    case Char(c) => [c]
    case Field(item) => ItemText(item)
  }

  function Text(pieces: seq<Piece>): seq<Char16> {
    if pieces == [] then [] else Text(pieces[..|pieces| - 1]) + PieceText(pieces[|pieces| - 1])
  }

  lemma {:induction false} ExpandConcat(a: seq<Char16>, b: seq<Char16>)
    ensures Expand(a + b) == Expand(a) + Expand(b)
    decreases |b|
  {
    if b == [] {
      assert a + b == a;
    } else {
      assert (a + b)[..|a + b| - 1] == a + b[..|b| - 1];
      ExpandConcat(a, b[..|b| - 1]);
    }
  }

  lemma ExpandStep(text: seq<Char16>, i: nat)
    requires i < |text|
    ensures Expand(text[..i + 1]) == Expand(text[..i]) + Out(text[i])
    ensures |Expand(text[..i + 1])| <= |Expand(text)|
  {
    assert text[..i + 1][..i] == text[..i];
    assert text == text[..i + 1] + text[i + 1..];
    ExpandConcat(text[..i + 1], text[i + 1..]);
  }

  // Text put in two parts.
  lemma ExpandTwo(before: seq<Char16>, a: seq<Char16>, b: seq<Char16>, middle: seq<Char16>, behind: seq<Char16>)
    requires middle == before + Expand(a) && behind == middle + Expand(b)
    ensures behind == before + Expand(a + b) && |middle| <= |behind|
  {
    ExpandConcat(a, b);
  }

  lemma ExpandOne(c: Char16)
    ensures Expand([c]) == Out(c)
  {
    assert [c][..0] == [];
  }

  lemma TextLast(front: seq<Piece>, last: Piece)
    ensures Text(front + [last]) == Text(front) + PieceText(last)
  {
    assert (front + [last])[..|front|] == front;
  }

  lemma {:induction false} TextConcat(a: seq<Piece>, b: seq<Piece>)
    ensures Text(a + b) == Text(a) + Text(b)
    decreases |b|
  {
    if b == [] {
      assert a + b == a;
    } else {
      var front, last := b[..|b| - 1], b[|b| - 1];
      assert b == front + [last] && a + b == (a + front) + [last];
      TextConcat(a, front);
      TextLast(a + front, last);
      TextLast(front, last);
      Regroup(Text(a), Text(front), PieceText(last));
    }
  }

  lemma TextStep(pieces: seq<Piece>, i: nat)
    requires i < |pieces|
    ensures Expand(Text(pieces[..i + 1])) == Expand(Text(pieces[..i])) + Expand(PieceText(pieces[i]))
    ensures |Expand(Text(pieces[..i + 1]))| <= |Expand(Text(pieces))|
  {
    assert pieces[..i + 1][..i] == pieces[..i];
    assert pieces == pieces[..i + 1] + pieces[i + 1..];
    TextConcat(pieces[..i + 1], pieces[i + 1..]);
    ExpandConcat(Text(pieces[..i + 1]), Text(pieces[i + 1..]));
    ExpandConcat(Text(pieces[..i]), PieceText(pieces[i]));
  }

  // ----- Truncation -----

  function Take(text: seq<Char16>, n: nat): seq<Char16> {
    if |text| <= n then text else text[..n]
  }

  /** Truncating chunk by chunk is truncating the whole. */
  lemma TakeConcat(a: seq<Char16>, b: seq<Char16>, n: nat)
    ensures Take(Take(a, n) + b, n) == Take(a + b, n)
  {
  }
}
