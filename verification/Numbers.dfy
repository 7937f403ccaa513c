// Numbers to text and back: gnu-efi/lib/print.c, gnu-efi/lib/str.c.

module Numbers {
  import opened Units
  import opened Printing

  const LIMIT := 0x1_0000_0000_0000_0000
  const ZERO: Char16 := 0x30
  const MINUS: Char16 := 0x2D
  const COMMA: Char16 := 0x2C
  const SPACE: Char16 := 0x20

  // The digits of v, most significant first; none of zero.
  function Digits(v: nat, base: nat): (r: seq<nat>)
    requires base >= 2
    ensures forall i :: 0 <= i < |r| ==> r[i] < base
    ensures v > 0 ==> r != []
    decreases v, base
  {
    if v == 0 then [] else Digits(v / base, base) + [v % base]
  }

  function Power(base: nat, n: nat): nat
    decreases n, base
  {
    if n == 0 then 1 else base * Power(base, n - 1)
  }

  lemma {:induction false} DigitsBounded(v: nat, base: nat, n: nat)
    requires base >= 2 && v < Power(base, n)
    ensures |Digits(v, base)| <= n
    decreases n
  {
    if v > 0 {
      Quotient(v, base, Power(base, n - 1));
      DigitsBounded(v / base, base, n - 1);
    }
  }

  lemma Quotient(v: nat, base: nat, p: nat)
    requires base >= 2 && v < base * p
    ensures v / base < p
  {
    if p <= v / base {
      Monotone(base, p, v / base);
    }
  }

  lemma Monotone(base: nat, p: nat, q: nat)
    requires p <= q
    ensures base * p <= base * q
  {
  }

  lemma PowerValues()
    ensures Power(16, 16) == LIMIT && Power(10, 20) == 100000000000000000000
  {
    assert Power(16, 4) == 0x10000;
    assert Power(16, 8) == 0x100000000;
    assert Power(16, 12) == 0x1000000000000;
    assert Power(10, 4) == 10000;
    assert Power(10, 8) == 100000000;
    assert Power(10, 12) == 1000000000000;
    assert Power(10, 16) == 10000000000000000;
  }

  // ----- Hexadecimal -----

  function HexChar(d: nat): Char16
    requires d < 16
  {
    if d < 10 then ZERO + d else 0x41 + (d - 10)
  }

  function HexChars(digits: seq<nat>): (r: seq<Char16>)
    requires forall i :: 0 <= i < |digits| ==> digits[i] < 16
    ensures |r| == |digits| && forall i :: 0 <= i < |r| ==> r[i] == HexChar(digits[i])
  {
    seq(|digits|, i requires 0 <= i < |digits| => HexChar(digits[i]))
  }

  function HexText(v: nat): seq<Char16> {
    if v == 0 then [ZERO] else HexChars(Digits(v, 16))
  }

  // The value of a hexadecimal digit in either case; sixteen for anything else.
  function HexDigit(c: Char16): nat {
    if 0x30 <= c <= 0x39 then c - 0x30
    else if 0x41 <= c <= 0x46 then c - 0x41 + 10
    else if 0x61 <= c <= 0x66 then c - 0x61 + 10
    else 16
  }

  function Unspaced(text: seq<Char16>): seq<Char16> {
    if text != [] && text[0] == SPACE then Unspaced(text[1..]) else text
  }

  // The digits up to the first other character, behind those already read.
  function ReadHex(u: nat, text: seq<Char16>): nat
    decreases |text|
  {
    if text == [] || HexDigit(text[0]) == 16 then u
    else ReadHex((u * 16) % LIMIT + HexDigit(text[0]), text[1..])
  }

  lemma HexLast(v: nat, c: Char16)
    requires v > 0 && c == HexChar(v % 16)
    ensures HexChars(Digits(v, 16)) == HexChars(Digits(v / 16, 16)) + [c]
  {
  }

  lemma ReadHexOne(u: nat, c: Char16, rest: seq<Char16>)
    requires HexDigit(c) < 16
    ensures ReadHex(u, [c] + rest) == ReadHex((u * 16) % LIMIT + HexDigit(c), rest)
  {
    assert ([c] + rest)[1..] == rest;
  }

  lemma HexCharDigit(d: nat)
    requires d < 16
    ensures HexDigit(HexChar(d)) == d
  {
  }

  lemma {:induction false} ReadHexDigits(v: nat, rest: seq<Char16>)
    requires v < LIMIT
    ensures ReadHex(0, HexChars(Digits(v, 16)) + rest) == ReadHex(v, rest)
    decreases v
  {
    if v == 0 {
      assert HexChars(Digits(v, 16)) + rest == rest;
      return;
    }
    var c := HexChar(v % 16);
    HexLast(v, c);
    assert HexChars(Digits(v / 16, 16)) + [c] + rest == HexChars(Digits(v / 16, 16)) + ([c] + rest);
    ReadHexDigits(v / 16, [c] + rest);
    HexCharDigit(v % 16);
    ReadHexOne(v / 16, c, rest);
    Rejoined(v);
  }

  lemma Rejoined(v: nat)
    requires v < LIMIT
    ensures (v / 16 * 16) % LIMIT + v % 16 == v && (v / 10 * 10) % LIMIT + v % 10 == v
  {
    assert v / 16 * 16 < LIMIT && v / 10 * 10 < LIMIT;
  }

  /** xtoi undoes ValueToHex. */
  lemma HexRoundTrip(v: nat)
    requires v < LIMIT
    ensures ReadHex(0, Unspaced(HexText(v))) == v
  {
    if v > 0 {
      ReadHexDigits(v, []);
      assert HexChars(Digits(v, 16)) + [] == HexText(v);
    } else {
      assert ReadHex(0, [ZERO]) == ReadHex(0, []);
    }
  }

  method ValueToHex(buffer: array<Char16>, v0: nat)
    requires v0 < LIMIT && buffer.Length > 16
    modifies buffer
    ensures Holds(buffer[..], HexText(v0))
  {
    if v0 == 0 {
      buffer[0], buffer[1] := ZERO, 0;
      return;
    }
    // The digits, least significant first; str has thirty characters.
    var str: seq<Char16> := [];
    var v := v0;
    while v != 0
      invariant HexText(v0) == HexChars(Digits(v, 16)) + Reversed(str)
      decreases v
    {
      HexLast(v, HexChar(v % 16));
      MoveOver(HexChars(Digits(v / 16, 16)), HexChar(v % 16), str);
      str := str + [HexChar(v % 16)];
      v := v / 16;
    }
    assert |str| <= 16 by {
      PowerValues();
      DigitsBounded(v0, 16, 16);
    }
    WriteReversed(buffer, 0, str);
  }

  function Reversed(s: seq<Char16>): (r: seq<Char16>)
    ensures |r| == |s| && forall i :: 0 <= i < |s| ==> r[i] == s[|s| - 1 - i]
  {
    if s == [] then [] else [s[|s| - 1]] + Reversed(s[..|s| - 1])
  }

  // The last character read off is the next behind.
  lemma MoveOver(front: seq<Char16>, c: Char16, str: seq<Char16>)
    ensures front + [c] + Reversed(str) == front + Reversed(str + [c])
  {
    assert (str + [c])[..|str|] == str;
  }

  // The copying loop: str backwards into the buffer from `at` on, and a NUL.
  method WriteReversed(buffer: array<Char16>, at: nat, str: seq<Char16>)
    requires at + |str| < buffer.Length
    modifies buffer
    ensures buffer[..at] == old(buffer[..at]) && buffer[at..at + |str|] == Reversed(str) && buffer[at + |str|] == 0
  {
    var p1, p2 := |str|, at;
    while p1 != 0
      invariant 0 <= p1 <= |str| && p2 == at + |str| - p1
      invariant buffer[..at] == old(buffer[..at])
      invariant forall i :: at <= i < p2 ==> buffer[i] == Reversed(str)[i - at]
      decreases p1
    {
      p1 := p1 - 1;
      buffer[p2] := str[p1];
      p2 := p2 + 1;
    }
    buffer[p2] := 0;
  }

  method Xtoi(text: seq<Char16>) returns (u: nat)
    requires IsText(text)
    ensures u == ReadHex(0, Unspaced(text))
  {
    var str := SkipSpaces(text);
    u := 0;
    while str < |text|
      invariant str <= |text| && ReadHex(0, Unspaced(text)) == ReadHex(u, text[str..])
    {
      ReadHexAt(u, text, str, str + 1);
      var c := text[str];
      if 0x61 <= c <= 0x66 {
        c := c - 0x20;
      }
      if 0x30 <= c <= 0x39 || 0x41 <= c <= 0x46 {
        u := (u * 16) % LIMIT + (c - (if c >= 0x41 then 0x41 - 10 else 0x30));
      } else {
        return;
      }
      str := str + 1;
    }
  }

  lemma ReadHexAt(u: nat, text: seq<Char16>, i: nat, next: nat)
    requires i < |text| && next == i + 1
    ensures var d := HexDigit(text[i]);
            ReadHex(u, text[i..]) == if d == 16 then u else ReadHex((u * 16) % LIMIT + d, text[next..])
  {
    assert text[i..][1..] == text[next..];
  }

  method SkipSpaces(text: seq<Char16>) returns (str: nat)
    ensures str <= |text| && text[str..] == Unspaced(text)
  {
    str := 0;
    while str < |text| && text[str] == SPACE
      invariant str <= |text| && Unspaced(text[str..]) == Unspaced(text)
    {
      assert text[str..][1..] == text[str + 1..];
      str := str + 1;
    }
  }
}
