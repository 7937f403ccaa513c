// What numbers look like as text: gnu-efi/lib/print.c, ValueToHex and ValueToString.

module NumberTexts {
  import opened Units
  import opened Numbers
  import opened Decimals

  predicate IsHexChar(c: Char16) {
    0x30 <= c <= 0x39 || 0x41 <= c <= 0x46
  }

  predicate IsDecChar(c: Char16) {
    0x30 <= c <= 0x39
  }

  /** Digits and capital letters, without a leading zero. */
  lemma HexTextExact(v: nat)
    ensures HexText(v) != [] && forall i :: 0 <= i < |HexText(v)| ==> IsHexChar(HexText(v)[i])
    ensures HexText(v)[0] == 0x30 <==> v == 0
  {
    if v > 0 {
      LeadingDigit(v, 16);
    }
  }

  lemma {:induction false} LeadingDigit(v: nat, base: nat)
    requires base >= 2 && v > 0
    ensures Digits(v, base) != [] && Digits(v, base)[0] > 0
    decreases v
  {
    if v / base > 0 {
      LeadingDigit(v / base, base);
    } else {
      assert Digits(0, base) == [];
      assert v % base == v;
    }
  }

  // ----- Decimal -----

  // A decimal number without its sign.
  function Magnitude(v: int): nat {
    if v < 0 then -v else v
  }

  function Unsigned(text: seq<Char16>): seq<Char16> {
    if text != [] && text[0] == MINUS then text[1..] else text
  }

  // The commas taken out.
  function Ungrouped(text: seq<Char16>): seq<Char16> {
    if text == [] then [] else (if text[0] == COMMA then [] else [text[0]]) + Ungrouped(text[1..])
  }

  // What a decimal text stands for.
  function Value(text: seq<Char16>): int {
    var u: int := ReadDec(0, Ungrouped(Unsigned(text)));
    if text != [] && text[0] == MINUS then -u else u
  }

  lemma UngroupedFirst(c: Char16, rest: seq<Char16>)
    ensures Ungrouped([c] + rest) == (if c == COMMA then [] else [c]) + Ungrouped(rest)
  {
    assert ([c] + rest)[1..] == rest;
  }

  lemma {:induction false} CommasOut(digits: seq<nat>, first: bool, comma: bool)
    requires AreDigits(digits)
    ensures Ungrouped(Grouped(digits, first, comma)) == Grouped(digits, first, false)
    decreases |digits|
  {
    if digits != [] {
      CommasOut(digits[1..], false, comma);
      FirstOut(ZERO + digits[0], Grouped(digits[1..], false, comma), comma && !first && |digits| % 3 == 0,
               Grouped(digits, first, comma));
    }
  }

  lemma FirstOut(c: Char16, rest: seq<Char16>, due: bool, text: seq<Char16>)
    requires c != COMMA && text == (if due then [COMMA] else []) + [c] + rest
    ensures Ungrouped(text) == [c] + Ungrouped(rest)
  {
    UngroupedFirst(c, rest);
    if due {
      UngroupedFirst(COMMA, [c] + rest);
      assert text == [COMMA] + ([c] + rest);
    } else {
      assert text == [c] + rest;
    }
  }

  // Where the commas are: before every third digit from the end.
  predicate CommasAt(text: seq<Char16>, comma: bool) {
    forall i :: 0 <= i < |text| ==>
      if comma && (|text| - i) % 4 == 0 then text[i] == COMMA else IsDecChar(text[i])
  }

  lemma {:induction false} GroupedShape(digits: seq<nat>, first: bool, comma: bool)
    requires AreDigits(digits)
    ensures |Grouped(digits, first, comma)| == |digits| + CommaCount(|digits|, first, comma)
    ensures CommasAt(Grouped(digits, first, comma), comma)
    decreases |digits|
  {
    if digits != [] {
      GroupedShape(digits[1..], false, comma);
      FirstShape(digits[0], Grouped(digits[1..], false, comma), |digits|, first, comma, Grouped(digits, first, comma));
    }
  }

  function CommaCount(n: nat, first: bool, comma: bool): nat {
    if !comma || n == 0 then 0 else if first then (n - 1) / 3 else n / 3
  }

  lemma FirstShape(d: nat, rest: seq<Char16>, n: nat, first: bool, comma: bool, text: seq<Char16>)
    requires d < 10 && n > 0 && CommasAt(rest, comma) && |rest| == n - 1 + CommaCount(n - 1, false, comma)
    requires text == (if comma && !first && n % 3 == 0 then [COMMA] else []) + [ZERO + d] + rest
    ensures |text| == n + CommaCount(n, first, comma) && CommasAt(text, comma)
  {
    var one := [ZERO + d] + rest;
    CommaFalls(n, comma);
    OneInFront(ZERO + d, rest, comma, one);
    if comma && !first && n % 3 == 0 {
      assert text == [COMMA] + one;
      OneInFront(COMMA, one, comma, text);
    } else {
      assert text == one;
    }
  }

  lemma CommaFalls(n: nat, comma: bool)
    requires n > 0
    ensures comma ==> (n + CommaCount(n - 1, false, comma)) % 4 != 0
    ensures comma && n % 3 == 0 ==> (n + 1 + CommaCount(n - 1, false, comma)) % 4 == 0
    ensures comma && n % 3 != 0 ==> CommaCount(n - 1, false, comma) == CommaCount(n, false, comma)
  {
  }

  lemma OneInFront(c: Char16, rest: seq<Char16>, comma: bool, text: seq<Char16>)
    requires CommasAt(rest, comma) && text == [c] + rest
    requires if comma && |text| % 4 == 0 then c == COMMA else IsDecChar(c)
    ensures CommasAt(text, comma)
  {
    forall i | 0 <= i < |text|
      ensures if comma && (|text| - i) % 4 == 0 then text[i] == COMMA else IsDecChar(text[i])
    {
      assert i > 0 ==> text[i] == rest[i - 1] && |text| - i == |rest| - (i - 1);
    }
  }

  lemma MagnitudeText(m: nat, comma: bool, text: seq<Char16>)
    requires 0 < m < LIMIT && text == Grouped(Digits(m, 10), true, comma)
    ensures text != [] && CommasAt(text, comma) && IsDecChar(text[0]) && text[0] != 0x30
    ensures ReadDec(0, Ungrouped(text)) == m
  {
    var digits := Digits(m, 10);
    LeadingDigit(m, 10);
    GroupedShape(digits, true, comma);
    CommasOut(digits, true, comma);
    ReadPlain(m, true, []);
    assert Grouped(digits, true, false) + [] == Grouped(digits, true, false);
    assert text[0] == ZERO + digits[0];
  }

  lemma ZeroText()
    ensures Ungrouped([ZERO]) == [ZERO] && ReadDec(0, [ZERO]) == 0
  {
    assert Ungrouped([ZERO]) == [ZERO] + Ungrouped([]);
    assert ReadDec(0, [ZERO]) == ReadDec(0, []);
  }

  /**
   * A number as text: a minus sign exactly if it is negative, then digits without a leading zero, with a comma
   * before every third from the end if asked for, and it stands for just that number.
   */
  lemma DecTextExact(v: int, comma: bool)
    requires -0x8000_0000_0000_0000 <= v < 0x1_0000_0000_0000_0000
    ensures Value(DecText(v, comma)) == v
    ensures DecText(v, comma) != [] && (DecText(v, comma)[0] == MINUS <==> v < 0)
    ensures var digits := Unsigned(DecText(v, comma));
            digits != [] && CommasAt(digits, comma) && IsDecChar(digits[0]) && (digits[0] == 0x30 <==> v == 0)
  {
    if v == 0 {
      ZeroText();
    } else {
      var text := Grouped(Digits(Magnitude(v), 10), true, comma);
      MagnitudeText(Magnitude(v), comma, text);
      if v < 0 {
        assert DecText(v, comma) == [MINUS] + text;
        assert ([MINUS] + text)[1..] == text;
      } else {
        assert DecText(v, comma) == text;
      }
    }
  }

  // ----- Reading -----

  // What a string of digits stands for, whatever its length.
  function Positional(values: seq<nat>, base: nat): nat {
    if values == [] then 0 else base * Positional(values[..|values| - 1], base) + values[|values| - 1]
  }

  // 0 to 9, then A to F or a to f.
  predicate SpellsDigit(c: Char16, d: nat) {
    if d < 10 then c == 0x30 + d else c == 0x41 + (d - 10) || c == 0x61 + (d - 10)
  }

  predicate SpellsDigits(text: seq<Char16>, values: seq<nat>, base: nat) {
    |text| == |values| && forall i :: 0 <= i < |text| ==> values[i] < base && SpellsDigit(text[i], values[i])
  }

  lemma SpellsFront(text: seq<Char16>, values: seq<nat>, base: nat)
    requires SpellsDigits(text, values, base) && text != []
    ensures SpellsDigits(text[..|text| - 1], values[..|values| - 1], base)
  {
  }

  lemma {:induction false} ReadDecFront(u: nat, front: seq<Char16>, rest: seq<Char16>)
    requires forall i :: 0 <= i < |front| ==> IsDecChar(front[i])
    ensures ReadDec(u, front + rest) == ReadDec(ReadDec(u, front), rest)
    decreases |front|
  {
    if front == [] {
      assert front + rest == rest;
    } else {
      var next := (u * 10 + (front[0] - 0x30)) % LIMIT;
      assert (front + rest)[1..] == front[1..] + rest;
      ReadDecFront(next, front[1..], rest);
    }
  }

  lemma OneDec(u: nat, c: Char16, d: nat, rest: seq<Char16>)
    requires c == 0x30 + d && d < 10 && (rest == [] || !IsDecChar(rest[0]))
    ensures ReadDec(u, [c] + rest) == (u * 10 + d) % LIMIT
  {
    assert ([c] + rest)[1..] == rest;
  }

  lemma CarriedDec(x: nat, u: nat, d: nat)
    requires u == x % LIMIT
    ensures (u * 10 + d) % LIMIT == (10 * x + d) % LIMIT
  {
    var q := x / LIMIT;
    assert x == q * LIMIT + u;
    SameRest(u * 10 + d, 10 * x + d, 10 * q);
  }

  lemma CarriedHex(x: nat, u: nat, d: nat)
    requires u == x % LIMIT
    ensures (u * 16 + d) % LIMIT == (16 * x + d) % LIMIT
  {
    var q := x / LIMIT;
    assert x == q * LIMIT + u;
    SameRest(u * 16 + d, 16 * x + d, 16 * q);
  }

  lemma SameRest(a: nat, b: nat, k: nat)
    requires b == a + k * LIMIT
    ensures a % LIMIT == b % LIMIT
  {
  }

  // One digit more.
  lemma ReadDecOn(front: seq<Char16>, c: Char16, rest: seq<Char16>, x: nat, u: nat, d: nat)
    requires (forall i :: 0 <= i < |front| ==> IsDecChar(front[i])) && ReadDec(0, front) == u == x % LIMIT
    requires c == 0x30 + d && d < 10 && (rest == [] || !IsDecChar(rest[0]))
    ensures ReadDec(0, front + ([c] + rest)) == (10 * x + d) % LIMIT
  {
    ReadDecFront(0, front, [c] + rest);
    OneDec(u, c, d, rest);
    CarriedDec(x, u, d);
  }

  /** Atoi reads the leading decimal digits, whatever follows them, as the number they stand for, modulo 2^64. */
  lemma {:induction false} ReadDecExact(text: seq<Char16>, values: seq<nat>, rest: seq<Char16>)
    requires SpellsDigits(text, values, 10) && (rest == [] || !IsDecChar(rest[0]))
    ensures ReadDec(0, text + rest) == Positional(values, 10) % LIMIT
    decreases |text|
  {
    if text == [] {
      assert text + rest == rest;
    } else {
      var n := |text| - 1;
      var front, c, d := text[..n], text[n], values[n];
      SpellsFront(text, values, 10);
      ReadDecExact(front, values[..n], []);
      assert front + [] == front;
      assert text + rest == front + ([c] + rest);
      ReadDecOn(front, c, rest, Positional(values[..n], 10), ReadDec(0, front), d);
    }
  }

  predicate StartsHex(text: seq<Char16>) {
    text != [] && (0x30 <= text[0] <= 0x39 || 0x41 <= text[0] <= 0x46 || 0x61 <= text[0] <= 0x66)
  }

  lemma {:induction false} ReadHexFront(u: nat, front: seq<Char16>, rest: seq<Char16>)
    requires forall i :: 0 <= i < |front| ==> HexDigit(front[i]) < 16
    ensures ReadHex(u, front + rest) == ReadHex(ReadHex(u, front), rest)
    decreases |front|
  {
    if front == [] {
      assert front + rest == rest;
    } else {
      assert (front + rest)[1..] == front[1..] + rest;
      ReadHexFront((u * 16) % LIMIT + HexDigit(front[0]), front[1..], rest);
    }
  }

  // The digit is added behind the remainder: sixteen divides 2^64.
  lemma OneHex(u: nat, c: Char16, d: nat, rest: seq<Char16>)
    requires SpellsDigits([c], [d], 16) && u < LIMIT && !StartsHex(rest)
    ensures HexDigit(c) == d && ReadHex(u, [c] + rest) == (u * 16 + d) % LIMIT
  {
    assert [c][0] == c && [d][0] == d;
    assert ([c] + rest)[1..] == rest;
    Sixteenth(u, d);
  }

  lemma Sixteenth(u: nat, d: nat)
    requires d < 16
    ensures (u * 16) % LIMIT + d == (u * 16 + d) % LIMIT
  {
    assert (u * 16) % LIMIT % 16 == 0;
  }

  lemma ReadHexOn(front: seq<Char16>, values: seq<nat>, c: Char16, rest: seq<Char16>, x: nat, u: nat, d: nat)
    requires SpellsDigits(front, values, 16) && ReadHex(0, front) == u == x % LIMIT
    requires SpellsDigits([c], [d], 16) && !StartsHex(rest)
    ensures ReadHex(0, front + ([c] + rest)) == (16 * x + d) % LIMIT
  {
    HexDigitsRead(front, values);
    ReadHexFront(0, front, [c] + rest);
    OneHex(u, c, d, rest);
    CarriedHex(x, u, d);
  }

  /** xtoi reads the leading hexadecimal digits, of either case, as the number they stand for, modulo 2^64. */
  lemma {:induction false} ReadHexExact(text: seq<Char16>, values: seq<nat>, rest: seq<Char16>)
    requires SpellsDigits(text, values, 16) && !StartsHex(rest)
    ensures ReadHex(0, text + rest) == Positional(values, 16) % LIMIT
    decreases |text|
  {
    if text == [] {
      assert text + rest == rest;
    } else {
      var n := |text| - 1;
      var front, c, d := text[..n], text[n], values[n];
      SpellsFront(text, values, 16);
      ReadHexExact(front, values[..n], []);
      assert front + [] == front;
      assert text + rest == front + ([c] + rest);
      ReadHexOn(front, values[..n], c, rest, Positional(values[..n], 16), ReadHex(0, front), d);
    }
  }

  lemma HexDigitsRead(text: seq<Char16>, values: seq<nat>)
    requires SpellsDigits(text, values, 16)
    ensures forall i :: 0 <= i < |text| ==> HexDigit(text[i]) < 16
  {
  }
}
