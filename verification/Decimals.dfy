// Decimal numbers to text and back: gnu-efi/lib/print.c, gnu-efi/lib/str.c.

module Decimals {
  import opened Units
  import opened Printing
  import opened Numbers

  predicate AreDigits(digits: seq<nat>) {
    forall i :: 0 <= i < |digits| ==> digits[i] < 10
  }

  // The digits, with a comma before every third from the end but the first.
  function Grouped(digits: seq<nat>, first: bool, comma: bool): (r: seq<Char16>)
    requires AreDigits(digits)
    ensures |digits| <= |r| <= 2 * |digits| && IsText(r)
  {
    if digits == [] then []
    else (if comma && !first && |digits| % 3 == 0 then [COMMA] else []) + [ZERO + digits[0]]
         + Grouped(digits[1..], false, comma)
  }

  function DecText(v: int, comma: bool): seq<Char16> {
    if v == 0 then [ZERO]
    else (if v < 0 then [MINUS] else []) + Grouped(Digits(if v < 0 then -v else v, 10), true, comma)
  }

  function ReadDec(u: nat, text: seq<Char16>): nat
    decreases |text|
  {
    if text == [] || !(0x30 <= text[0] <= 0x39) then u
    else ReadDec((u * 10 + (text[0] - 0x30)) % LIMIT, text[1..])
  }

  method Atoi(text: seq<Char16>) returns (u: nat)
    requires IsText(text)
    ensures u == ReadDec(0, Unspaced(text))
  {
    var str := SkipSpaces(text);
    u := 0;
    while str < |text|
      invariant str <= |text| && ReadDec(0, Unspaced(text)) == ReadDec(u, text[str..])
    {
      ReadDecAt(u, text, str, str + 1);
      var c := text[str];
      if 0x30 <= c <= 0x39 {
        u := (u * 10 + c - 0x30) % LIMIT;
      } else {
        return;
      }
      str := str + 1;
    }
  }

  lemma ReadDecAt(u: nat, text: seq<Char16>, i: nat, next: nat)
    requires i < |text| && next == i + 1
    ensures ReadDec(u, text[i..]) ==
              if 0x30 <= text[i] <= 0x39 then ReadDec((u * 10 + (text[i] - 0x30)) % LIMIT, text[next..]) else u
  {
    assert text[i..][1..] == text[next..];
  }

  // ----- Reading back -----

  lemma ReadDecOne(u: nat, d: nat, rest: seq<Char16>)
    requires d < 10
    ensures ReadDec(u, [ZERO + d] + rest) == ReadDec((u * 10 + d) % LIMIT, rest)
  {
    assert ([ZERO + d] + rest)[1..] == rest;
  }

  lemma {:induction false} PlainConcat(a: seq<nat>, d: nat, first: bool)
    requires AreDigits(a) && d < 10
    ensures AreDigits(a + [d]) && Grouped(a + [d], first, false) == Grouped(a, first, false) + [ZERO + d]
  {
    if a != [] {
      PlainConcat(a[1..], d, false);
      assert (a + [d])[1..] == a[1..] + [d];
    }
  }

  lemma {:induction false} ReadPlain(v: nat, first: bool, rest: seq<Char16>)
    requires v < LIMIT
    ensures ReadDec(0, Grouped(Digits(v, 10), first, false) + rest) == ReadDec(v, rest)
    decreases v
  {
    if v == 0 {
      assert Grouped(Digits(v, 10), first, false) + rest == rest;
      return;
    }
    var q, d := v / 10, v % 10;
    PlainConcat(Digits(q, 10), d, first);
    Regroup(Grouped(Digits(q, 10), first, false), [ZERO + d], rest);
    ReadPlain(q, first, [ZERO + d] + rest);
    ReadDecOne(q, d, rest);
    Rejoin(v, q, d);
  }

  lemma Rejoin(v: nat, q: nat, d: nat)
    requires v < LIMIT && q == v / 10 && d == v % 10
    ensures (q * 10 + d) % LIMIT == v
  {
    assert q * 10 + d == v;
  }

  // Behind the first group, of which r digits are left, there is a comma or nothing.
  lemma {:induction false} FirstGroup(u: nat, digits: seq<nat>, r: nat)
    requires AreDigits(digits) && r == |digits| % 3
    requires u < (if r == 0 then 1000 else if r == 1 then 100 else 10)
    ensures ReadDec(u, Grouped(digits, false, true)) < 1000
    decreases r
  {
    if digits != [] && r != 0 {
      var rest := Grouped(digits[1..], false, true);
      assert Grouped(digits, false, true) == [ZERO + digits[0]] + rest;
      ReadDecOne(u, digits[0], rest);
      var next := u * 10 + digits[0];
      SmallRemains(next);
      FirstGroup(next, digits[1..], r - 1);
    }
  }

  lemma SmallRemains(u: nat)
    requires u < 1000
    ensures u % LIMIT == u
  {
  }

  lemma {:induction false} NoComma(digits: seq<nat>, first: bool)
    requires AreDigits(digits) && |digits| <= (if first then 3 else 2)
    ensures Grouped(digits, first, true) == Grouped(digits, first, false)
  {
    if digits != [] {
      NoComma(digits[1..], false);
    }
  }

  lemma SmallHasThreeDigits(v: nat)
    requires v < 1000
    ensures |Digits(v, 10)| <= 3
  {
    assert Power(10, 3) == 1000;
    DigitsBounded(v, 10, 3);
  }

  lemma ReadGrouped(v: nat)
    requires 0 < v < LIMIT
    ensures ReadDec(0, Grouped(Digits(v, 10), true, true)) == v <==> v < 1000
  {
    var digits := Digits(v, 10);
    if v < 1000 {
      SmallHasThreeDigits(v);
      NoComma(digits, true);
      ReadPlain(v, true, []);
      assert Grouped(digits, true, false) + [] == Grouped(digits, true, false);
    } else {
      GroupedBelow(digits);
    }
  }

  // What is read of a grouped number is its first group.
  lemma GroupedBelow(digits: seq<nat>)
    requires AreDigits(digits) && digits != []
    ensures ReadDec(0, Grouped(digits, true, true)) < 1000
  {
    var rest := Grouped(digits[1..], false, true);
    assert Grouped(digits, true, true) == [ZERO + digits[0]] + rest;
    ReadDecOne(0, digits[0], rest);
    SmallRemains(digits[0]);
    FirstGroup(digits[0], digits[1..], (|digits| - 1) % 3);
  }

  lemma DecTextUnspaced(v: int, comma: bool)
    ensures Unspaced(DecText(v, comma)) == DecText(v, comma)
  {
    if v > 0 {
      var digits := Digits(v, 10);
      assert Grouped(digits, true, comma)[0] == ZERO + digits[0];
    }
  }

  /** Atoi undoes ValueToString exactly on the numbers that are neither negative nor grouped. */
  lemma DecRoundTripExact(v: int, comma: bool)
    requires -0x8000_0000_0000_0000 <= v < 0x8000_0000_0000_0000
    ensures ReadDec(0, Unspaced(DecText(v, comma))) == v <==> v >= 0 && (!comma || v < 1000)
  {
    DecTextUnspaced(v, comma);
    if v == 0 {
      assert ReadDec(0, [ZERO]) == ReadDec(0, []);
    } else if v > 0 && comma {
      ReadGrouped(v);
      assert DecText(v, comma) == Grouped(Digits(v, 10), true, true);
    } else if v > 0 {
      ReadPlain(v, true, []);
      assert DecText(v, comma) == Grouped(Digits(v, 10), true, false) + [];
    }
  }

  // ----- The program -----

  // The digits of a number as characters, least significant first.
  predicate Spells(str: seq<Char16>, digits: seq<nat>) {
    AreDigits(digits) && |str| == |digits| && forall i :: 0 <= i < |str| ==> str[i] == ZERO + digits[|digits| - 1 - i]
  }

  lemma OneMoreDigit(str: seq<Char16>, digits: seq<nat>, d: nat)
    requires Spells(str, digits) && d < 10
    ensures Spells(str + [d + ZERO], [d] + digits)
  {
  }

  method DigitsBackwards(v0: nat) returns (str: seq<Char16>)
    requires v0 <= 0x8000_0000_0000_0000
    ensures Spells(str, Digits(v0, 10)) && |str| <= 20
  {
    str := [];
    ghost var digits := Digits(v0, 10);
    ghost var done: seq<nat> := [];
    var v := v0;
    while v != 0
      invariant v >= 0 && digits == Digits(v, 10) + done && Spells(str, done)
      decreases v
    {
      OneMoreDigit(str, done, v % 10);
      done := [v % 10] + done;
      str := str + [v % 10 + ZERO];
      v := v / 10;
    }
    PowerValues();
    DigitsBounded(v0, 10, 20);
  }

  // The group counter before digit i: one when a comma is due.
  predicate Counts(c: nat, n: nat, i: nat, comma: bool) {
    if !comma then c == 1000 - i
    else if i == 0 then c == (if n % 3 == 0 then 3 else n % 3) + 1
    else c == (n - i) % 3 + 1
  }

  lemma CountsDown(c: nat, n: nat, i: nat, comma: bool)
    requires i < n <= 20 && Counts(c, n, i, comma)
    ensures c > 0 && (c == 1 <==> comma && i > 0 && (n - i) % 3 == 0)
    ensures Counts(if c == 1 then 3 else c - 1, n, i + 1, comma)
  {
  }

  // The text so far, with the groups of the digits from k on, is the whole.
  predicate Written(done: seq<Char16>, digits: seq<nat>, k: nat, comma: bool, whole: seq<Char16>) {
    k <= |digits| && AreDigits(digits) && done + Grouped(digits[k..], k == 0, comma) == whole
  }

  method WriteGrouped(buffer: array<Char16>, at: nat, str: seq<Char16>, comma: bool, ghost digits: seq<nat>)
    returns (p2: nat)
    requires Spells(str, digits) && |str| <= 20 && at + 2 * |str| < buffer.Length
    modifies buffer
    ensures at <= p2 < buffer.Length && buffer[p2] == 0
    ensures buffer[..p2] == old(buffer[..at]) + Grouped(digits, true, comma)
  {
    ghost var n, whole := |str|, buffer[..at] + Grouped(digits, true, comma);
    ghost var k: nat := 0;
    var p1: nat := |str|;
    p2 := at;
    var c: nat := (if comma then (if |str| % 3 == 0 then 3 else |str| % 3) else 999) + 1;
    assert digits[0..] == digits;
    while p1 != 0
      invariant p1 + k == n && at <= p2 <= at + 2 * k
      invariant Counts(c, n, k, comma) && Written(buffer[..p2], digits, k, comma, whole)
      decreases p1
    {
      ghost var next := k + 1;
      CountsDown(c, n, k, comma);
      p2 := WriteOne(buffer, p2, str[p1 - 1], c == 1, comma, digits, k, next, whole);
      c := if c == 1 then 3 else c - 1;
      p1 := p1 - 1;
      k := next;
    }
    AllWritten(buffer[..p2], digits, k, comma, whole);
    buffer[p2] := 0;
  }

  lemma AllWritten(done: seq<Char16>, digits: seq<nat>, k: nat, comma: bool, whole: seq<Char16>)
    requires Written(done, digits, k, comma, whole) && k == |digits|
    ensures done == whole
  {
    assert done + [] == done;
  }

  lemma GroupedStep(done: seq<Char16>, digits: seq<nat>, k: nat, next: nat, comma: bool, due: bool, whole: seq<Char16>)
    requires Written(done, digits, k, comma, whole) && k < |digits| && next == k + 1
    requires due == (comma && k > 0 && (|digits| - k) % 3 == 0)
    ensures Written(done + (if due then [COMMA] else []) + [ZERO + digits[k]], digits, next, comma, whole)
  {
    var mark, rest := if due then [COMMA] else [], Grouped(digits[next..], false, comma);
    assert digits[k..][1..] == digits[next..];
    Regroup(mark, [ZERO + digits[k]], rest);
    Regroup(done, mark, [ZERO + digits[k]] + rest);
    Regroup(done + mark, [ZERO + digits[k]], rest);
  }

  // One turn of that loop: a comma, if it is due, and the next digit.
  method WriteOne(buffer: array<Char16>, p: nat, digit: Char16, due: bool, ghost comma: bool, ghost digits: seq<nat>,
                  ghost k: nat, ghost next: nat, ghost whole: seq<Char16>) returns (p2: nat)
    requires p + 1 < buffer.Length && Written(buffer[..p], digits, k, comma, whole)
    requires k < |digits| && digit == ZERO + digits[k] && next == k + 1
    requires due == (comma && k > 0 && (|digits| - k) % 3 == 0)
    modifies buffer
    ensures p2 == p + (if due then 2 else 1) && Written(buffer[..p2], digits, next, comma, whole)
  {
    p2 := p;
    ghost var before := buffer[..p];
    GroupedStep(before, digits, k, next, comma, due, whole);
    if due {
      buffer[p2] := COMMA;
      p2 := p2 + 1;
    }
    buffer[p2] := digit;
    p2 := p2 + 1;
    assert buffer[..p2] == before + (if due then [COMMA] else []) + [digit];
  }

  method ValueToString(buffer: array<Char16>, comma: bool, v: int)
    requires -0x8000_0000_0000_0000 <= v < 0x8000_0000_0000_0000 && buffer.Length >= 42
    modifies buffer
    ensures Holds(buffer[..], DecText(v, comma))
  {
    if v == 0 {
      buffer[0], buffer[1] := ZERO, 0;
      return;
    }
    var p2 := 0;
    if v < 0 {
      buffer[p2] := MINUS;
      p2 := p2 + 1;
    }
    var magnitude := if v < 0 then -v else v;
    var str := DigitsBackwards(magnitude);
    assert buffer[..p2] == if v < 0 then [MINUS] else [];
    var end := WriteGrouped(buffer, p2, str, comma, Digits(magnitude, 10));
    assert buffer[..end] == DecText(v, comma);
  }
}
