/** The number printers: print_signed and print_hex of common.c, print_decimal and
    print_hexadecimal of ulib.c. What they print can be read back. */
module Decimal {
  import opened Words

  const UINT_LIMIT: nat := 0x1_0000_0000

  // ---- numbers and their texts ----

  function DigitChar(d: nat): (c: char)
    requires d < 10
  {
    ('0' as int + d) as char
  }

  predicate IsDigit(c: char) { '0' <= c <= '9' }

  function DigitValue(c: char): (d: nat)
    requires IsDigit(c)
    ensures d < 10 && DigitChar(d) == c
  {
    (c as int - '0' as int)
  }

  predicate AllDigits(s: string) { forall i :: 0 <= i < |s| ==> IsDigit(s[i]) }

  /** Reading digits: Horner's rule. */
  function ParseDigits(s: string): nat
    requires AllDigits(s)
  {
    if |s| == 0 then 0 else ParseDigits(s[..|s| - 1]) * 10 + DigitValue(s[|s| - 1])
  }

  /** The number that a text denotes, if it is a canonical decimal: digits without
      a leading zero, and a sign for negative numbers only. */
  datatype Reading = Number(value: int) | NotANumber

  predicate CanonicalDigits(s: string) {
    |s| > 0 && AllDigits(s) && (s[0] == '0' ==> |s| == 1)
  }

  function Parse(s: string): Reading {
    if CanonicalDigits(s) then Number(ParseDigits(s))
    else if |s| > 1 && s[0] == '-' && s[1] != '0' && CanonicalDigits(s[1..]) then Number(0 - ParseDigits(s[1..]) as int)
    else NotANumber
  }

  /** What a text denotes, digit by digit: a further digit is worth itself, and those
      before it ten times as much. */
  lemma DigitByDigit(s: string, d: nat)
    requires AllDigits(s) && d < 10
    ensures ParseDigits("") == 0
    ensures var t := s + ["0123456789"[d]]; AllDigits(t) && ParseDigits(t) == 10 * ParseDigits(s) + d
  {
    var t := s + ["0123456789"[d]];
    assert t[..|t| - 1] == s;
    assert "0123456789"[d] == DigitChar(d);
  }

  /** Which texts denote a number, and which number. */
  lemma Canonical(s: string)
    ensures AllDigits(s) <==> forall i :: 0 <= i < |s| ==> s[i] in "0123456789"
    ensures Parse(s).Number? && Parse(s).value >= 0
      <==> s != "" && AllDigits(s) && (s == "0" || s[0] != '0')
    ensures Parse(s).Number? && Parse(s).value < 0
      <==> |s| > 1 && s[0] == '-' && AllDigits(s[1..]) && s[1] != '0'
    ensures Parse(s).Number? ==> Parse(s).value == if s[0] == '-' then 0 - ParseDigits(s[1..]) as int else ParseDigits(s)
  {
    forall i | 0 <= i < |s| ensures IsDigit(s[i]) <==> s[i] in "0123456789" { DigitsAreTen(s[i]); }
    if |s| > 1 && s[0] == '-' && CanonicalDigits(s[1..]) { ZeroOrMore(s[1..]); }
  }

  lemma DigitsAreTen(c: char)
    ensures IsDigit(c) <==> c in "0123456789"
  {
    if IsDigit(c) { assert c == "0123456789"[c as int - '0' as int]; }
  }

  function Pow10(k: nat): (p: nat)
    ensures p > 0
  {
    if k == 0 then 1 else 10 * Pow10(k - 1)
  }

  // Division, where the solver needs help.

  lemma QuotientBelow(a: nat, b: nat, c: nat)
    requires b > 0 && a < c * b
    ensures 0 <= a / b < c
  {
    QuotientIsNat(a, b);
    if a / b >= c { Times(a / b, c, b); }
  }

  lemma Times(x: int, y: int, b: nat)
    requires x >= y
    ensures x * b >= y * b
  {
  }

  lemma QuotientAbove(a: nat, b: nat, c: nat)
    requires b > 0 && a >= c * b
    ensures a / b >= c
  {
    if a / b < c { Times(c, a / b + 1, b); }
  }

  lemma DivMod(a: nat, b: nat)
    requires b > 0
    ensures a == a / b * b + a % b && a / b >= 0 && 0 <= a % b < b
  {
    QuotientIsNat(a, b);
  }

  /** The digit that the printing loop emits for a divisor. */
  function Digit(m: nat, divisor: nat): (d: nat)
    requires 0 < divisor && m < 10 * divisor
    ensures d < 10
  {
    QuotientBelow(m, divisor, 10);
    m / divisor
  }

  /** The digits that the loop emits from divisor 10^k on. */
  function Emitted(m: nat, k: nat): string
    requires m < 10 * Pow10(k)
    decreases k
  {
    if k == 0 then [DigitChar(m)]
    else
      DivMod(m, Pow10(k));
      [DigitChar(Digit(m, Pow10(k)))] + Emitted(m % Pow10(k), k - 1)
  }

  /** They are digits, k + 1 of them, and they read as m. */
  lemma {:induction false} EmittedReads(m: nat, k: nat)
    requires m < 10 * Pow10(k)
    ensures var s := Emitted(m, k); |s| == k + 1 && AllDigits(s) && ParseDigits(s) == m
    decreases k
  {
    if k > 0 {
      DivMod(m, Pow10(k));
      var d, rest := DigitChar(Digit(m, Pow10(k))), Emitted(m % Pow10(k), k - 1);
      EmittedReads(m % Pow10(k), k - 1);
      LeadingDigit(d, rest);
    } else {
      assert Emitted(m, 0)[..0] == "";
    }
  }

  lemma {:induction false} LeadingDigit(d: char, rest: string)
    requires IsDigit(d) && AllDigits(rest)
    ensures AllDigits([d] + rest)
    ensures ParseDigits([d] + rest) == DigitValue(d) * Pow10(|rest|) + ParseDigits(rest)
  {
    var s := [d] + rest;
    if |rest| == 0 {
      assert s[..0] == "" && s == [d];
    } else {
      var last, shorter := |rest| - 1, rest[..|rest| - 1];
      LeadingDigit(d, shorter);
      assert s[..|s| - 1] == [d] + shorter;
      assert DigitValue(d) * Pow10(|rest|) == DigitValue(d) * Pow10(last) * 10;
    }
  }

  /** 10^k is the highest power of ten in m; for zero it is 1. */
  ghost predicate Highest(m: nat, k: nat) {
    m < 10 * Pow10(k) && (k > 0 ==> m >= Pow10(k))
  }

  lemma EmittedIsCanonical(m: nat, k: nat)
    requires Highest(m, k)
    ensures var s := Emitted(m, k); CanonicalDigits(s) && ParseDigits(s) == m && (m > 0 ==> s[0] != '0')
  {
    EmittedReads(m, k);
    if k > 0 {
      QuotientAbove(m, Pow10(k), 1);
      assert Emitted(m, k)[0] == DigitChar(Digit(m, Pow10(k)));
    }
  }

  // ---- print_signed and print_decimal ----

  /** The first loop: the highest power of ten, which never overflows. */
  method HighestDivisor(magnitude: nat, limit: nat) returns (divisor: nat, ghost k: nat)
    requires magnitude < limit && limit > 10
    ensures divisor == Pow10(k) && divisor < limit && Highest(magnitude, k)
  {
    divisor, k := 1, 0;
    assert Pow10(0) == 1;
    while magnitude / divisor > 9
      invariant divisor == Pow10(k) && 0 < divisor < limit && (k > 0 ==> magnitude >= divisor)
      decreases limit - divisor
    {
      TenTimes(magnitude, divisor);
      divisor, k := divisor * 10, k + 1;
    }
    DivMod(magnitude, divisor);
    Times(9, magnitude / divisor, divisor);
  }

  /** Why the product in the loop fits: it is at most the magnitude. */
  lemma TenTimes(m: nat, d: nat)
    requires d > 0 && m / d > 9
    ensures d * 10 <= m
  {
    DivMod(m, d);
    Times(m / d, 10, d);
  }

  /** The second loop. */
  method EmitDigits(m: nat, d: nat, ghost k: nat) returns (out: string)
    requires d == Pow10(k) && m < 10 * d
    ensures out == Emitted(m, k)
  {
    out := "";
    var magnitude, divisor := m, d;
    ghost var left: int := k;
    while divisor > 0
      invariant left >= -1 && (left < 0 <==> divisor == 0)
      invariant left >= 0 ==> divisor == Pow10(left) && magnitude < 10 * divisor && out + Emitted(magnitude, left) == Emitted(m, k)
      invariant left < 0 ==> out == Emitted(m, k)
      decreases divisor
    {
      ghost var rest := Emitted(magnitude, left);
      EmitStep(magnitude, left);
      out := out + [DigitChar(magnitude / divisor)];
      magnitude := magnitude % divisor;
      divisor := divisor / 10;
      left := left - 1;
    }
  }

  lemma EmitStep(m: nat, k: nat)
    requires m < 10 * Pow10(k)
    ensures m / Pow10(k) == Digit(m, Pow10(k)) && 0 <= m % Pow10(k) < Pow10(k)
    ensures k == 0 ==> Pow10(k) == 1 && Emitted(m, k) == [DigitChar(Digit(m, Pow10(k)))]
    ensures k > 0 ==> Pow10(k) / 10 == Pow10(k - 1) && m % Pow10(k) < 10 * Pow10(k - 1)
    ensures k > 0 ==> Emitted(m, k) == [DigitChar(Digit(m, Pow10(k)))] + Emitted(m % Pow10(k), k - 1)
  {
    DivMod(m, Pow10(k));
  }

  /** print_signed. Unsigned 64-bit negation makes LONG_MIN no exception. */
  method PrintSigned(value: int) returns (out: string)
    requires -0x8000_0000_0000_0000 <= value < 0x8000_0000_0000_0000
    ensures Parse(out) == Number(value)
  {
    var magnitude: int, sign := value % WORD_LIMIT, "";
    if value < 0 {
      sign := "-";
      magnitude := -magnitude % WORD_LIMIT;
    }
    assert magnitude == if value < 0 then -value else value;
    var divisor, k := HighestDivisor(magnitude, WORD_LIMIT);
    out := EmitDigits(magnitude, divisor, k);
    EmittedIsCanonical(magnitude, k);
    SignedText(value, out);
    out := sign + out;
  }

  lemma SignedText(value: int, digits: string)
    requires CanonicalDigits(digits) && ParseDigits(digits) == (if value < 0 then -value else value)
    requires value != 0 ==> digits[0] != '0'
    ensures Parse((if value < 0 then "-" else "") + digits) == Number(value)
  {
    var s := "-" + digits;
    assert s[1..] == digits && s[0] == '-' && !IsDigit(s[0]) && s[1] == digits[0];
    assert "" + digits == digits;
  }

  /** print_decimal, in 32 bits. -INT_MIN wraps to itself, and so is right as unsigned. */
  method PrintDecimal(value: int) returns (out: string)
    requires -0x8000_0000 <= value < 0x8000_0000
    ensures Parse(out) == Number(value)
  {
    if value == 0 {
      SignedText(0, "0");
      return "0";
    }
    var magnitude: int := (if value < 0 then -value else value) % UINT_LIMIT;
    assert magnitude == if value < 0 then -value else value;
    var sign := if value < 0 then "-" else "";
    var divisor, k := HighestDivisor(magnitude, UINT_LIMIT);
    out := EmitDigits(magnitude, divisor, k);
    EmittedIsCanonical(magnitude, k);
    SignedText(value, out);
    out := sign + out;
  }

  /** A number has one canonical text only: both printers print the same. */
  lemma OneText(a: string, b: string)
    requires Parse(a).Number? && Parse(a) == Parse(b)
    ensures a == b
  {
    ZeroOrMore(Digits(a));
    ZeroOrMore(Digits(b));
    OneDigits(Digits(a), Digits(b));
  }

  function Digits(s: string): (d: string)
    requires Parse(s).Number?
    ensures CanonicalDigits(d)
  {
    if CanonicalDigits(s) then s else s[1..]
  }

  lemma {:induction false} ZeroOrMore(s: string)
    requires CanonicalDigits(s)
    ensures ParseDigits(s) == 0 <==> s[0] == '0'
  {
    if |s| == 1 {
      assert s[..0] == "";
    } else {
      ZeroOrMore(s[..|s| - 1]);
    }
  }

  lemma {:induction false} OneDigits(a: string, b: string)
    requires CanonicalDigits(a) && CanonicalDigits(b) && ParseDigits(a) == ParseDigits(b)
    ensures a == b
  {
    var c, d := a[..|a| - 1], b[..|b| - 1];
    assert a == c + [a[|a| - 1]] && b == d + [b[|b| - 1]];
    if |a| > 1 { ZeroOrMore(c); }
    if |b| > 1 { ZeroOrMore(d); }
    if |a| > 1 && |b| > 1 { OneDigits(c, d); }
  }

  // ---- print_hex and print_hexadecimal ----

  const HEX_DIGITS: string := "0123456789abcdef"

  function HexValue(c: char): nat
    requires c in HEX_DIGITS
  {
    if c <= '9' then c as nat - '0' as nat else c as nat - 'a' as nat + 10
  }

  predicate AllHex(s: string) { forall i :: 0 <= i < |s| ==> s[i] in HEX_DIGITS }

  function ParseHex(s: string): nat
    requires AllHex(s)
  {
    if |s| == 0 then 0 else ParseHex(s[..|s| - 1]) * 16 + HexValue(s[|s| - 1])
  }

  function Pow16(k: nat): (p: nat)
    ensures p > 0
  {
    if k == 0 then 1 else 16 * Pow16(k - 1)
  }

  lemma {:induction false} NibblesAreBits(k: nat)
    ensures Pow2(k * 4) == Pow16(k)
  {
    if k > 0 {
      NibblesAreBits(k - 1);
      Pow2Adds((k - 1) * 4, 4);
      assert Pow2(4) == 16;
    }
  }

  /** x in nibbles: the last one, and the others. */
  lemma SplitNibble(x: nat, k: nat)
    ensures x % Pow16(k + 1) == x / 16 % Pow16(k) * 16 + x % 16
  {
    var p := Pow16(k);
    DivMod(x / 16, p);
    var q, r := x / 16 / p, x / 16 % p;
    assert x == q * (16 * p) + (r * 16 + x % 16);
    Times(p - 1, r, 16);
    DivModUnique(x, 16 * p, q, r * 16 + x % 16);
  }

  lemma HighNibbles(x: nat, k: nat)
    ensures x / Pow16(k) >= 0 && x / Pow16(k + 1) == x / Pow16(k) / 16
  {
    var p := Pow16(k);
    DivMod(x, p);
    var y, r := x / p, x % p;
    assert x == y / 16 * (16 * p) + (y % 16 * p + r);
    Times(15, y % 16, p);
    DivModUnique(x, 16 * p, y / 16, y % 16 * p + r);
  }

  /** print_hex: exactly `digits` digits, which read as the low bits of the value. */
  method PrintHex(value: Word, digits: nat) returns (out: string)
    ensures |out| == digits && AllHex(out) && ParseHex(out) == value % Pow16(digits)
  {
    hide And, Shr;
    out := "";
    var i := digits - 1;
    DivMod(value, Pow16(digits));
    while i >= 0
      invariant -1 <= i < digits && |out| == digits - 1 - i && AllHex(out)
      invariant value / Pow16(i + 1) >= 0 && ParseHex(out) == value / Pow16(i + 1) % Pow16(digits - 1 - i)
    {
      var nibble := And(Shr(value, i * 4), 0xf);
      NextNibble(value, i, digits - 1 - i);
      NextHex(out, nibble);
      out := out + [HEX_DIGITS[nibble]];
      i := i - 1;
    }
    assert Pow16(0) == 1;
  }

  lemma NextNibble(value: Word, i: nat, count: nat)
    ensures var x := value / Pow16(i);
      && x >= 0 && And(Shr(value, i * 4), 0xf) == x % 16
      && value / Pow16(i + 1) >= 0
      && x % Pow16(count + 1) == value / Pow16(i + 1) % Pow16(count) * 16 + x % 16
  {
    NibblesAreBits(i);
    HighNibbles(value, i);
    AndLowMask(value / Pow16(i), 4);
    assert Pow2(4) == 16;
    SplitNibble(value / Pow16(i), count);
  }

  /** What a hexadecimal text denotes, digit by digit. */
  lemma NextHex(s: string, nibble: nat)
    requires AllHex(s) && nibble < 16
    ensures ParseHex("") == 0
    ensures var t := s + ["0123456789abcdef"[nibble]]; AllHex(t) && ParseHex(t) == ParseHex(s) * 16 + nibble
  {
    var t := s + [HEX_DIGITS[nibble]];
    assert t[..|t| - 1] == s && HexValue(HEX_DIGITS[nibble]) == nibble;
  }
}
