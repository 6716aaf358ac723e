/**
  Integer literals as the generator's tools read them: the analyzer parses the text in base 10 or 16,
  the C++ compiler reads the same text, pasted into the emitted code, by its own rules.
 */
module Literals {
  import opened Bits
  import opened Decimal
  import opened Errors

  const TWO_31: nat := 0x8000_0000
  const TWO_32: nat := 0x1_0000_0000
  const TWO_63: nat := 0x8000_0000_0000_0000

  // ------------------------------------------------------------------- integer types

  datatype IntType = IntType(bits: nat, signed: bool) {
    predicate Valid() {
      1 <= bits <= 64
    }

    predicate Holds(v: int)
      requires Valid()
    {
      if signed then 0 - Pow2(bits - 1) <= v < Pow2(bits - 1) else 0 <= v < Pow2(bits)
    }

    function Lowest(): (v: int)
      requires Valid()
      ensures Holds(v) && forall w :: Holds(w) ==> v <= w
    {
      if signed then 0 - Pow2(bits - 1) else 0
    }

    /** static_cast: reduction modulo 2^bits. */
    function Cast(v: int): (c: int)
      requires Valid()
      ensures Holds(c) && (c - v) % Pow2(bits) == 0
      ensures Holds(v) ==> c == v
    {
      var m := v % Pow2(bits);
      CastFacts(bits, v);
      if signed && m >= Pow2(bits - 1) then m - Pow2(bits) else m
    }
  }

  /** A type the emitted code can store a value in. */
  type StorageType = t: IntType | t.Valid() witness IntType(8, false)

  lemma CastFacts(bits: nat, v: int)
    requires bits >= 1
    ensures Pow2(bits) == 2 * Pow2(bits - 1)
    ensures (v % Pow2(bits) - v) % Pow2(bits) == 0
    ensures (v % Pow2(bits) - Pow2(bits) - v) % Pow2(bits) == 0
    ensures 0 <= v < Pow2(bits) ==> v % Pow2(bits) == v
    ensures 0 - Pow2(bits - 1) <= v < 0 ==> v % Pow2(bits) == v + Pow2(bits)
  {
    var w := Pow2(bits);
    var q := v / w;
    assert v % w - v == w * (0 - q);
    assert v % w - w - v == w * (0 - q - 1);
    DivUnique(v % w - v, w, 0 - q, 0);
    DivUnique(v % w - w - v, w, 0 - q - 1, 0);
    if 0 <= v < w { DivUnique(v, w, 0, v); }
    if 0 - Pow2(bits - 1) <= v < 0 { DivUnique(v, w, -1, v + w); }
  }

  lemma CastAliasIff(t: IntType, a: int, b: int)
    requires t.Valid()
    ensures t.Cast(a) == t.Cast(b) <==> (a - b) % Pow2(t.bits) == 0
  {
    CastFacts(t.bits, a);
    SameRemainder(a, b, Pow2(t.bits));
  }

  lemma SameRemainder(a: int, b: int, w: nat)
    requires w > 0
    ensures a % w == b % w <==> (a - b) % w == 0
  {
    var d := a / w - b / w;
    if a % w == b % w {
      assert a - b == w * d;
      DivUnique(a - b, w, d, 0);
    }
    if (a - b) % w == 0 {
      var e := (a - b) / w;
      assert a == w * (b / w + e) + b % w;
      DivUnique(a, w, b / w + e, b % w);
    }
  }

  // ------------------------------------------------------------------------ numerals

  /** Value of a digit in any base up to 16; 16 for what is no digit. */
  function Digit(c: char): nat {
    if '0' <= c <= '9' then c as int - '0' as int
    else if 'a' <= c <= 'f' then c as int - 'a' as int + 10
    else if 'A' <= c <= 'F' then c as int - 'A' as int + 10
    else 16
  }

  predicate Numeral(s: string, base: nat) {
    s != "" && forall i :: 0 <= i < |s| ==> Digit(s[i]) < base
  }

  function NumeralValue(s: string, base: nat): nat {
    if s == "" then 0 else NumeralValue(s[..|s| - 1], base) * base + Digit(s[|s| - 1])
  }

  predicate Zeroes(s: string) {
    forall i :: 0 <= i < |s| ==> Digit(s[i]) == 0
  }

  predicate Negative(s: string) {
    s != "" && s[0] == '-'
  }

  function Unsigned(s: string): string {
    if Negative(s) then s[1..] else s
  }

  predicate HexPrefixed(s: string) {
    |s| > 2 && s[0] == '0' && (s[1] == 'x' || s[1] == 'X')
  }

  // ------------------------------------------------------------- the analyzer's reading

  /** std::from_chars on the whole text: one optional minus sign, digits, 64-bit range. */
  function FromChars(s: string, base: nat): (r: Option<i64>) {
    if !Numeral(Unsigned(s), base) then None
    else
      var m := NumeralValue(Unsigned(s), base);
      if Negative(s) then (if m <= TWO_63 then Some(0 - m) else None)
      else if m < TWO_63 then Some(m) else None
  }

  function ParsePositive(s: string): Option<i64> {
    if HexPrefixed(s) then FromChars(s[2..], 16) else FromChars(s, 10)
  }

  /** parse_literal: a minus sign of its own in front of what from_chars reads. */
  function ParseLiteral(s: string): Option<int> {
    if !Negative(s) then ParsePositive(s)
    else
      var v := ParsePositive(s[1..]);
      if v.None? then None else Some(0 - v.value)
  }

  // ------------------------------------------------------------- the compiler's reading

  function Base(s: string): nat {
    if HexPrefixed(s) then 16 else if s != "" && s[0] == '0' then 8 else 10
  }

  function Body(s: string): string {
    if HexPrefixed(s) then s[2..] else s
  }

  /** Unary minus on a literal of 32-bit int or wider; octal and hexadecimal ones may be unsigned, where it wraps. */
  function Minus(m: nat, base: nat): int
    requires m < TWO_64
  {
    if base != 10 && TWO_31 <= m < TWO_32 then TWO_32 - m
    else if base != 10 && TWO_63 <= m then TWO_64 - m
    else 0 - m
  }

  /** The value of the text as a C++ expression, if it is an integer literal or a negated one. */
  function CppValue(s: string): Option<int> {
    var u := Unsigned(s);
    var base := Base(u);
    if !Numeral(Body(u), base) then None
    else
      var m := NumeralValue(Body(u), base);
      if m >= TWO_64 || (base == 10 && m >= TWO_63) then None
      else if Negative(s) then Some(Minus(m, base))
      else Some(m)
  }

  // ----------------------------------------------------------- numbers printed and read

  const LOWER: string := "0123456789abcdef"
  const UPPER: string := "0123456789ABCDEF"

  /** The usual digits of n, most significant first. */
  function Digits(n: nat, base: nat, alphabet: string): (s: string)
    requires 2 <= base <= |alphabet|
    ensures s != ""
  {
    if n < base then [alphabet[n]]
    else
      Quotient(n, base);
      Digits(n / base, base, alphabet) + [alphabet[n % base]]
  }

  lemma Quotient(n: nat, base: nat)
    requires n >= base >= 2
    ensures 0 < n / base < n && 0 <= n % base < base && (n / base) * base + n % base == n
  {
    var q := n / base;
    assert n == base * q + n % base;
  }

  function Printed(n: nat): string {
    Digits(n, 10, LOWER)
  }

  lemma AlphabetReads(d: nat)
    requires d < 16
    ensures Digit(LOWER[d]) == Digit(UPPER[d]) == d
  {
  }

  /** Digits of either case read back as the number they were printed from, and start with a zero for zero alone. */
  lemma {:induction false} DigitsRead(n: nat, base: nat, alphabet: string)
    requires 2 <= base <= 16 && alphabet in {LOWER, UPPER}
    ensures var s := Digits(n, base, alphabet);
      && Numeral(s, base) && NumeralValue(s, base) == n && !Negative(s)
      && (s[0] == '0' ==> n == 0 && |s| == 1)
    decreases n
  {
    hide Digit, NumeralValue;
    if n < base {
      AlphabetReads(n);
      DigitStarts(alphabet, n);
      Grown("", alphabet[n], base);
      NoDigits(base);
      assert "" + [alphabet[n]] == [alphabet[n]];
    } else {
      Quotient(n, base);
      AlphabetReads(n % base);
      var high := Digits(n / base, base, alphabet);
      DigitsRead(n / base, base, alphabet);
      Grown(high, alphabet[n % base], base);
      NumeralGrows(high, alphabet[n % base], base);
    }
  }

  lemma NumeralGrows(s: string, c: char, base: nat)
    requires Numeral(s, base) && Digit(c) < base
    ensures Numeral(s + [c], base) && (s + [c])[0] == s[0]
  {
    hide Digit;
  }

  lemma DigitStarts(alphabet: string, d: nat)
    requires alphabet in {LOWER, UPPER} && d < 16
    ensures alphabet[d] != '-' && (alphabet[d] == '0' ==> d == 0)
  {
  }

  /** The analyzer reads back what is printed in decimal, and in hexadecimal of either case. */
  lemma PrintedParses(n: nat, hex: string, alphabet: string)
    requires n < TWO_63 && alphabet in {LOWER, UPPER} && hex in {"0x", "0X"}
    ensures ParseLiteral(Printed(n)) == Some(n) && ParseLiteral("-" + Printed(n)) == Some(0 - n)
    ensures ParseLiteral(hex + Digits(n, 16, alphabet)) == Some(n)
  {
    hide NumeralValue, Digits;
    DigitsRead(n, 10, LOWER);
    DigitsRead(n, 16, alphabet);
    var d, x := Printed(n), Digits(n, 16, alphabet);
    assert ("-" + d)[1..] == d && (hex + x)[2..] == x;
  }

  lemma {:induction false} LeadingZero(s: string, base: nat)
    ensures NumeralValue("0" + s, base) == NumeralValue(s, base)
    decreases |s|
  {
    if s == "" {
      assert "0" + s == "0" && "0"[..0] == "";
    } else {
      var z := "0" + s;
      assert z[..|z| - 1] == "0" + s[..|s| - 1];
      LeadingZero(s[..|s| - 1], base);
    }
  }

  /** The compiler reads back what is printed in octal behind a zero. */
  lemma OctalCompiles(n: nat)
    requires n < TWO_64
    ensures CppValue("0" + Digits(n, 8, LOWER)) == Some(n)
  {
    hide NumeralValue, Digits, Digit;
    var s := Digits(n, 8, LOWER);
    DigitsRead(n, 8, LOWER);
    LeadingZero(s, 8);
    AlphabetReads(0);
    OctalText(s);
  }

  lemma OctalText(s: string)
    requires Numeral(s, 8)
    ensures Numeral("0" + s, 8) && !Negative("0" + s) && !HexPrefixed("0" + s)
  {
  }

  lemma PrintedDiffer(a: nat, b: nat)
    requires a != b
    ensures Printed(a) != Printed(b)
  {
    hide NumeralValue, Digits;
    DigitsRead(a, 10, LOWER);
    DigitsRead(b, 10, LOWER);
  }

  // ----------------------------------------------------------------- when the two agree

  lemma {:induction false} ZeroValueIff(s: string, base: nat)
    requires base > 0
    ensures NumeralValue(s, base) == 0 <==> Zeroes(s)
    decreases |s|
  {
    if s != "" {
      var init := s[..|s| - 1];
      ZeroValueIff(init, base);
      assert NumeralValue(init, base) > 0 ==> NumeralValue(init, base) * base > 0;
      if Zeroes(s) {
        assert Zeroes(init);
      } else if Zeroes(init) {
        assert forall i :: 0 <= i < |init| ==> s[i] == init[i];
      }
    }
  }

  /** In base 8 a text is worth less than in base 10, unless nothing but its last digit counts. */
  lemma {:induction false} OctalBelowDecimal(s: string)
    requires s != ""
    ensures NumeralValue(s, 8) <= NumeralValue(s, 10)
    ensures NumeralValue(s, 8) == NumeralValue(s, 10) <==> Zeroes(s[..|s| - 1])
    ensures Zeroes(s[..|s| - 1]) ==> NumeralValue(s, 8) <= 16
    decreases |s|
  {
    var init := s[..|s| - 1];
    ZeroValueIff(init, 8);
    ZeroValueIff(init, 10);
    if init != "" {
      OctalBelowDecimal(init);
    }
  }

  /** The texts that both readers understand alike. */
  predicate ReadAlike(s: string) {
    var u := Unsigned(s);
    && (Base(u) == 8 ==> Zeroes(u[..|u| - 1]))
    && (Base(u) == 16 && Negative(s) ==> !(TWO_31 <= NumeralValue(Body(u), 16) < TWO_32))
  }

  /** What the analyzer accepts compiles exactly when it has one minus sign at most and no 8 or 9 after a leading zero. */
  lemma CompilesIff(s: string)
    requires ParseLiteral(s).Some?
    ensures CppValue(s).Some? <==>
            var u := Unsigned(s);
            !Negative(Body(u)) && (Base(u) == 8 ==> Numeral(u, 8))
  {
    hide NumeralValue, Zeroes;
    var u := Unsigned(s);
    if u != "" {
      OctalBelowDecimal(u);
    }
  }

  /** Analyzer and compiler agree on a text they both accept exactly when it has no effective leading zero and no wrapping minus. */
  lemma ReadAlikeIff(s: string)
    requires ParseLiteral(s).Some? && CppValue(s).Some?
    ensures ParseLiteral(s) == CppValue(s) <==> ReadAlike(s)
  {
    hide NumeralValue, Zeroes;
    var u := Unsigned(s);
    if u != "" {
      OctalBelowDecimal(u);
    }
  }

  /** The same for what a sync pattern is collected from, where the minus sign is left to from_chars. */
  lemma SyncReadAlikeIff(s: string)
    requires ParsePositive(s).Some? && CppValue(s).Some?
    ensures ParsePositive(s).value == CppValue(s).value <==> ReadAlike(s)
  {
    hide NumeralValue, Zeroes;
    var u := Unsigned(s);
    if u != "" {
      OctalBelowDecimal(u);
    }
  }

  // ------------------------------------------------------------------ named constants

  /** Who reads a text: the analyzer, or the compiler that finds it in the emitted code. */
  datatype Reader = Analyzer | Compiler

  /** A named constant: its text, and the type of the variable emitted for it. */
  datatype Const = Const(text: string, storage: StorageType)

  /** The named constants. */
  datatype Names = Names(constants: map<string, Const>) {
    function Resolve(text: string): Option<int> {
      if ParseLiteral(text).Some? then ParseLiteral(text)
      else if text in constants then ParseLiteral(constants[text].text)
      else None
    }

    predicate Known(text: string) {
      ParseLiteral(text).Some? || text in constants
    }

    /** The name of a constant reads as its typed variable; no variable can be named like a number. */
    function Emitted(text: string): Option<int> {
      if text !in constants then CppValue(text)
      else if Numeric(text) || CppValue(constants[text].text).None? then None
      else Some(constants[text].storage.Cast(CppValue(constants[text].text).value))
    }

    function Read(reader: Reader, text: string): Option<int> {
      if reader.Analyzer? then Resolve(text) else Emitted(text)
    }
  }

  predicate Numeric(text: string) {
    text != "" && (Digit(text[0]) < 10 || text[0] == '-')
  }

  // ------------------------------------------------------------------------- examples

  predicate PlainDecimal(s: string) {
    Numeral(s, 10) && (|s| == 1 || s[0] != '0')
  }

  /** A decimal number without leading zeros is read alike. */
  lemma PlainDecimalReads(s: string)
    requires PlainDecimal(s) && NumeralValue(s, 10) < TWO_63
    ensures ParseLiteral(s) == CppValue(s) == Some(NumeralValue(s, 10))
  {
    hide NumeralValue;
    OctalBelowDecimal(s);
  }

  lemma MinusReads(s: string)
    requires PlainDecimal(s) && NumeralValue(s, 10) < TWO_31
    ensures var m := "-" + s; ParseLiteral(m) == CppValue(m) == Some(0 - NumeralValue(s, 10))
  {
    hide NumeralValue;
    assert ("-" + s)[1..] == s;
    OctalBelowDecimal(s);
  }

  lemma Grown(s: string, c: char, base: nat)
    ensures NumeralValue(s + [c], base) == NumeralValue(s, base) * base + Digit(c)
  {
    assert (s + [c])[..|s|] == s;
  }

  lemma OneDigit(c: char)
    requires Digit(c) < 10
    ensures PlainDecimal([c]) && NumeralValue([c], 10) == Digit(c)
  {
    Grown("", c, 10);
    assert "" + [c] == [c];
  }

  lemma NextDigit(s: string, c: char)
    requires PlainDecimal(s) && s[0] != '0' && Digit(c) < 10
    ensures PlainDecimal(s + [c]) && NumeralValue(s + [c], 10) == 10 * NumeralValue(s, 10) + Digit(c)
  {
    Grown(s, c, 10);
  }

  /** The numbers used in the examples of choices. */
  lemma SmallNumbers()
    ensures PlainDecimal("0") && NumeralValue("0", 10) == 0 && PlainDecimal("1") && NumeralValue("1", 10) == 1
    ensures PlainDecimal("5") && NumeralValue("5", 10) == 5 && PlainDecimal("8") && NumeralValue("8", 10) == 8
    ensures PlainDecimal("10") && NumeralValue("10", 10) == 10 && PlainDecimal("256") && NumeralValue("256", 10) == 256
    ensures PlainDecimal("260") && NumeralValue("260", 10) == 260 && PlainDecimal("261") && NumeralValue("261", 10) == 261
  {
    hide NumeralValue, PlainDecimal;
    OneDigit('0'); OneDigit('1'); OneDigit('2'); OneDigit('5'); OneDigit('8');
    NextDigit("1", '0'); NextDigit("2", '5'); NextDigit("2", '6');
    NextDigit("25", '6'); NextDigit("26", '0'); NextDigit("26", '1');
    assert "1" + "0" == "10" && "2" + "5" == "25" && "2" + "6" == "26";
    assert "25" + "6" == "256" && "26" + "0" == "260" && "26" + "1" == "261";
  }

  /** "010" is ten to the analyzer and eight to the compiler. */
  lemma OctalTen(s: string)
    requires s == "010"
    ensures ParseLiteral(s) == ParsePositive(s) == Some(10) && CppValue(s) == Some(8)
  {
    hide NumeralValue;
    assert s == (("" + "0") + "1") + "0";
    LastThree("0", "1", "0", s, 8);
    LastThree("0", "1", "0", s, 10);
  }

  lemma LastThree(a: string, b: string, c: string, s: string, base: nat)
    requires |a| == |b| == |c| == 1 && s == a + b + c
    ensures NumeralValue(s, base) == (Digit(a[0]) * base + Digit(b[0])) * base + Digit(c[0])
  {
    hide NumeralValue;
    NoDigits(base);
    Grown("", a[0], base);
    Grown(a, b[0], base);
    Grown(a + b, c[0], base);
    assert "" + [a[0]] == a && a + [b[0]] == a + b && a + b + [c[0]] == s;
  }

  lemma NoDigits(base: nat)
    ensures NumeralValue("", base) == 0
  {
  }

  lemma ParsedIsNumeric(text: string)
    requires ParseLiteral(text).Some?
    ensures Numeric(text)
  {
  }

  lemma ThenZero(s: string, v: nat)
    requires Numeral(s, 16) && NumeralValue(s, 16) == v
    ensures Numeral(s + "0", 16) && NumeralValue(s + "0", 16) == 16 * v
  {
    hide NumeralValue;
    Grown(s, '0', 16);
  }

  /** The minus of "-0x80000000" is applied to an unsigned number, and wraps. */
  lemma WrappedMinus(s: string, digits: string)
    requires digits == "8" && s == "-0x" + (digits + "0" + "0" + "0" + "0" + "0" + "0" + "0")
    ensures ParseLiteral(s) == Some(0 - TWO_31) && CppValue(s) == Some(TWO_31)
  {
    hide NumeralValue;
    OneHex(digits);
    var a := digits + "0" + "0" + "0";
    ThenZero(digits, 8);
    ThenZero(digits + "0", 0x80);
    ThenZero(digits + "0" + "0", 0x800);
    ThenZero(a, 0x8000);
    ThenZero(a + "0", 0x8_0000);
    ThenZero(a + "0" + "0", 0x80_0000);
    ThenZero(a + "0" + "0" + "0", 0x800_0000);
    var n := a + "0" + "0" + "0" + "0";
    assert s[1..] == "0x" + n && ("0x" + n)[2..] == n;
  }

  lemma OneHex(s: string)
    requires s == "8"
    ensures Numeral(s, 16) && NumeralValue(s, 16) == 8
  {
    hide NumeralValue;
    NoDigits(16);
    Grown("", '8', 16);
    assert "" + ['8'] == s;
  }

  /** A constant of -1 whose type name is unknown becomes a 32-bit unsigned variable. */
  lemma NarrowedConstant(ns: Names, name: string, text: string)
    requires name in ns.constants && !Numeric(name) && ns.constants[name] == Const(text, IntType(32, false))
    requires text == "-1"
    ensures ns.Resolve(name) == Some(-1) && ns.Emitted(name) == Some(TWO_32 - 1)
  {
    hide NumeralValue, PlainDecimal, ParseLiteral, CppValue;
    SmallNumbers();
    assert text == "-" + "1";
    MinusReads("1");
    if ParseLiteral(name).Some? { ParsedIsNumeric(name); }
    Pow2Known(32);
    CastFacts(32, -1);
  }
}
