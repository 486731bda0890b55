/** The texts of boolean, integer and string options. */
module OptionCodec {
  import opened Bytes
  import Ini

  type s32 = n: int | -0x8000_0000 <= n < 0x8000_0000

  datatype Value = BoolValue(b: bool) | IntValue(n: s32) | TextValue(t: string)

  predicate SameKind(a: Value, b: Value) {
    a.BoolValue? == b.BoolValue? && a.IntValue? == b.IntValue?
  }

  // ---------------------------------------------------------------- decimal numbers

  predicate IsDigit(c: char) {
    '0' <= c <= '9'
  }

  function Digit(d: nat): char
    requires d < 10
  {
    '0' + d as char
  }

  function Digits(n: nat): string {
    if n < 10 then [Digit(n)] else Digits(n / 10) + [Digit(n % 10)]
  }

  /** The number that the leading digits of `s` stand for, after those already read. */
  function Number(s: string, read: nat): nat
    decreases |s|
  {
    if s != [] && IsDigit(s[0]) then Number(s[1..], read * 10 + (s[0] as int - '0' as int)) else read
  }

  lemma {:induction false} DigitsAreDigits(n: nat)
    ensures |Digits(n)| > 0
    ensures forall i :: 0 <= i < |Digits(n)| ==> IsDigit(Digits(n)[i])
  {
    if n < 10 {
    } else {
      DigitsAreDigits(n / 10);
    }
  }

  lemma {:induction false} NumberOfDigits(n: nat, rest: string)
    ensures Number(Digits(n) + rest, 0) == Number(rest, n)
  {
    if n < 10 {
      assert (Digits(n) + rest)[1..] == rest;
    } else {
      var last := [Digit(n % 10)];
      NumberOfDigits(n / 10, last + rest);
      assert Digits(n) + rest == Digits(n / 10) + (last + rest);
      assert (last + rest)[1..] == rest;
    }
  }

  // ---------------------------------------------------------------- integers

  function ShowInt(n: int): string {
    if n < 0 then "-" + Digits(-n) else Digits(n)
  }

  predicate IsHexDigit(c: char) {
    IsDigit(c) || 'a' <= c <= 'f' || 'A' <= c <= 'F'
  }

  function HexDigit(c: char): nat
    requires IsHexDigit(c)
  {
    if IsDigit(c) then c as int - '0' as int
    else if 'a' <= c then c as int - 'a' as int + 10
    else c as int - 'A' as int + 10
  }

  function HexNumber(s: string, read: nat): nat
    decreases |s|
  {
    if s != [] && IsHexDigit(s[0]) then HexNumber(s[1..], read * 16 + HexDigit(s[0])) else read
  }

  predicate HasHexPrefix(s: string) {
    |s| >= 2 && s[0] == '0' && (s[1] == 'x' || s[1] == 'X')
  }

  /** An unsigned 32-bit number read from a stream: too large a number reads as the largest one. */
  function Unsigned(magnitude: nat, negative: bool): u32 {
    if magnitude >= TWO_32 then TWO_32 - 1 else U32(if negative then 0 - magnitude else magnitude)
  }

  /** A text of white space only leaves the current value; one that is no number reads as zero. */
  function ParseInt(text: string, current: s32): s32 {
    var k := Ini.SkipSpaces(text, 0);
    var s := if k <= |text| then text[k..] else [];
    if s == [] then current
    else if HasHexPrefix(s) then S32(Unsigned(HexNumber(s[2..], 0), false))
    else if s[0] == '-' then S32(Unsigned(Number(s[1..], 0), true))
    else if s[0] == '+' then S32(Unsigned(Number(s[1..], 0), false))
    else S32(Unsigned(Number(s, 0), false))
  }

  lemma IntRoundTrip(n: s32, current: s32)
    ensures ParseInt(ShowInt(n), current) == n
  {
    hide Number, Digits, HexNumber;
    var m: nat := if n < 0 then 0 - n else n;
    var s := ShowInt(n);
    DigitsAreDigits(m);
    NumberOfDigits(m, "");
    NumberOfNothing(m);
    assert Digits(m) + "" == Digits(m);
    assert IsDigit(Digits(m)[0]);
    assert n < 0 ==> s[1..] == Digits(m);
    Ini.SkipSpacesIs(s, 0, 0);
    assert s[0..] == s;
    assert !HasHexPrefix(s);
  }

  lemma NumberOfNothing(n: nat)
    ensures Number("", n) == n
  {
  }

  /** Hexadecimal digits, lower or upper case. */
  function HexDigits(n: nat, upper: bool): string {
    (if n < 16 then [] else HexDigits(n / 16, upper)) + [HexChar(n % 16, upper)]
  }

  function HexChar(d: nat, upper: bool): char
    requires d < 16
  {
    if d < 10 then '0' + d as char else (if upper then 'A' else 'a') + (d - 10) as char
  }

  lemma HexCharIsRead(d: nat, upper: bool)
    requires d < 16
    ensures IsHexDigit(HexChar(d, upper)) && HexDigit(HexChar(d, upper)) == d
  {
  }

  lemma {:induction false} NumberOfHexDigits(n: nat, upper: bool, rest: string)
    ensures HexNumber(HexDigits(n, upper) + rest, 0) == HexNumber(rest, n)
  {
    var last := [HexChar(n % 16, upper)];
    HexCharIsRead(n % 16, upper);
    assert (last + rest)[1..] == rest;
    if n < 16 {
      assert HexDigits(n, upper) + rest == last + rest;
    } else {
      NumberOfHexDigits(n / 16, upper, last + rest);
      assert HexDigits(n, upper) + rest == HexDigits(n / 16, upper) + (last + rest);
    }
  }

  /** A hexadecimal word, in either case of prefix and digits, is read as the signed number of those bits. */
  lemma HexIsRead(n: u32, upper: bool, current: s32)
    ensures ParseInt((if upper then "0X" else "0x") + HexDigits(n, upper), current) == S32(n)
  {
    hide HexDigits, HexNumber;
    var s := (if upper then "0X" else "0x") + HexDigits(n, upper);
    NumberOfHexDigits(n, upper, "");
    assert HexDigits(n, upper) + "" == HexDigits(n, upper);
    assert HexNumber("", n) == n by { NoMoreHexDigits(n); }
    Ini.SkipSpacesIs(s, 0, 0);
    assert s[0..] == s && s[2..] == HexDigits(n, upper);
  }

  lemma NoMoreHexDigits(n: nat)
    ensures HexNumber("", n) == n
  {
  }

  /** A decimal number too large for 32 bits is read as the largest unsigned one, which is minus one. */
  lemma LargeIsMinusOne(n: nat, current: s32)
    requires n >= TWO_32
    ensures ParseInt(Digits(n), current) == -1
  {
    hide Number, Digits, HexNumber;
    var s := Digits(n);
    DigitsAreDigits(n);
    NumberOfDigits(n, "");
    NumberOfNothing(n);
    assert s + "" == s && IsDigit(s[0]);
    Ini.SkipSpacesIs(s, 0, 0);
    assert s[0..] == s;
    assert !HasHexPrefix(s);
  }

  // ---------------------------------------------------------------- booleans

  function Lower(c: char): char {
    if 'A' <= c <= 'Z' then c + ' ' else c
  }

  function LowerCase(s: string): string {
    seq(|s|, i requires 0 <= i < |s| => Lower(s[i]))
  }

  predicate ParseBool(text: string) {
    LowerCase(text) in ["yes", "true", "on", "1"]
  }

  lemma BoolRoundTrip(b: bool)
    ensures ParseBool(if b then "yes" else "no") == b
  {
    assert LowerCase("yes") == "yes";
    assert LowerCase("no") == "no";
    assert |"no"| == |"on"| && "no"[0] != "on"[0];
  }

  /** The same letter of the lower-case word, in either case. */
  predicate SameLetter(c: char, l: char) {
    c == l || ('A' <= c <= 'Z' && c as int - 'A' as int == l as int - 'a' as int)
  }

  predicate SpelledAs(text: string, word: string) {
    |text| == |word| && forall i :: 0 <= i < |text| ==> SameLetter(text[i], word[i])
  }

  predicate IsLowerCase(word: string) {
    forall i :: 0 <= i < |word| ==> !('A' <= word[i] <= 'Z')
  }

  lemma SpelledMeansLowered(text: string, word: string)
    requires IsLowerCase(word)
    ensures SpelledAs(text, word) <==> LowerCase(text) == word
  {
    var l := LowerCase(text);
    if SpelledAs(text, word) {
      forall i | 0 <= i < |text|
        ensures l[i] == word[i]
      {
        assert SameLetter(text[i], word[i]);
      }
    }
    if l == word {
      forall i | 0 <= i < |text|
        ensures SameLetter(text[i], word[i])
      {
        assert l[i] == word[i];
      }
    }
  }

  /** Four words mean yes, in any mixture of cases; everything else means no. */
  lemma YesWords(text: string)
    ensures ParseBool(text) <==>
      SpelledAs(text, "yes") || SpelledAs(text, "true") || SpelledAs(text, "on") || SpelledAs(text, "1")
  {
    hide SpelledAs, LowerCase;
    SpelledMeansLowered(text, "yes");
    SpelledMeansLowered(text, "true");
    SpelledMeansLowered(text, "on");
    SpelledMeansLowered(text, "1");
  }

  // ---------------------------------------------------------------- options

  function Show(v: Value): string {
    match v
    case BoolValue(b) => if b then "yes" else "no"
    case IntValue(n) => ShowInt(n)
    case TextValue(t) => t
  }

  /** The current value gives the type of the option. */
  function Parse(current: Value, text: string): (v: Value)
    ensures SameKind(v, current)
  {
    match current
    case BoolValue(_) => BoolValue(ParseBool(text))
    case IntValue(n) => IntValue(ParseInt(text, n))
    case TextValue(_) => TextValue(text)
  }

  lemma ValueRoundTrip(current: Value, v: Value)
    requires SameKind(current, v)
    ensures Parse(current, Show(v)) == v
  {
    match v {
      case BoolValue(b) => BoolRoundTrip(b);
      case IntValue(n) => IntRoundTrip(n, current.n);
      case TextValue(_) =>
    }
  }
}
