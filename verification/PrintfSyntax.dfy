/**
 What the texts of conversions mean (kernel/lib/stdio.c:343-451 and the switches
 of __vprintf, 164-291): any flags, width, precision, size and letter, put
 together, are taken apart again, and name this type, base and style.
 */
module PrintfSyntax {
  import opened PrintfText
  import opened PrintfShape
  import opened PrintfParse

  /** A decimal number as it is written. */
  ghost predicate AreDigits(s: string) {
    forall i :: 0 <= i < |s| ==> '0' <= s[i] <= '9'
  }

  /** Flags in any order; no, a `*` or a decimal width, which does not start with a zero. */
  ghost predicate IsWidth(width: string) {
    width == "*" || (AreDigits(width) && (width != "" ==> width[0] != '0'))
  }

  ghost predicate IsPrecision(precision: string) {
    precision == "" || precision == ".*" || (precision[0] == '.' && AreDigits(precision[1..]))
  }

  ghost predicate IsConversion(flags: string, width: string, precision: string, size: string, letter: char) {
    && (forall i :: 0 <= i < |flags| ==> flags[i] in {'-', '+', ' ', '#', '0', '\''})
    && IsWidth(width) && IsPrecision(precision)
    && size in {"", "hh", "h", "l", "ll", "j", "t", "z"}
    && letter in {'d', 'i', 'o', 'u', 'x', 'X', 'p'}
  }

  /** The text of a conversion after its `%`. */
  function ConversionText(flags: string, width: string, precision: string, size: string, letter: char): (text: string) {
    flags + (width + (precision + (size + [letter])))
  }

  lemma {:induction false} FlagsStop(format: string, i: nat, end: nat)
    requires i <= end <= |format| && !IsFlag(At(format, end))
    requires forall k :: i <= k < end ==> IsFlag(format[k])
    ensures FlagsEnd(format, i) == end
    decreases end - i
  {
    if i < end {
      FlagsStop(format, i + 1, end);
    }
  }

  lemma {:induction false} DigitsStop(format: string, i: nat, end: nat)
    requires i <= end <= |format| && !IsDigit(At(format, end))
    requires forall k :: i <= k < end ==> IsDigit(format[k])
    ensures DigitsEnd(format, i) == end
    decreases end - i
  {
    if i < end {
      DigitsStop(format, i + 1, end);
    }
  }

  /** The parser's number is what the digits say in base 10. */
  lemma {:induction false} NumberIsRead(s: string)
    requires AreDigits(s)
    ensures forall i :: 0 <= i < |s| ==> IsDigit(s[i])
    ensures Number(s) == ReadDigits(10, s, 0) && Digital(10, s)
  {
    if s != "" {
      var n := |s| - 1;
      NumberIsRead(s[..n]);
      ReadConcat(Decimal, s[..n], [s[n]], 0);
      assert s == s[..n] + [s[n]];
      OneDigit(s[n], ReadDigits(10, s[..n], 0));
    }
  }

  lemma OneDigit(ch: char, acc: nat)
    requires '0' <= ch <= '9'
    ensures ReadDigits(10, [ch], acc) == acc * 10 + (ch as int - '0' as int)
  {
    assert [ch][1..] == "";
  }

  lemma FlagsAre(flags: string, rest: string)
    requires forall i :: 0 <= i < |flags| ==> flags[i] in {'-', '+', ' ', '#', '0', '\''}
    requires rest != "" && rest[0] !in {'-', '+', ' ', '#', '0', '\''}
    ensures FlagsEnd(flags + rest, 0) == |flags| && (flags + rest)[0..|flags|] == flags
  {
    FlagsStop(flags + rest, 0, |flags|);
  }

  /** The text from i on. */
  lemma DigitsAt(format: string, i: nat, digits: string, rest: string)
    requires i <= |format| && format[i..] == digits + rest && AreDigits(digits)
    requires rest != "" && !IsDigit(rest[0])
    ensures DigitsEnd(format, i) == i + |digits| && NumberAt(format, i) == ReadDigits(10, digits, 0)
    ensures i + |digits| <= |format| && format[i + |digits|..] == rest
  {
    assert |format| == i + |digits| + |rest|;
    forall k | i <= k < i + |digits|
      ensures format[k] == digits[k - i]
    {
      assert format[k] == format[i..][k - i];
    }
    assert At(format, i + |digits|) == format[i..][|digits|] == rest[0];
    DigitsStop(format, i, i + |digits|);
    assert format[i..i + |digits|] == digits;
    NumberIsRead(digits);
    assert format[i + |digits|..] == format[i..][|digits|..];
  }

  /** The text after one of its parts. */
  lemma TextAfter(format: string, i: nat, part: string, rest: string)
    requires i <= |format| && format[i..] == part + rest && rest != ""
    ensures i + |part| < |format| && format[i + |part|..] == rest && At(format, i) == (part + rest)[0]
  {
    assert |format| == i + |part| + |rest|;
    assert format[i + |part|..] == format[i..][|part|..];
    assert format[i..][0] == format[i];
  }

  lemma WidthStarts(width: string, rest: string)
    requires IsWidth(width) && rest != "" && rest[0] != '*'
    ensures (width + rest)[0] == '*' <==> width == "*"
    ensures width != "*" ==> AreDigits(width)
  {
  }

  lemma PrecisionStarts(precision: string, rest: string)
    requires IsPrecision(precision) && rest != "" && rest[0] != '*'
    ensures precision == "" ==> (precision + rest)[0] == rest[0]
    ensures precision != "" ==>
              && precision[0] == '.' && precision + rest == ['.'] + (precision[1..] + rest)
              && ((precision[1..] + rest)[0] == '*' <==> precision == ".*")
              && (precision != ".*" ==> AreDigits(precision[1..]))
  {
    if precision != "" {
      assert precision + rest == ['.'] + (precision[1..] + rest);
      if precision != ".*" && |precision| > 1 {
        assert '0' <= precision[1..][0] <= '9';
      }
    }
  }

  lemma WidthIs(format: string, i: nat, width: string, rest: string, star: int)
    requires i <= |format| && format[i..] == width + rest && IsWidth(width)
    requires rest != "" && rest[0] != '*' && !IsDigit(rest[0])
    ensures WidthAt(format, i, star) == (if width == "*" then star else ReadDigits(10, width, 0), i + |width|)
    ensures i + |width| <= |format| && format[i + |width|..] == rest
  {
    hide ReadDigits, DigitsEnd, NumberAt, IsWidth, AreDigits, IsDigit, At;
    WidthStarts(width, rest);
    TextAfter(format, i, width, rest);
    if width != "*" {
      DigitsAt(format, i, width, rest);
    }
  }

  lemma PrecisionIs(format: string, i: nat, precision: string, rest: string, star: int)
    requires i <= |format| && format[i..] == precision + rest && IsPrecision(precision)
    requires rest != "" && rest[0] != '.' && rest[0] != '*' && !IsDigit(rest[0])
    ensures var given := if precision == "" then -1 else if precision == ".*" then star
                         else ReadDigits(10, precision[1..], 0);
            PrecisionAt(format, i, star) == (given, i + |precision|)
    ensures i + |precision| <= |format| && format[i + |precision|..] == rest
  {
    hide ReadDigits, DigitsEnd, NumberAt, IsPrecision, AreDigits, IsDigit, At;
    PrecisionStarts(precision, rest);
    TextAfter(format, i, precision, rest);
    if precision != "" {
      TextAfter(format, i, ".", precision[1..] + rest);
      TextAfter(format, i + 1, precision[1..], rest);
      if precision != ".*" {
        DigitsAt(format, i + 1, precision[1..], rest);
      }
    }
  }

  /** The value range that a size stands for. */
  lemma SizeIs(format: string, i: nat, size: string, letter: char)
    requires i <= |format| && format[i..] == size + [letter]
    requires size in {"", "hh", "h", "l", "ll", "j", "t", "z"} && letter in {'d', 'i', 'o', 'u', 'x', 'X', 'p'}
    ensures var (t, end) := TypeAt(format, i);
            && end == |format| - 1 && format[end] == letter
            && Modulus(t) == if size == "hh" then 0x100 else if size == "h" then 0x1_0000
                             else if size == "" then 0x1_0000_0000 else 0x1_0000_0000_0000_0000
  {
    assert |format| == i + |size| + 1;
    assert At(format, i) == format[i..][0] == (if size == "" then letter else size[0]);
    assert |size| >= 1 ==> At(format, i + 1) == format[i..][1] == (if |size| == 1 then letter else size[1]);
    assert format[|format| - 1] == format[i..][|size|] == letter;
  }

  /** The parts that the parser finds, and where. */
  lemma PartsFound(flags: string, width: string, precision: string, size: string, letter: char,
                   starWidth: int, starPrecision: int)
    requires IsConversion(flags, width, precision, size, letter)
    ensures var text := ConversionText(flags, width, precision, size, letter);
            var i, j := |flags|, |flags| + |width|;
            var k := j + |precision|;
            && k + |size| + 1 == |text|
            && FlagsEnd(text, 0) == i && text[0..i] == flags
            && WidthAt(text, i, starWidth) == (if width == "*" then starWidth else ReadDigits(10, width, 0), j)
            && PrecisionAt(text, j, starPrecision)
               == (if precision == "" then -1 else if precision == ".*" then starPrecision
                   else ReadDigits(10, precision[1..], 0), k)
            && text[k..] == size + [letter]
  {
    hide FlagsEnd, WidthAt, PrecisionAt, ReadDigits, IsWidth, IsPrecision, DigitsEnd, NumberAt;
    var text := ConversionText(flags, width, precision, size, letter);
    var afterSize := size + [letter];
    var afterPrecision := precision + afterSize;
    var afterWidth := width + afterPrecision;
    FirstLetters(width, precision, size, letter);
    FlagsAre(flags, afterWidth);
    assert text[|flags|..] == afterWidth;
    WidthIs(text, |flags|, width, afterPrecision, starWidth);
    PrecisionIs(text, |flags| + |width|, precision, afterSize, starPrecision);
  }

  /**
   * Parsing the text of a conversion gives its parts back: the flags, after PLUS has cancelled
   * SPACE, MINUS and a precision have cancelled ZERO and a negative `*` width has become MINUS; the
   * numbers as base 10 reads them; and the end at the letter.
   */
  lemma ParsesBack(flags: string, width: string, precision: string, size: string, letter: char,
                   starWidth: int, starPrecision: int, p: Parsed)
    requires IsConversion(flags, width, precision, size, letter)
    requires Specifies(p, ConversionText(flags, width, precision, size, letter), 0, starWidth, starPrecision)
    ensures var text := ConversionText(flags, width, precision, size, letter);
            p.end == |text| - 1 && LetterAt(text, 0) == text[p.end] == letter
    ensures var w := if width == "*" then starWidth else ReadDigits(10, width, 0);
            var q := if precision == "" then -1 else if precision == ".*" then starPrecision
                     else ReadDigits(10, precision[1..], 0);
            && p.c.width == (if w < 0 then -w else w) && p.c.precision == (if q < 0 then -1 else q)
            && p.c.flags.minus == ('-' in flags || w < 0) && p.c.flags.plus == ('+' in flags)
            && p.c.flags.space == (' ' in flags && '+' !in flags) && p.c.flags.pound == ('#' in flags)
            && p.c.flags.zero == ('0' in flags && '-' !in flags && q < 0) && p.c.flags.group == ('\'' in flags)
    ensures Modulus(p.argType) == if size == "hh" then 0x100 else if size == "h" then 0x1_0000
                                  else if size == "" then 0x1_0000_0000 else 0x1_0000_0000_0000_0000
  {
    hide FlagsEnd, WidthAt, PrecisionAt, TypeAt, ReadDigits, IsConversion, Modulus, ConversionText;
    var text := ConversionText(flags, width, precision, size, letter);
    PartsFound(flags, width, precision, size, letter, starWidth, starPrecision);
    PartsFound(flags, width, precision, size, letter, 0, 0);
    IsSizeAndLetter(flags, width, precision, size, letter);
    SizeIs(text, |flags| + |width| + |precision|, size, letter);
  }

  lemma IsSizeAndLetter(flags: string, width: string, precision: string, size: string, letter: char)
    requires IsConversion(flags, width, precision, size, letter)
    ensures size in {"", "hh", "h", "l", "ll", "j", "t", "z"} && letter in {'d', 'i', 'o', 'u', 'x', 'X', 'p'}
  {
  }

  /** No part of a conversion starts like the part before it goes on. */
  lemma FirstLetters(width: string, precision: string, size: string, letter: char)
    requires IsWidth(width) && IsPrecision(precision)
    requires size in {"", "hh", "h", "l", "ll", "j", "t", "z"} && letter in {'d', 'i', 'o', 'u', 'x', 'X', 'p'}
    ensures var rest := size + [letter]; rest[0] !in {'.', '*'} && !IsDigit(rest[0])
    ensures var rest := precision + (size + [letter]); rest[0] != '*' && !IsDigit(rest[0])
    ensures var rest := width + (precision + (size + [letter])); rest[0] !in {'-', '+', ' ', '#', '0', '\''}
  {
  }

  /**
   * What is printed for an argument reads back, in the base of the letter, as the argument cut
   * to the size that is written; for d and i in two's complement. A pointer is never cut.
   */
  lemma PrintsTheArgument(flags: string, width: string, precision: string, size: string, letter: char,
                          starWidth: int, starPrecision: int, p: Parsed, bits: nat)
    requires IsConversion(flags, width, precision, size, letter)
    requires Specifies(p, ConversionText(flags, width, precision, size, letter), 0, starWidth, starPrecision)
    ensures var m := if letter == 'p' then 0x1_0000_0000_0000_0000 else if size == "hh" then 0x100
                     else if size == "h" then 0x1_0000 else if size == "" then 0x1_0000_0000
                     else 0x1_0000_0000_0000_0000;
            var value := if letter in {'d', 'i'} && bits % m >= m / 2 then bits % m - m else bits % m;
            var radix := if letter == 'o' then 8 else if letter in {'x', 'X', 'p'} then 16 else 10;
            && ArgumentValue(letter, p.argType, bits) == value
            && Read(radix, ArgumentText(letter, p, bits)) == (value < 0, Abs(value))
  {
    hide Specifies, ArgumentText, Read, ConversionText;
    ParsesBack(flags, width, precision, size, letter, starWidth, starPrecision, p);
    ArgumentPrinted(letter, p, bits);
  }

  /** A hexadecimal digit, in the case of the letter. */
  predicate IsDigitFor(letter: char, ch: char) {
    if letter == 'o' then '0' <= ch <= '7'
    else if letter == 'X' then '0' <= ch <= '9' || 'A' <= ch <= 'F'
    else if letter == 'x' || letter == 'p' then '0' <= ch <= '9' || 'a' <= ch <= 'f'
    else '0' <= ch <= '9'
  }

  /**
   * The text for an argument, part by part: padding spaces, the sign of d and i, 0x or 0X for a
   * nonzero number in base 16 with # (or any pointer), padding zeros, the zeros of the precision or
   * the octal #, the digits with a comma after every 3 (4 in base 16), padding spaces.
   */
  lemma PrintedParts(letter: char, p: Parsed, bits: nat)
    returns (front: nat, sign: string, prefix: string, pad0: nat, zeros: nat, numeral: string, back: nat)
    requires letter in {'d', 'i', 'o', 'u', 'x', 'X', 'p'}
    ensures ArgumentText(letter, p, bits)
         == Repeat(' ', front) + sign + prefix + Repeat('0', pad0) + (Repeat('0', zeros) + numeral) + Repeat(' ', back)
    ensures var value := ArgumentValue(letter, p.argType, bits);
            && sign == (if letter !in {'d', 'i'} then "" else if value < 0 then "-" else if p.c.flags.plus then "+"
                        else if p.c.flags.space then " " else "")
            && prefix == (if value == 0 then "" else if letter == 'p' then "0x"
                          else if p.c.flags.pound && letter == 'x' then "0x"
                          else if p.c.flags.pound && letter == 'X' then "0X" else "")
            && (numeral == "" <==> value == 0) && (value != 0 ==> numeral[0] != '0' && numeral[0] != ',')
    ensures zeros == LeadingZeros(letter == 'o' && p.c.flags.pound, p.c.precision, |numeral|)
    ensures forall i :: 0 <= i < |numeral| ==> numeral[i] == ',' || IsDigitFor(letter, numeral[i])
    ensures if p.c.flags.group && letter != 'p'
            then CommasEvery(numeral, if letter in {'x', 'X'} then 4 else 3) else NoComma(numeral)
    ensures var short := p.c.width - |sign| - |prefix| - zeros - |numeral|;
            var pad := if short < 0 then 0 else short;
            var minus, zero := letter != 'p' && p.c.flags.minus, letter != 'p' && p.c.flags.zero;
            && front == (if minus || zero then 0 else pad)
            && pad0 == (if zero then pad else 0) && back == (if minus then pad else 0)
  {
    hide IntegerText, Repeat, LeadingZeros, CommasEvery, NoComma;
    var value := ArgumentValue(letter, p.argType, bits);
    front, sign, prefix, pad0, zeros, numeral, back :=
      TextShape(BaseOf(letter), ConversionFor(letter, p.c), Abs(value), IsSignedLetter(letter), value < 0);
  }
}
