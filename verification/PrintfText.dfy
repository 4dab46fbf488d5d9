/**
 What printf prints for an integer (kernel/lib/stdio.c:88-139, 460-532): its
 text as a function of value, base and conversion, how wide that is, and
 how to read the number back from it.
 */
module PrintfText {
  /** The flags of a conversion. */
  datatype Flags = Flags(minus: bool, plus: bool, space: bool, pound: bool, zero: bool, group: bool)

  datatype Conversion = Conversion(flags: Flags, width: int, precision: int)

  /** A base; `x` is the prefix letter of base 16. */
  datatype Base = Decimal | Octal | Hex(upper: bool) {
    function Radix(): (r: nat)
      ensures r >= 8
    {
      match this case Decimal => 10 case Octal => 8 case Hex(_) => 16
    }

    function Digits(): (d: string)
      ensures |d| == Radix()
    {
      match this
      case Decimal => "0123456789"
      case Octal => "01234567"
      case Hex(upper) => if upper then "0123456789ABCDEF" else "0123456789abcdef"
    }

    function GroupSize(): (r: nat) {
      if Hex? then 4 else 3
    }

    function X(): (r: string) {
      if !Hex? then "" else if upper then "X" else "x"
    }
  }

  const BUFFER_SIZE: nat := 64
  const NUL: char := '\0'

  // What the text of a number is.

  function LastDigit(b: Base, value: nat): (r: char) {
    b.Digits()[value % b.Radix()]
  }

  function Shorter(b: Base, value: nat): (r: nat)
    ensures value > 0 ==> r < value
  {
    value / b.Radix()
  }

  /** The numeral of a value, most significant digit first; nothing for zero. */
  function Numeral(b: Base, value: nat): (r: string) {
    if value == 0 then "" else Numeral(b, Shorter(b, value)) + [LastDigit(b, value)]
  }

  /** A comma before every full group of digits but the first, counted from the right. */
  function Grouped(s: string, size: nat): (r: string)
    requires size > 0
  {
    if |s| <= size then s else Grouped(s[..|s| - size], size) + "," + s[|s| - size..]
  }

  /** The numeral with commas if they are asked for. */
  function WithCommas(b: Base, c: Conversion, numeral: string): (r: string) {
    if c.flags.group then Grouped(numeral, b.GroupSize()) else numeral
  }

  lemma GroupedShort(s: string, size: nat)
    requires size > 0 && |s| <= size
    ensures Grouped(s, size) == s
  {
  }

  lemma GroupedSplit(s: string, size: nat)
    requires 0 < size < |s|
    ensures Grouped(s, size) == Grouped(s[..|s| - size], size) + "," + s[|s| - size..]
  {
  }

  function Repeat(ch: char, n: int): (s: string)
    ensures |s| == if n < 0 then 0 else n
    ensures forall i :: 0 <= i < |s| ==> s[i] == ch
  {
    if n <= 0 then "" else Repeat(ch, n - 1) + [ch]
  }

  function Min(a: int, b: int): (r: int) { if a < b then a else b }

  function Max(a: int, b: int): (r: int) { if a < b then b else a }

  /** The digits: at least `precision` of them, up to 63, and a leading zero for # in base 8. */
  function Body(b: Base, c: Conversion, value: nat): (r: string) {
    var numeral := WithCommas(b, c, Numeral(b, value));
    var precision := if c.precision < 0 then 1 else c.precision;
    var padded := Repeat('0', Min(precision, BUFFER_SIZE - 1) - |numeral|) + numeral;
    if c.flags.pound && b.Octal? && (padded == "" || padded[0] != '0') then "0" + padded else padded
  }

  function Sign(c: Conversion, isSigned: bool, negative: bool): (r: string) {
    if !isSigned then ""
    else if negative then "-"
    else if c.flags.plus then "+"
    else if c.flags.space then " "
    else ""
  }

  function Prefix(b: Base, c: Conversion, value: nat): (r: string) {
    if c.flags.pound && value != 0 && b.X() != "" then "0" + b.X() else ""
  }

  /** All that is printed apart from the padding. */
  function Core(b: Base, c: Conversion, value: nat, isSigned: bool, negative: bool): (r: string) {
    Sign(c, isSigned, negative) + Prefix(b, c, value) + Body(b, c, value)
  }

  function IntegerText(b: Base, c: Conversion, value: nat, isSigned: bool, negative: bool): (r: string) {
    var sign, prefix, body := Sign(c, isSigned, negative), Prefix(b, c, value), Body(b, c, value);
    var pad := c.width - |body| - |prefix| - |sign|;
    (if c.flags.minus || c.flags.zero then "" else Repeat(' ', pad))
    + sign + prefix
    + (if c.flags.zero then Repeat('0', pad) else "")
    + body
    + (if c.flags.minus then Repeat(' ', pad) else "")
  }

  /** The field is as wide as asked or as its text, except that MINUS and ZERO together pad twice. */
  lemma FieldWidth(b: Base, c: Conversion, value: nat, isSigned: bool, negative: bool)
    ensures var text, core := IntegerText(b, c, value, isSigned, negative), Core(b, c, value, isSigned, negative);
            |text| == Max(c.width, |core|) <==> !(c.flags.minus && c.flags.zero && c.width > |core|)
    ensures var text, core := IntegerText(b, c, value, isSigned, negative), Core(b, c, value, isSigned, negative);
            c.flags.minus && c.flags.zero && c.width > |core| ==> |text| == 2 * c.width - |core|
  {
    hide Body, Prefix, Sign;
  }

  // Reading a number back.

  /** What a character stands for as a digit, in any base up to 16. */
  function DigitOf(ch: char): (v: int)
    ensures -1 <= v < 16
  {
    if '0' <= ch <= '9' then ch as int - '0' as int
    else if 'a' <= ch <= 'f' then ch as int - 'a' as int + 10
    else if 'A' <= ch <= 'F' then ch as int - 'A' as int + 10
    else -1
  }

  function DigitValue(radix: nat, ch: char): (v: int)
    ensures -1 <= v && (v < radix || v == -1)
  {
    if DigitOf(ch) < radix then DigitOf(ch) else -1
  }

  /** The value of the digits s starts with, after acc; commas are ignored. */
  function ReadDigits(radix: nat, s: string, acc: nat): (r: nat) {
    if s == "" then acc
    else if s[0] == ',' then ReadDigits(radix, s[1..], acc)
    else if DigitValue(radix, s[0]) < 0 then acc
    else ReadDigits(radix, s[1..], acc * radix + DigitValue(radix, s[0]))
  }

  function DropSpaces(s: string): (r: string) {
    if s != "" && s[0] == ' ' then DropSpaces(s[1..]) else s
  }

  function AfterPrefix(radix: nat, s: string): (r: string) {
    if radix == 16 && |s| >= 2 && s[0] == '0' && (s[1] == 'x' || s[1] == 'X') then s[2..] else s
  }

  /** Whether a printed number is negative, and its absolute value. */
  function Read(radix: nat, text: string): (r: (bool, nat)) {
    var s := DropSpaces(text);
    var signed := s != "" && s[0] in "+-";
    var t := if signed then s[1..] else s;
    (signed && s[0] == '-', ReadDigits(radix, AfterPrefix(radix, t), 0))
  }

  predicate Digital(radix: nat, s: string) {
    forall i :: 0 <= i < |s| ==> s[i] == ',' || DigitValue(radix, s[i]) >= 0
  }

  /** The digits are consecutive characters, ten from '0' and six from 'a' or 'A'. */
  lemma DigitsAre(b: Base, d: nat)
    requires d < b.Radix()
    ensures b.Digits()[d] as int ==
            if d < 10 then '0' as int + d else (if b.upper then 'A' as int else 'a' as int) + d - 10
  {
    var s := b.Digits();
    assert s[0] == '0' && s[1] == '1' && s[2] == '2' && s[3] == '3' && s[4] == '4' && s[5] == '5' && s[6] == '6'
        && s[7] == '7';
    if !b.Octal? {
      assert s[8] == '8' && s[9] == '9';
    }
    if b.Hex? {
      assert s[10] == (if b.upper then 'A' else 'a') && s[11] == (if b.upper then 'B' else 'b');
      assert s[12] == (if b.upper then 'C' else 'c') && s[13] == (if b.upper then 'D' else 'd');
      assert s[14] == (if b.upper then 'E' else 'e') && s[15] == (if b.upper then 'F' else 'f');
    }
  }

  lemma DigitValues(b: Base, d: nat)
    requires d < b.Radix()
    ensures DigitValue(b.Radix(), b.Digits()[d]) == d && b.Digits()[d] !in ",+- xX"
  {
    DigitsAre(b, d);
  }

  lemma {:induction false} ReadConcat(b: Base, s: string, t: string, acc: nat)
    requires Digital(b.Radix(), s)
    ensures ReadDigits(b.Radix(), s + t, acc) == ReadDigits(b.Radix(), t, ReadDigits(b.Radix(), s, acc))
  {
    hide DigitValue;
    if s == "" {
      assert s + t == t;
    } else {
      assert (s + t)[1..] == s[1..] + t && (s + t)[0] == s[0];
      if s[0] == ',' {
        ReadConcat(b, s[1..], t, acc);
      } else {
        ReadConcat(b, s[1..], t, acc * b.Radix() + DigitValue(b.Radix(), s[0]));
      }
    }
  }

  lemma {:induction false} ReadNumeral(b: Base, value: nat)
    ensures Digital(b.Radix(), Numeral(b, value)) && ReadDigits(b.Radix(), Numeral(b, value), 0) == value
  {
    hide DigitValue, LastDigit, Shorter;
    if value > 0 {
      ReadNumeral(b, Shorter(b, value));
      ReadLast(b, value);
      ReadConcat(b, Numeral(b, Shorter(b, value)), [LastDigit(b, value)], 0);
    }
  }

  lemma ReadLast(b: Base, value: nat)
    ensures DigitValue(b.Radix(), LastDigit(b, value)) >= 0
    ensures ReadDigits(b.Radix(), [LastDigit(b, value)], Shorter(b, value)) == value
  {
    hide DigitValue;
    DigitValues(b, value % b.Radix());
    assert value == Shorter(b, value) * b.Radix() + value % b.Radix();
  }

  lemma ReadComma(b: Base, s: string, acc: nat)
    ensures ReadDigits(b.Radix(), "," + s, acc) == ReadDigits(b.Radix(), s, acc)
  {
    assert ("," + s)[1..] == s;
  }

  lemma {:induction false} ReadGrouped(b: Base, s: string, size: nat, acc: nat)
    requires size > 0 && Digital(b.Radix(), s)
    ensures Digital(b.Radix(), Grouped(s, size))
    ensures ReadDigits(b.Radix(), Grouped(s, size), acc) == ReadDigits(b.Radix(), s, acc)
    decreases |s|
  {
    hide DigitValue, ReadDigits, Digital, Grouped;
    if |s| > size {
      var high, low := s[..|s| - size], s[|s| - size..];
      GroupedSplit(s, size);
      DigitalParts(b, s, |s| - size);
      ReadGrouped(b, high, size, acc);
      assert Grouped(s, size) == Grouped(high, size) + ("," + low) && s == high + low;
      DigitalSum(b, ",", low);
      DigitalSum(b, Grouped(high, size), "," + low);
      ReadConcat(b, Grouped(high, size), "," + low, acc);
      ReadComma(b, low, ReadDigits(b.Radix(), high, acc));
      ReadConcat(b, high, low, acc);
    } else {
      GroupedShort(s, size);
    }
  }

  lemma DigitalParts(b: Base, s: string, k: nat)
    requires Digital(b.Radix(), s) && k <= |s|
    ensures Digital(b.Radix(), s[..k]) && Digital(b.Radix(), s[k..]) && Digital(b.Radix(), ",")
  {
    hide DigitValue;
  }

  lemma DigitalSum(b: Base, s: string, t: string)
    requires Digital(b.Radix(), s) && Digital(b.Radix(), t)
    ensures Digital(b.Radix(), s + t)
  {
    hide DigitValue;
  }

  lemma {:induction false} ReadZeros(b: Base, n: int, s: string)
    ensures ReadDigits(b.Radix(), Repeat('0', n) + s, 0) == ReadDigits(b.Radix(), s, 0)
  {
    if n <= 0 {
      assert Repeat('0', n) + s == s;
    } else {
      DigitValues(b, 0);
      assert Repeat('0', n) + s == Repeat('0', n - 1) + (['0'] + s);
      ReadZeros(b, n - 1, ['0'] + s);
      assert (['0'] + s)[1..] == s;
    }
  }

  lemma DigitalChars(b: Base, s: string)
    requires Digital(b.Radix(), s)
    ensures forall i :: 0 <= i < |s| ==> s[i] !in "+- xX"
  {
  }

  lemma {:induction false} ZerosAreDigits(b: Base, n: int)
    ensures Digital(b.Radix(), Repeat('0', n))
  {
    DigitValues(b, 0);
    hide DigitValue;
    assert b.Digits()[0] == '0';
  }

  /** Zeros in front of the body, and the body, read as the value. */
  lemma ReadBody(b: Base, c: Conversion, value: nat, zeros: int)
    ensures Digital(b.Radix(), Repeat('0', zeros) + Body(b, c, value))
    ensures ReadDigits(b.Radix(), Repeat('0', zeros) + Body(b, c, value), 0) == value
  {
    hide DigitValue, ReadDigits, Numeral, Grouped, Digital;
    var numeral := WithCommas(b, c, Numeral(b, value));
    ReadNumeral(b, value);
    ReadGrouped(b, Numeral(b, value), b.GroupSize(), 0);
    var precision := if c.precision < 0 then 1 else c.precision;
    var n := Min(precision, BUFFER_SIZE - 1) - |numeral|;
    var padded := Repeat('0', n) + numeral;
    ReadZeros(b, n, numeral);
    ZerosAreDigits(b, n);
    DigitalSum(b, Repeat('0', n), numeral);
    ReadZeros(b, 1, padded);
    ZerosAreDigits(b, 1);
    DigitalSum(b, Repeat('0', 1), padded);
    assert Repeat('0', 1) == "0";
    ReadZeros(b, zeros, Body(b, c, value));
    ZerosAreDigits(b, zeros);
    DigitalSum(b, Repeat('0', zeros), Body(b, c, value));
  }

  lemma {:induction false} LeadingSpaces(n: int, s: string)
    ensures DropSpaces(Repeat(' ', n) + s) == DropSpaces(s)
  {
    if n <= 0 {
      assert Repeat(' ', n) + s == s;
    } else {
      LeadingSpaces(n - 1, " " + s);
      assert Repeat(' ', n) + s == Repeat(' ', n - 1) + (" " + s);
      assert (" " + s)[1..] == s;
    }
  }

  lemma SpaceIsNoDigit(b: Base)
    ensures DigitValue(b.Radix(), ' ') == -1
  {
  }

  lemma ReadSpaces(b: Base, n: int, acc: nat)
    ensures ReadDigits(b.Radix(), Repeat(' ', n), acc) == acc && DropSpaces(Repeat(' ', n)) == ""
  {
    hide DigitValue;
    SpaceIsNoDigit(b);
    LeadingSpaces(n, "");
    assert Repeat(' ', n) + "" == Repeat(' ', n);
  }

  /** Reading what follows the sign. */
  lemma ReadMagnitude(b: Base, c: Conversion, value: nat, zeros: int, spaces: int)
    ensures var t := Prefix(b, c, value) + (Repeat('0', zeros) + Body(b, c, value) + Repeat(' ', spaces));
            && ReadDigits(b.Radix(), AfterPrefix(b.Radix(), t), 0) == value
            && (t != "" && t[0] != ' ' ==> t[0] !in "+-")
            && (t != "" && t[0] == ' ' ==> value == 0 && DropSpaces(t) == "")
  {
    hide DigitValue, ReadDigits, Body, Digital;
    var digits, tail := Repeat('0', zeros) + Body(b, c, value), Repeat(' ', spaces);
    var rest := digits + tail;
    ReadBody(b, c, value, zeros);
    DigitalChars(b, digits);
    ReadConcat(b, digits, tail, 0);
    ReadSpaces(b, spaces, value);
    var t := Prefix(b, c, value) + rest;
    if Prefix(b, c, value) != "" {
      assert t[2..] == rest;
    } else {
      assert t == rest;
      if digits == "" {
        assert rest == tail;
        ReadEmpty(b);
      }
    }
  }

  lemma ReadEmpty(b: Base)
    ensures AfterPrefix(b.Radix(), "") == "" && ReadDigits(b.Radix(), "", 0) == 0
  {
  }

  lemma ReadSigned(b: Base, sign: string, t: string, value: nat)
    requires sign in {"", " ", "+", "-"} && ReadDigits(b.Radix(), AfterPrefix(b.Radix(), t), 0) == value
    requires t != "" && t[0] != ' ' ==> t[0] !in "+-"
    requires t != "" && t[0] == ' ' ==> value == 0 && DropSpaces(t) == ""
    ensures var s := DropSpaces(sign + t);
            var signed := s != "" && s[0] in "+-";
            && (signed && s[0] == '-' <==> sign == "-")
            && ReadDigits(b.Radix(), AfterPrefix(b.Radix(), if signed then s[1..] else s), 0) == value
  {
    ReadEmpty(b);
    hide ReadDigits, AfterPrefix;
    if sign == "" {
      assert sign + t == t;
    } else {
      assert (sign + t)[1..] == t;
    }
  }

  /** Printing a number and reading it back gives the number, for every value, base, width, precision and flag. */
  lemma IntegerRoundTrip(b: Base, c: Conversion, value: nat, isSigned: bool, negative: bool)
    ensures Read(b.Radix(), IntegerText(b, c, value, isSigned, negative)) == (isSigned && negative, value)
  {
    hide DigitValue, ReadDigits, Body, Prefix, AfterPrefix, DropSpaces, Sign, IntegerText, Repeat;
    var sign, prefix, body := Sign(c, isSigned, negative), Prefix(b, c, value), Body(b, c, value);
    var front, zeros, spaces := Padded(b, c, value, isSigned, negative);
    var t := prefix + (Repeat('0', zeros) + body + Repeat(' ', spaces));
    LeadingSpaces(front, sign + t);
    ReadMagnitude(b, c, value, zeros, spaces);
    SignIs(c, isSigned, negative);
    ReadSigned(b, sign, t, value);
  }

  /** Where the padding of a number is: before the sign, after the prefix, at the end. */
  lemma Padded(b: Base, c: Conversion, value: nat, isSigned: bool, negative: bool)
    returns (front: int, zeros: int, spaces: int)
    ensures IntegerText(b, c, value, isSigned, negative)
         == Repeat(' ', front) + (Sign(c, isSigned, negative)
            + (Prefix(b, c, value) + (Repeat('0', zeros) + Body(b, c, value) + Repeat(' ', spaces))))
  {
    hide Body, Prefix, Sign;
    var sign, prefix, body := Sign(c, isSigned, negative), Prefix(b, c, value), Body(b, c, value);
    var pad := c.width - |body| - |prefix| - |sign|;
    front := if c.flags.minus || c.flags.zero then 0 else pad;
    zeros := if c.flags.zero then pad else 0;
    spaces := if c.flags.minus then pad else 0;
    Regrouped(Repeat(' ', front), sign, prefix, Repeat('0', zeros), body, Repeat(' ', spaces));
  }

  lemma SignIs(c: Conversion, isSigned: bool, negative: bool)
    ensures Sign(c, isSigned, negative) in {"", " ", "+", "-"}
    ensures Sign(c, isSigned, negative) == "-" <==> isSigned && negative
  {
  }

  lemma Regrouped(a: string, b: string, c: string, d: string, e: string, f: string)
    ensures a + b + c + d + e + f == a + (b + (c + (d + e + f)))
  {
    assert a + b + c + d + e + f == a + (b + c + d + e + f);
    assert b + c + d + e + f == b + (c + d + e + f);
    assert c + d + e + f == c + (d + e + f);
  }
}
