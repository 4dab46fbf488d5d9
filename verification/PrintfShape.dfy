/**
 What a printed integer looks like, part by part: padding, sign, prefix,
 zeros, digits and commas (kernel/lib/stdio.c:460-532).
 */
module PrintfShape {
  import opened PrintfText

  /** A comma is due r characters from the right when the groups have `size` digits. */
  predicate CommaDue(r: nat, size: nat) {
    if size == 3 then (r + 1) % 4 == 0 else (r + 1) % 5 == 0
  }

  /** The commas of a text are where groups of `size` digits end, counted from the right. */
  ghost predicate CommasEvery(s: string, size: nat) {
    forall r: nat {:trigger CommaDue(r, size)} :: r < |s| ==> (s[|s| - 1 - r] == ',' <==> CommaDue(r, size))
  }

  ghost predicate NoComma(s: string) {
    forall i :: 0 <= i < |s| ==> s[i] != ','
  }

  lemma {:induction false} GroupsHaveCommas(s: string, size: nat)
    requires size in {3, 4} && NoComma(s)
    ensures CommasEvery(Grouped(s, size), size)
    ensures s != "" ==> Grouped(s, size) != "" && Grouped(s, size)[0] == s[0]
    decreases |s|
  {
    hide Grouped;
    if |s| <= size {
      GroupedShort(s, size);
    } else {
      var high, low := s[..|s| - size], s[|s| - size..];
      GroupedSplit(s, size);
      GroupsHaveCommas(high, size);
      OneMoreGroup(Grouped(high, size), low, size);
    }
  }

  lemma OneMoreGroup(high: string, low: string, size: nat)
    requires size in {3, 4} && |low| == size && NoComma(low) && CommasEvery(high, size)
    ensures CommasEvery(high + "," + low, size)
  {
    hide CommaDue;
    var s := high + "," + low;
    forall r: nat {:trigger CommaDue(r, size)} | r < |s|
      ensures s[|s| - 1 - r] == ',' <==> CommaDue(r, size)
    {
      CommasInGroup(r, size);
      if r < size {
        assert s[|s| - 1 - r] == low[size - 1 - r];
      } else if r > size {
        var q: nat := r - (size + 1);
        assert s[|s| - 1 - r] == high[|high| - 1 - q];
      }
    }
  }

  lemma CommasInGroup(r: nat, size: nat)
    requires size in {3, 4}
    ensures r < size ==> !CommaDue(r, size)
    ensures r == size ==> CommaDue(r, size)
    ensures r > size ==> (CommaDue(r, size) <==> CommaDue(r - (size + 1), size))
  {
  }

  /** A digit of the base; base 16 has the letters of the case asked for. */
  predicate IsDigitOf(b: Base, ch: char) {
    || ('0' <= ch <= if b.Octal? then '7' else '9')
    || (b.Hex? && if b.upper then 'A' <= ch <= 'F' else 'a' <= ch <= 'f')
  }

  lemma {:induction false} NumeralIsDigits(b: Base, value: nat)
    ensures forall i :: 0 <= i < |Numeral(b, value)| ==> IsDigitOf(b, Numeral(b, value)[i])
    ensures NoComma(Numeral(b, value))
    ensures Numeral(b, value) == "" <==> value == 0
    ensures value > 0 ==> Numeral(b, value)[0] != '0'
  {
    hide Shorter, LastDigit;
    if value > 0 {
      NumeralIsDigits(b, Shorter(b, value));
      LastDigitIs(b, value);
    }
  }

  lemma LastDigitIs(b: Base, value: nat)
    ensures IsDigitOf(b, LastDigit(b, value)) && LastDigit(b, value) != ','
    ensures LastDigit(b, value) == '0' && Shorter(b, value) == 0 ==> value == 0
  {
    DigitsAre(b, value % b.Radix());
    assert value == Shorter(b, value) * b.Radix() + value % b.Radix();
  }

  lemma {:induction false} GroupedIsDigits(b: Base, s: string, size: nat)
    requires size > 0 && forall i :: 0 <= i < |s| ==> IsDigitOf(b, s[i])
    ensures forall i :: 0 <= i < |Grouped(s, size)| ==> Grouped(s, size)[i] == ',' || IsDigitOf(b, Grouped(s, size)[i])
    decreases |s|
  {
    hide IsDigitOf;
    if |s| > size {
      GroupedIsDigits(b, s[..|s| - size], size);
    }
  }

  /** The digits of a value, with commas if they are asked for: every 3 digits, or every 4 in base 16. */
  lemma NumeralShape(b: Base, c: Conversion, value: nat) returns (numeral: string)
    ensures numeral == WithCommas(b, c, Numeral(b, value))
    ensures numeral == "" <==> value == 0
    ensures value > 0 ==> numeral[0] != '0' && numeral[0] != ','
    ensures forall i :: 0 <= i < |numeral| ==> numeral[i] == ',' || IsDigitOf(b, numeral[i])
    ensures if c.flags.group then CommasEvery(numeral, if b.Hex? then 4 else 3) else NoComma(numeral)
  {
    hide Numeral, Grouped, IsDigitOf;
    numeral := WithCommas(b, c, Numeral(b, value));
    NumeralIsDigits(b, value);
    GroupsHaveCommas(Numeral(b, value), b.GroupSize());
    GroupedIsDigits(b, Numeral(b, value), b.GroupSize());
    if value == 0 {
      GroupedShort("", b.GroupSize());
    }
  }

  /** How many zeros the precision and the # flag in base 8 put in front of the digits. */
  function LeadingZeros(octalPrefix: bool, precision: int, digits: nat): (n: nat) {
    var least := if precision < 0 then 1 else if precision < 63 then precision else 63;
    if digits < least then least - digits else if octalPrefix then 1 else 0
  }

  lemma BodyShape(b: Base, c: Conversion, value: nat) returns (zeros: nat, numeral: string)
    ensures Body(b, c, value) == Repeat('0', zeros) + numeral && numeral == WithCommas(b, c, Numeral(b, value))
    ensures zeros == LeadingZeros(c.flags.pound && b.Octal?, c.precision, |numeral|)
  {
    hide Numeral, WithCommas;
    numeral := NumeralShape(b, c, value);
    var precision := if c.precision < 0 then 1 else c.precision;
    var n := Min(precision, BUFFER_SIZE - 1) - |numeral|;
    var padded := Repeat('0', n) + numeral;
    zeros := LeadingZeros(c.flags.pound && b.Octal?, c.precision, |numeral|);
    if n <= 0 {
      assert padded == numeral;
      assert "0" + numeral == Repeat('0', 1) + numeral;
    }
  }

  lemma SignShape(c: Conversion, isSigned: bool, negative: bool)
    ensures Sign(c, isSigned, negative)
         == if isSigned && negative then "-" else if isSigned && c.flags.plus then "+"
            else if isSigned && c.flags.space then " " else ""
  {
  }

  lemma PrefixShape(b: Base, c: Conversion, value: nat)
    ensures Prefix(b, c, value)
         == if value == 0 || !c.flags.pound || !b.Hex? then "" else if b.upper then "0X" else "0x"
  {
  }

  lemma NoNegativePad(ch: char, n: int)
    ensures Repeat(ch, n) == Repeat(ch, if n < 0 then 0 else n) && Repeat(ch, 0) == ""
  {
  }

  /**
   * The parts of a printed integer, from left to right. Only one of the three paddings is
   * there, on the side that the flags ask for, unless MINUS and ZERO are both set.
   */
  lemma TextShape(b: Base, c: Conversion, value: nat, isSigned: bool, negative: bool)
    returns (front: nat, sign: string, prefix: string, pad0: nat, zeros: nat, numeral: string, back: nat)
    ensures IntegerText(b, c, value, isSigned, negative)
         == Repeat(' ', front) + sign + prefix + Repeat('0', pad0) + (Repeat('0', zeros) + numeral) + Repeat(' ', back)
    ensures sign == if isSigned && negative then "-" else if isSigned && c.flags.plus then "+"
                    else if isSigned && c.flags.space then " " else ""
    ensures prefix == if value == 0 || !c.flags.pound || !b.Hex? then "" else if b.upper then "0X" else "0x"
    ensures zeros == LeadingZeros(c.flags.pound && b.Octal?, c.precision, |numeral|)
    ensures numeral == "" <==> value == 0
    ensures value > 0 ==> numeral[0] != '0' && numeral[0] != ','
    ensures forall i :: 0 <= i < |numeral| ==> numeral[i] == ',' || IsDigitOf(b, numeral[i])
    ensures if c.flags.group then CommasEvery(numeral, if b.Hex? then 4 else 3) else NoComma(numeral)
    ensures var short := c.width - |sign| - |prefix| - zeros - |numeral|;
            var pad := if short < 0 then 0 else short;
            && front == (if c.flags.minus || c.flags.zero then 0 else pad)
            && pad0 == (if c.flags.zero then pad else 0) && back == (if c.flags.minus then pad else 0)
  {
    hide Body, WithCommas, Numeral, CommasEvery, NoComma, IsDigitOf, LeadingZeros, Repeat, Sign, Prefix;
    SignShape(c, isSigned, negative);
    PrefixShape(b, c, value);
    zeros, numeral := BodyShape(b, c, value);
    var n := NumeralShape(b, c, value);
    sign, prefix := Sign(c, isSigned, negative), Prefix(b, c, value);
    var short := c.width - |sign| - |prefix| - |Body(b, c, value)|;
    var pad := if short < 0 then 0 else short;
    front := if c.flags.minus || c.flags.zero then 0 else pad;
    pad0 := if c.flags.zero then pad else 0;
    back := if c.flags.minus then pad else 0;
    NoNegativePad(' ', short);
    NoNegativePad('0', short);
  }
}
