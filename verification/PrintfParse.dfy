/**
 The parser of printf conversions (kernel/lib/stdio.c:343-451), and an integer
 conversion from its format text to the caller's buffer.
 */
module PrintfParse {
  import opened Pages
  import opened PrintfText
  import opened PrintfFormat

  /** The argument type a conversion asks for. */
  datatype ArgType = CharArg | ShortArg | IntArg | IntMaxArg | LongArg | LongLongArg | PtrDiffArg | SizeArg

  /** A character of a format string, which ends in a NUL. */
  function At(format: string, i: nat): (r: char) {
    if i < |format| then format[i] else NUL
  }

  predicate IsFlag(ch: char) {
    ch in "-+ #0'"
  }

  predicate IsDigit(ch: char) {
    '0' <= ch <= '9'
  }

  /** Where the flags that start at i end. */
  function FlagsEnd(format: string, i: nat): (end: nat)
    requires i <= |format|
    ensures i <= end <= |format|
    decreases |format| - i
  {
    if IsFlag(At(format, i)) then FlagsEnd(format, i + 1) else i
  }

  function DigitsEnd(format: string, i: nat): (end: nat)
    requires i <= |format|
    ensures i <= end <= |format|
    decreases |format| - i
  {
    if IsDigit(At(format, i)) then DigitsEnd(format, i + 1) else i
  }

  function Number(s: string): (r: nat)
    requires forall i :: 0 <= i < |s| ==> IsDigit(s[i])
  {
    if s == "" then 0
    else
      assert IsDigit(s[|s| - 1]);
      Number(s[..|s| - 1]) * 10 + (s[|s| - 1] as int - '0' as int)
  }

  lemma {:induction false} DigitsBetween(format: string, i: nat)
    requires i <= |format|
    ensures forall k :: i <= k < DigitsEnd(format, i) ==> IsDigit(format[k])
    decreases |format| - i
  {
    if IsDigit(At(format, i)) {
      DigitsBetween(format, i + 1);
    }
  }

  /** The number written at i, as strtol would read it; 0 if there are no digits. */
  function NumberAt(format: string, i: nat): (r: nat)
    requires i <= |format|
  {
    DigitsBetween(format, i);
    Number(format[i..DigitsEnd(format, i)])
  }

  /** The type letters at i, and where they end (stdio.c:414-448). */
  function TypeAt(format: string, i: nat): (r: (ArgType, nat))
    ensures r.1 == i || (i < r.1 <= |format|)
  {
    match At(format, i)
    case 'h' => if At(format, i + 1) == 'h' then (CharArg, i + 2) else (ShortArg, i + 1)
    case 'l' => if At(format, i + 1) == 'l' then (LongLongArg, i + 2) else (LongArg, i + 1)
    case 'j' => (IntMaxArg, i + 1)
    case 't' => (PtrDiffArg, i + 1)
    case 'z' => (SizeArg, i + 1)
    case _ => (IntArg, i)
  }

  /** The flag loop of parse_conversion (stdio.c:349-375). */
  method ParseFlags(format: string, start: nat) returns (flags: Flags, i: nat)
    requires start <= |format|
    ensures i == FlagsEnd(format, start)
    ensures var given := format[start..i];
            flags == Flags('-' in given, '+' in given, ' ' in given, '#' in given, '0' in given, '\'' in given)
  {
    flags := Flags(false, false, false, false, false, false);
    i := start;
    while IsFlag(At(format, i))
      invariant start <= i <= |format| && FlagsEnd(format, start) == FlagsEnd(format, i)
      invariant var given := format[start..i];
                flags == Flags('-' in given, '+' in given, ' ' in given, '#' in given, '0' in given, '\'' in given)
      decreases |format| - i
    {
      var ch := format[i];
      assert format[start..i + 1] == format[start..i] + [ch];
      flags := match ch
        case '-' => flags.(minus := true)
        case '+' => flags.(plus := true)
        case ' ' => flags.(space := true)
        case '#' => flags.(pound := true)
        case '0' => flags.(zero := true)
        case _ => flags.(group := true);
      i := i + 1;
    }
  }

  /** The digit loops of parse_conversion (stdio.c:388-389, 405-406). */
  method ParseNumber(format: string, start: nat) returns (n: nat, i: nat)
    requires start <= |format|
    ensures i == DigitsEnd(format, start) && n == NumberAt(format, start)
  {
    DigitsBetween(format, start);
    i, n := start, 0;
    while IsDigit(At(format, i))
      invariant start <= i <= DigitsEnd(format, start) == DigitsEnd(format, i) && i <= |format|
      invariant n == Number(format[start..i])
      decreases |format| - i
    {
      assert format[start..i + 1][..i - start] == format[start..i];
      n := n * 10 + (format[i] as int - '0' as int);
      i := i + 1;
    }
  }

  /** The width written at i, or the first argument for a `*`, and where it ends. */
  function WidthAt(format: string, i: nat, star: int): (r: (int, nat))
    requires i <= |format|
    ensures i <= r.1 <= |format|
  {
    if At(format, i) == '*' then (star, i + 1) else (NumberAt(format, i), DigitsEnd(format, i))
  }

  /** The precision written at i, or an argument for `.*`, or -1, and where it ends. */
  function PrecisionAt(format: string, i: nat, star: int): (r: (int, nat))
    requires i <= |format|
    ensures i <= r.1 <= |format|
  {
    if At(format, i) != '.' then (-1, i)
    else if At(format, i + 1) == '*' then (star, i + 2)
    else (NumberAt(format, i + 1), DigitsEnd(format, i + 1))
  }

  /** stdio.c:382-390. */
  method ParseWidth(format: string, start: nat, star: int) returns (width: int, i: nat)
    requires start <= |format|
    ensures (width, i) == WidthAt(format, start, star)
  {
    if At(format, start) == '*' {
      return star, start + 1;
    }
    width, i := ParseNumber(format, start);
  }

  /** stdio.c:396-410. */
  method ParsePrecision(format: string, start: nat, star: int) returns (precision: int, i: nat)
    requires start <= |format|
    ensures var (given, end) := PrecisionAt(format, start, star);
            i == end && precision == if given < 0 then -1 else given
  {
    precision, i := -1, start;
    if At(format, i) == '.' {
      i := i + 1;
      if At(format, i) == '*' {
        precision, i := star, i + 1;
      } else {
        precision, i := ParseNumber(format, i);
      }
      if precision < 0 {
        precision := -1;
      }
    }
  }

  /** A conversion with its argument type, and where its text ends. */
  datatype Parsed = Parsed(c: Conversion, argType: ArgType, end: nat)

  /** What parse_conversion makes of the text at `start`, given the arguments that a `*` would take. */
  predicate Specifies(p: Parsed, format: string, start: nat, starWidth: int, starPrecision: int)
    requires start <= |format|
  {
    var i := FlagsEnd(format, start);
    var given := format[start..i];
    var (width, j) := WidthAt(format, i, starWidth);
    var (precision, k) := PrecisionAt(format, j, starPrecision);
    && p.c.width == (if width < 0 then -width else width)
    && p.c.precision == (if precision < 0 then -1 else precision)
    && p.c.flags.minus == ('-' in given || width < 0)
    && p.c.flags.plus == ('+' in given) && p.c.flags.space == (' ' in given && '+' !in given)
    && p.c.flags.pound == ('#' in given) && p.c.flags.group == ('\'' in given)
    && p.c.flags.zero == ('0' in given && '-' !in given && precision < 0)
    && (p.argType, p.end) == TypeAt(format, k)
  }

  /** A negative width from an argument, after a 0 flag, with no - flag and no precision. */
  predicate PadsTwice(format: string, start: nat, starWidth: int, starPrecision: int)
    requires start <= |format|
  {
    var i := FlagsEnd(format, start);
    && At(format, i) == '*' && starWidth < 0
    && '0' in format[start..i] && '-' !in format[start..i]
    && PrecisionAt(format, i + 1, starPrecision).0 < 0
  }

  /** parse_conversion (stdio.c:347-451). */
  method ParseConversion(format: string, start: nat, starWidth: int, starPrecision: int) returns (p: Parsed)
    requires start <= |format|
    ensures Specifies(p, format, start, starWidth, starPrecision)
    ensures p.c.flags.minus && p.c.flags.zero <==> PadsTwice(format, start, starWidth, starPrecision)
  {
    hide FlagsEnd, NumberAt, DigitsEnd, TypeAt, PrecisionAt;
    var flags, i := ParseFlags(format, start);
    if flags.minus {
      flags := flags.(zero := false);
    }
    if flags.plus {
      flags := flags.(space := false);
    }
    var width;
    width, i := ParseWidth(format, i, starWidth);
    if width < 0 {
      width := -width;
      flags := flags.(minus := true);
    }
    var precision;
    precision, i := ParsePrecision(format, i, starPrecision);
    if precision >= 0 {
      flags := flags.(zero := false);
    }
    var (argType, end) := TypeAt(format, i);
    p := Parsed(Conversion(flags, width, precision), argType, end);
  }

  function Abs(x: int): (r: nat)
    ensures r == x || r == -x
  {
    if x < 0 then -x else x
  }

  /** One more than the largest unsigned value of an argument type. */
  function Modulus(t: ArgType): (m: nat)
    ensures 0 < m <= TWO_TO_64
  {
    match t
    case CharArg => 0x100
    case ShortArg => 0x1_0000
    case IntArg => TWO_TO_32
    case _ => TWO_TO_64
  }

  predicate IsIntegerLetter(letter: char) {
    letter in "dioux" || letter == 'X' || letter == 'p'
  }

  predicate IsSignedLetter(letter: char) {
    letter in "di"
  }

  /** The number that a conversion takes from the 64 bits of its argument (stdio.c:160-240, 281-288). */
  function ArgumentValue(letter: char, t: ArgType, bits: nat): (value: int)
    ensures Abs(value) < TWO_TO_64 && (value < 0 ==> IsSignedLetter(letter))
  {
    var m := if letter == 'p' then TWO_TO_64 else Modulus(t);
    if IsSignedLetter(letter) && bits % m >= m / 2 then bits % m - m else bits % m
  }

  function BaseOf(letter: char): (b: Base) {
    match letter
    case 'o' => Octal
    case 'x' => Hex(false)
    case 'X' => Hex(true)
    case 'p' => Hex(false)
    case _ => Decimal
  }

  /** The flags given, but a pointer's are always #. */
  function ConversionFor(letter: char, c: Conversion): (c': Conversion) {
    if letter == 'p' then c.(flags := Flags(false, false, false, true, false, false)) else c
  }

  /** What is printed for an argument. */
  function ArgumentText(letter: char, p: Parsed, bits: nat): (text: string) {
    var value := ArgumentValue(letter, p.argType, bits);
    IntegerText(BaseOf(letter), ConversionFor(letter, p.c), Abs(value), IsSignedLetter(letter), value < 0)
  }

  /** What is printed for an argument, without its padding. */
  function ArgumentCore(letter: char, p: Parsed, bits: nat): (text: string) {
    var value := ArgumentValue(letter, p.argType, bits);
    Core(BaseOf(letter), ConversionFor(letter, p.c), Abs(value), IsSignedLetter(letter), value < 0)
  }

  /** The letter of the conversion at `start`. */
  function LetterAt(format: string, start: nat): (r: char)
    requires start <= |format|
  {
    At(format, TypeAt(format, PrecisionAt(format, WidthAt(format, FlagsEnd(format, start), 0).1, 0).1).1)
  }

  lemma ParsedUpToLetter(p: Parsed, format: string, start: nat, starWidth: int, starPrecision: int)
    requires start <= |format| && Specifies(p, format, start, starWidth, starPrecision)
    ensures At(format, p.end) == LetterAt(format, start)
    ensures PadsTwice(format, start, starWidth, starPrecision) ==> p.c.width == -starWidth
  {
    hide FlagsEnd, NumberAt, DigitsEnd, TypeAt;
  }

  lemma ArgumentPrinted(letter: char, p: Parsed, bits: nat)
    requires IsIntegerLetter(letter)
    ensures var value := ArgumentValue(letter, p.argType, bits);
            var radix := if letter in "diu" then 10 else if letter == 'o' then 8 else 16;
            Read(radix, ArgumentText(letter, p, bits)) == (value < 0, Abs(value))
    ensures |ArgumentText(letter, p, bits)| == Max(p.c.width, |ArgumentCore(letter, p, bits)|) <==>
              letter == 'p' || !(p.c.flags.minus && p.c.flags.zero && p.c.width > |ArgumentCore(letter, p, bits)|)
  {
    hide IntegerText, Core, Read;
    var value, b, c := ArgumentValue(letter, p.argType, bits), BaseOf(letter), ConversionFor(letter, p.c);
    FieldWidth(b, c, Abs(value), IsSignedLetter(letter), value < 0);
    IntegerRoundTrip(b, c, Abs(value), IsSignedLetter(letter), value < 0);
  }

  /** The switches of __vprintf for an integer (stdio.c:165-291). */
  method PrintArgument(output: BoundedOutput, letter: char, p: Parsed, bits: nat)
    requires output.Valid() && IsIntegerLetter(letter)
    modifies output, output.buffer
    ensures output.Valid() && output.written == old(output.written) + ArgumentText(letter, p, bits)
  {
    hide IntegerText;
    var value := ArgumentValue(letter, p.argType, bits);
    output.FormatInteger(Abs(value), IsSignedLetter(letter), value < 0, BaseOf(letter), ConversionFor(letter, p.c));
  }

  /**
   * vsnprintf of a format that is one integer conversion, from its flags on. Whatever
   * the flags, width, precision, argument type and letter, a buffer with room holds a text
   * that reads back as the number in the argument; a shorter one holds as much of it as fits.
   */
  method SnprintfInteger(buffer: array<char>, bufSize: nat, format: string, starWidth: int, starPrecision: int,
                         bits: nat)
    returns (r: nat, p: Parsed)
    requires bufSize <= buffer.Length && IsIntegerLetter(LetterAt(format, 0))
    modifies buffer
    ensures Specifies(p, format, 0, starWidth, starPrecision)
    ensures r == |ArgumentText(LetterAt(format, 0), p, bits)|
    ensures var letter := LetterAt(format, 0);
            var value := ArgumentValue(letter, p.argType, bits);
            var radix := if letter in "diu" then 10 else if letter == 'o' then 8 else 16;
            r < bufSize ==>
              && buffer[r] == NUL && buffer[..r] == ArgumentText(letter, p, bits)
              && Read(radix, buffer[..r]) == (value < 0, Abs(value))
    ensures 0 < bufSize <= r ==>
              && buffer[bufSize - 1] == NUL
              && buffer[..bufSize - 1] == ArgumentText(LetterAt(format, 0), p, bits)[..bufSize - 1]
    ensures buffer[bufSize..] == old(buffer[bufSize..])
    ensures var letter, core := LetterAt(format, 0), |ArgumentCore(LetterAt(format, 0), p, bits)|;
            r != Max(p.c.width, core) <==>
            letter != 'p' && PadsTwice(format, 0, starWidth, starPrecision) && -starWidth > core
  {
    hide LetterAt, Specifies, PadsTwice, ArgumentValue, ArgumentText, ArgumentCore, Read, BoundedOutput.Valid;
    p := ParseConversion(format, 0, starWidth, starPrecision);
    ParsedUpToLetter(p, format, 0, starWidth, starPrecision);
    var letter := At(format, p.end);
    var output := new BoundedOutput(buffer, bufSize);
    PrintArgument(output, letter, p, bits);
    r := output.Finish();
    ghost var text := ArgumentText(letter, p, bits);
    assert "" + text == text;
    ArgumentPrinted(letter, p, bits);
    Truncated(buffer[..], text, bufSize, output.before);
  }

  /** What Finish leaves in the buffer, piece by piece. */
  lemma Truncated(after: string, text: string, bufSize: nat, before: string)
    requires bufSize <= |before| == |after|
    requires bufSize == 0 ==> after == before
    requires bufSize > 0 ==> after == text[..Min(|text|, bufSize - 1)] + [NUL] + before[Min(|text|, bufSize - 1) + 1..]
    ensures |text| < bufSize ==> after[..|text|] == text && after[|text|] == NUL
    ensures 0 < bufSize <= |text| ==> after[..bufSize - 1] == text[..bufSize - 1] && after[bufSize - 1] == NUL
    ensures after[bufSize..] == before[bufSize..]
  {
  }
}
