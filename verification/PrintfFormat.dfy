/**
 The integer and string formatters of printf and the bounded buffer of
 vsnprintf (kernel/lib/stdio.c:6-47, 460-552).
 */
module PrintfFormat {
  import opened Pages
  import opened Sequences
  import opened PrintfText

  /** struct vsnprintf_aux with the buffer it writes to; `written` is everything that was output. */
  class BoundedOutput {
    const buffer: array<char>
    const bufSize: nat
    const maxLength: nat
    var p: nat
    var length: nat
    ghost const before: string
    ghost var written: string

    /** The buffer holds the longest prefix of the output that fits; the rest of it is as it was. */
    ghost predicate Valid()
      reads this, buffer
    {
      && bufSize <= buffer.Length && maxLength == (if bufSize > 0 then bufSize - 1 else 0)
      && |before| == buffer.Length && length == |written| && p == Min(length, maxLength)
      && buffer[..p] == written[..p]
      && buffer[p..] == before[p..]
    }

    /** The start of vsnprintf (stdio.c:24-29). */
    constructor (buffer: array<char>, bufSize: nat)
      requires bufSize <= buffer.Length
      ensures Valid() && written == "" && this.buffer == buffer && this.bufSize == bufSize
      ensures before == buffer[..]
    {
      this.buffer, this.bufSize := buffer, bufSize;
      maxLength := if bufSize > 0 then bufSize - 1 else 0;
      p, length := 0, 0;
      before, written := buffer[..], "";
    }

    /** vsnprintf_helper (stdio.c:42-47). */
    method Put(ch: char)
      requires Valid()
      modifies this, buffer
      ensures Valid() && written == old(written) + [ch]
    {
      ghost var i := p;
      if length < maxLength {
        buffer[p] := ch;
        p := p + 1;
      }
      length := length + 1;
      written := written + [ch];
    }

    /** The end of vsnprintf (stdio.c:34-38). */
    method Finish() returns (r: nat)
      requires Valid()
      modifies buffer
      ensures r == |written|
      ensures bufSize == 0 ==> buffer[..] == before
      ensures bufSize > 0 ==>
                var n := Min(|written|, bufSize - 1);
                buffer[..] == written[..n] + [NUL] + before[n + 1..]
    {
      if bufSize > 0 {
        buffer[p] := NUL;
      }
      r := length;
    }

    /** output_dup (stdio.c:535-538). */
    method PutRepeated(ch: char, count: nat)
      requires Valid()
      modifies this, buffer
      ensures Valid() && written == old(written) + Repeat(ch, count)
    {
      var n := 0;
      while n < count
        invariant Valid() && n <= count && written == old(written) + Repeat(ch, n)
      {
        Put(ch);
        n := n + 1;
      }
    }

    method PutString(s: string)
      requires Valid()
      modifies this, buffer
      ensures Valid() && written == old(written) + s
    {
      var n := 0;
      while n < |s|
        invariant Valid() && n <= |s| && written == old(written) + s[..n]
      {
        Put(s[n]);
        n := n + 1;
      }
    }

    /** format_string (stdio.c:543-552). */
    method FormatString(s: string, c: Conversion)
      requires Valid()
      modifies this, buffer
      ensures Valid()
      ensures var padding := Repeat(' ', c.width - |s|);
              written == old(written) + if c.flags.minus then s + padding else padding + s
    {
      if c.width > |s| && !c.flags.minus {
        PutRepeated(' ', c.width - |s|);
      }
      PutString(s);
      if c.width > |s| && c.flags.minus {
        PutRepeated(' ', c.width - |s|);
      }
    }

    /** Outputs the characters before cp, last first (stdio.c:528-529). */
    method PutReversed(buf: array<char>, cp: nat)
      requires Valid() && cp <= buf.Length && buf != buffer
      modifies this, buffer
      ensures Valid() && written == old(written) + Reversed(buf[..cp])
    {
      ghost var all, start := Reversed(buf[..cp]), written;
      var n := cp;
      while n > 0
        invariant Valid() && 0 <= n <= cp && written + Reversed(buf[..n]) == start + all
      {
        label Before:
        n := n - 1;
        assert buf[..n + 1] == buf[..n] + [buf[n]];
        ReversedAppend(buf[..n], buf[n]);
        Put(buf[n]);
        assert written + Reversed(buf[..n]) == old@Before(written) + ([buf[n]] + Reversed(buf[..n]));
      }
      assert buf[..0] == [] && Reversed<char>([]) == [] && written + [] == written;
    }

    /** format_integer (stdio.c:460-532). */
    method FormatInteger(value: nat, isSigned: bool, negative: bool, b: Base, c: Conversion)
      requires Valid() && value < TWO_TO_64
      modifies this, buffer
      ensures Valid() && written == old(written) + IntegerText(b, c, value, isSigned, negative)
    {
      hide Body, Repeat, Sign, Reversed, Valid, IntegerText, Front;
      var sign := Sign(c, isSigned, negative);
      var x := if c.flags.pound && value != 0 then b.X() else "";
      var buf, cp := FillBody(value, b, c);
      var padCnt := c.width - cp - (if x != "" then 2 else 0) - |sign|;
      if padCnt < 0 {
        padCnt := 0;
      }
      IntegerTextIs(b, c, value, isSigned, negative, padCnt);
      ghost var start, front := written, Front(sign, if x != "" then "0" + x else "", padCnt, c);
      ghost var body := Body(b, c, value);
      PutFront(sign, x, padCnt, c);
      PutReversed(buf, cp);
      Appended(start, front, body);
      if c.flags.minus {
        PutRepeated(' ', padCnt);
      }
      Appended(start, front + body, if c.flags.minus then Repeat(' ', padCnt) else "");
    }

    /** What format_integer outputs before the digits (stdio.c:518-527). */
    method PutFront(sign: string, x: string, padCnt: nat, c: Conversion)
      requires Valid()
      modifies this, buffer
      ensures Valid() && written == old(written) + Front(sign, if x != "" then "0" + x else "", padCnt, c)
    {
      hide Repeat, Valid;
      ghost var start := written;
      ghost var spaces := if c.flags.minus || c.flags.zero then "" else Repeat(' ', padCnt);
      ghost var prefix := if x != "" then "0" + x else "";
      if !c.flags.minus && !c.flags.zero {
        PutRepeated(' ', padCnt);
      }
      assert written == start + spaces;
      PutString(sign);
      Appended(start, spaces, sign);
      if x != "" {
        Put('0');
        PutString(x);
        Appended(start + (spaces + sign), "0", x);
      }
      Appended(start, spaces + sign, prefix);
      if c.flags.zero {
        PutRepeated('0', padCnt);
      }
      Appended(start, spaces + sign + prefix, if c.flags.zero then Repeat('0', padCnt) else "");
    }
  }

  lemma Appended(a: string, b: string, c: string)
    ensures a + b + c == a + (b + c) && a + "" == a
  {
  }

  function Front(sign: string, prefix: string, padCnt: nat, c: Conversion): (r: string) {
    (if c.flags.minus || c.flags.zero then "" else Repeat(' ', padCnt)) + sign + prefix
    + (if c.flags.zero then Repeat('0', padCnt) else "")
  }

  /** The order in which format_integer outputs the parts of its text. */
  lemma IntegerTextIs(b: Base, c: Conversion, value: nat, isSigned: bool, negative: bool, padCnt: nat)
    requires var pad := c.width - |Body(b, c, value)| - |Prefix(b, c, value)| - |Sign(c, isSigned, negative)|;
             padCnt == if pad < 0 then 0 else pad
    ensures IntegerText(b, c, value, isSigned, negative) ==
            Front(Sign(c, isSigned, negative), Prefix(b, c, value), padCnt, c) + Body(b, c, value)
            + (if c.flags.minus then Repeat(' ', padCnt) else "")
  {
    hide Body, Sign, Prefix;
  }

  /** Enough digits for base 8, and so for any base, when a value is below 8^n. */
  function Pow8(n: nat): (p: nat)
    ensures p > 0
  {
    if n == 0 then 1 else 8 * Pow8(n - 1)
  }

  /** `count` digits make up whole groups, at least one. */
  predicate WholeGroups(count: nat, size: nat)
    requires size > 0
  {
    count == size || (count > size && WholeGroups(count - size, size))
  }

  lemma {:induction false} WholeGroupsIsRemainder(count: nat, b: Base)
    ensures WholeGroups(count, b.GroupSize()) <==> count > 0 && count % b.GroupSize() == 0
  {
    if count > b.GroupSize() {
      WholeGroupsIsRemainder(count - b.GroupSize(), b);
    }
  }

  /** One more digit on the left of a grouped numeral. */
  lemma {:induction false} GroupedCons(d: char, low: string, size: nat)
    requires size > 0
    ensures Grouped([d] + low, size) == [d] + ((if WholeGroups(|low|, size) then "," else "") + Grouped(low, size))
    decreases |low|
  {
    hide Grouped;
    var n := |low|;
    if n < size {
      GroupedShort([d] + low, size);
      GroupedShort(low, size);
    } else {
      var high, last := low[..n - size], low[n - size..];
      SlicesOfCons(d, low, n - size);
      GroupedSplit([d] + low, size);
      GroupedCons(d, high, size);
      if n == size {
        GroupedShort(low, size);
        GroupedShort(high, size);
        assert Grouped([d] + low, size) == [d] + "" + "," + low;
      } else {
        GroupedSplit(low, size);
      }
    }
  }

  lemma SlicesOfCons(d: char, low: string, k: nat)
    requires k <= |low|
    ensures ([d] + low)[..k + 1] == [d] + low[..k] && ([d] + low)[k + 1..] == low[k..]
    ensures low[..0] == "" && low[0..] == low
  {
  }

  /** `*cp++ = ch`. */
  method Append(buf: array<char>, cp: nat, ch: char) returns (cp': nat)
    requires cp < buf.Length
    modifies buf
    ensures cp' == cp + 1 && Reversed(buf[..cp']) == [ch] + Reversed(old(buf[..cp]))
    ensures buf[cp] == ch
  {
    ghost var s := buf[..cp];
    buf[cp] := ch;
    cp' := cp + 1;
    assert buf[..cp'] == s + [ch];
    ReversedAppend(s, ch);
  }

  lemma StartOfDigits(b: Base, c: Conversion, value: nat)
    requires value < TWO_TO_64
    ensures value < Pow8(22) && WithCommas(b, c, "") == ""
  {
    assert Pow8(6) == 0x4_0000;
    EightMore(6);
    EightMore(14);
  }

  lemma EightMore(n: nat)
    ensures Pow8(n + 8) == 0x100_0000 * Pow8(n)
  {
    assert Pow8(n + 4) == 0x1000 * Pow8(n) by {
      assert Pow8(n + 2) == 0x40 * Pow8(n);
    }
    assert Pow8(n + 8) == 0x1000 * Pow8(n + 4) by {
      assert Pow8(n + 6) == 0x40 * Pow8(n + 4);
    }
  }

  lemma DigitFits(b: Base, rest: nat, n: nat)
    requires 0 < rest < Pow8(n)
    ensures n > 0 && Shorter(b, rest) < Pow8(n - 1)
  {
  }

  /** One turn of the digit loop: a digit moves from what is left of the value to the text. */
  lemma NumeralStep(b: Base, rest: nat, low: string)
    requires rest > 0
    ensures Numeral(b, Shorter(b, rest)) + ([LastDigit(b, rest)] + low) == Numeral(b, rest) + low
  {
    hide Numeral;
    NumeralSplit(b, rest);
    Appended(Numeral(b, Shorter(b, rest)), [LastDigit(b, rest)], low);
  }

  lemma NumeralSplit(b: Base, rest: nat)
    requires rest > 0
    ensures Numeral(b, rest) == Numeral(b, Shorter(b, rest)) + [LastDigit(b, rest)]
  {
  }

  lemma CommaStep(b: Base, c: Conversion, digit: char, low: string)
    ensures WithCommas(b, c, [digit] + low) ==
            var comma := c.flags.group && |low| > 0 && |low| % b.GroupSize() == 0;
            [digit] + ((if comma then [','] else []) + WithCommas(b, c, low))
  {
    hide Grouped, WholeGroups;
    GroupedCons(digit, low, b.GroupSize());
    WholeGroupsIsRemainder(|low|, b);
    assert [] + WithCommas(b, c, low) == WithCommas(b, c, low);
  }

  /** Commas do not outgrow the groups they separate. */
  predicate CommasFit(b: Base, digitCnt: nat, commas: nat) {
    commas == 0 || (if b.Hex? then 4 else 3) * commas < digitCnt
  }

  lemma OneComma(b: Base, digitCnt: nat, commas: nat)
    requires CommasFit(b, digitCnt, commas)
    ensures digitCnt > 0 && digitCnt % b.GroupSize() == 0 ==> CommasFit(b, digitCnt + 1, commas + 1)
    ensures CommasFit(b, digitCnt + 1, commas)
  {
  }

  lemma FewCommas(b: Base, digitCnt: nat, commas: nat)
    ensures CommasFit(b, digitCnt, commas) && digitCnt <= 22 ==> commas <= 7
  {
  }

  /**
   * The digit loop of format_integer, in reverse (stdio.c:491-499). Base 8 needs at
   * most 22 digits for 64 bits, and they take at most 7 commas.
   */
  method FillDigits(value: nat, b: Base, c: Conversion, buf: array<char>) returns (cp: nat)
    requires value < TWO_TO_64 && buf.Length == BUFFER_SIZE
    modifies buf
    ensures cp <= 29 && Reversed(buf[..cp]) == WithCommas(b, c, Numeral(b, value))
  {
    hide Numeral, Reversed, WithCommas, Pow8, CommasFit, LastDigit, Shorter;
    StartOfDigits(b, c, value);
    NoCommas(b);
    cp := 0;
    var rest: nat, digitCnt: nat := value, 0;
    ghost var low, commas := "", 0;
    assert Numeral(b, rest) + low == Numeral(b, value);
    EmptyReversed(buf[..cp]);
    while rest > 0
      invariant |low| == digitCnt <= 22 && rest < Pow8(22 - digitCnt)
      invariant cp == digitCnt + commas <= 29 && CommasFit(b, digitCnt, commas)
      invariant Numeral(b, rest) + low == Numeral(b, value)
      invariant Reversed(buf[..cp]) == WithCommas(b, c, low)
    {
      DigitFits(b, rest, 22 - digitCnt);
      NumeralStep(b, rest, low);
      CommaStep(b, c, LastDigit(b, rest), low);
      OneComma(b, digitCnt, commas);
      FewCommas(b, digitCnt + 1, commas + 1);
      FewCommas(b, digitCnt + 1, commas);
      var comma := c.flags.group && digitCnt > 0 && digitCnt % b.GroupSize() == 0;
      cp := PutDigit(buf, cp, comma, LastDigit(b, rest));
      commas := if comma then commas + 1 else commas;
      low := [LastDigit(b, rest)] + low;
      rest := Shorter(b, rest);
      digitCnt := digitCnt + 1;
    }
    NoDigits(b, low);
  }

  /** A comma if one is due, and a digit (stdio.c:494-496). */
  method PutDigit(buf: array<char>, cp: nat, comma: bool, digit: char) returns (cp': nat)
    requires cp + 1 < buf.Length
    modifies buf
    ensures cp' == cp + if comma then 2 else 1
    ensures Reversed(buf[..cp']) == [digit] + ((if comma then [','] else []) + Reversed(old(buf[..cp])))
  {
    hide Reversed;
    cp' := cp;
    assert [] + Reversed(buf[..cp]) == Reversed(buf[..cp]);
    if comma {
      cp' := Append(buf, cp', ',');
    }
    cp' := Append(buf, cp', digit);
  }

  lemma NoCommas(b: Base)
    ensures CommasFit(b, 0, 0)
  {
  }

  lemma EmptyReversed(s: string)
    requires s == ""
    ensures Reversed(s) == ""
  {
  }

  lemma NoDigits(b: Base, low: string)
    ensures Numeral(b, 0) + low == low
  {
  }

  /** Zeros up to the precision, as far as the buffer goes (stdio.c:506-508). */
  method PadZeros(buf: array<char>, start: nat, precision: nat) returns (cp: nat)
    requires start < buf.Length == BUFFER_SIZE
    modifies buf
    ensures cp == Max(start, Min(precision, BUFFER_SIZE - 1))
    ensures Reversed(buf[..cp]) == Repeat('0', cp - start) + Reversed(old(buf[..start]))
  {
    hide Reversed, Repeat;
    ghost var text := Reversed(buf[..start]);
    MoreZeros(0, text);
    cp := start;
    while cp < precision && cp < BUFFER_SIZE - 1
      invariant start <= cp < BUFFER_SIZE && (cp > start ==> cp <= precision)
      invariant Reversed(buf[..cp]) == Repeat('0', cp - start) + text
    {
      MoreZeros(cp - start, text);
      cp := Append(buf, cp, '0');
    }
  }

  /** The zero that an octal number starts with when the # flag asks for it (stdio.c:509-510). */
  method PadOctal(buf: array<char>, start: nat, wanted: bool) returns (cp: nat)
    requires start < buf.Length
    modifies buf
    ensures cp <= start + 1
    ensures var text := Reversed(old(buf[..start]));
            Reversed(buf[..cp]) == if wanted && (text == "" || text[0] != '0') then ['0'] + text else text
  {
    hide Reversed;
    cp := start;
    if cp > 0 {
      ReversedAt(buf[..cp], 0);
    } else {
      EmptyReversed(buf[..cp]);
    }
    if wanted && (cp == 0 || buf[cp - 1] != '0') {
      cp := Append(buf, cp, '0');
    }
  }

  /**
   * The first half of format_integer: digits, commas and zeros, in reverse, in a buffer
   * of 64 characters that they never overrun (stdio.c:488-510).
   */
  method FillBody(value: nat, b: Base, c: Conversion) returns (buf: array<char>, cp: nat)
    requires value < TWO_TO_64
    ensures fresh(buf) && cp <= buf.Length == BUFFER_SIZE
    ensures Reversed(buf[..cp]) == Body(b, c, value)
  {
    hide Numeral, WithCommas, Reversed, Body, Repeat;
    buf := new char[BUFFER_SIZE];
    var start := FillDigits(value, b, c, buf);
    cp := PadZeros(buf, start, if c.precision < 0 then 1 else c.precision);
    BodyIs(b, c, value, cp - start);
    cp := PadOctal(buf, cp, c.flags.pound && b.Octal?);
  }

  lemma MoreZeros(n: nat, s: string)
    ensures ['0'] + (Repeat('0', n) + s) == Repeat('0', n + 1) + s
    ensures Repeat('0', 0) + s == s
  {
    hide Repeat;
    assert ['0'] + Repeat('0', n) == Repeat('0', n + 1);
    Appended(['0'], Repeat('0', n), s);
  }

  lemma BodyIs(b: Base, c: Conversion, value: nat, zeros: nat)
    requires var precision := if c.precision < 0 then 1 else c.precision;
             var n := Min(precision, BUFFER_SIZE - 1) - |WithCommas(b, c, Numeral(b, value))|;
             zeros == if n < 0 then 0 else n
    ensures var padded := Repeat('0', zeros) + WithCommas(b, c, Numeral(b, value));
            Body(b, c, value) ==
            if c.flags.pound && b.Octal? && (padded == "" || padded[0] != '0') then ['0'] + padded else padded
  {
    hide Numeral, WithCommas;
  }
}
