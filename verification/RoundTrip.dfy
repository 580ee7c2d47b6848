/** Printing a number with `number` and reading it back with simple_strtoull or simple_strtol. */
module RoundTrip {
  import opened Bits
  import opened Decimal
  import opened NumberFormat
  import opened StringToNumber

  /** The arguments of one call of `number`, and the pieces of what it prints. */
  datatype Print = Print(num: DWord, base: nat, size: int, precision: int, f: Flags) {

    predicate Valid() { base == 8 || base == 10 || base == 16 }

    function Output(): Text
      requires Valid()
    {
      NumberText(num, base, size, precision, f)
    }

    function Magnitude(): nat { MagnitudeOf(num, f) }
    function Prefix(): Text { PrefixText(base, f) }

    function Digits(): Text
      requires Valid()
    {
      DigitText(Magnitude(), base, f.small)
    }

    /** How many columns the contents leave free. */
    function Slack(): int
      requires Valid()
    {
      size - |SignText(num, f)| - |Prefix()| - Max(|Digits()|, precision)
    }

    /** The zeros in front of the digits, from zero padding and from the precision. */
    function Zeros(): nat
      requires Valid()
    {
      (if f.zeropad && !f.left then Max(0, Slack()) else 0) + (Max(|Digits()|, precision) - |Digits()|)
    }

    function AllDigits(): Text
      requires Valid()
    {
      Repeat('0', Zeros()) + Digits()
    }

    function Body(): Text
      requires Valid()
    {
      Prefix() + AllDigits()
    }

    function Trailing(): Text
      requires Valid()
    {
      Trail(Slack(), f)
    }

    /** Where a reader should stop: behind the digits, before the field's trailing spaces. */
    function Stop(): int
      requires Valid()
    {
      |Output()| - |Trailing()|
    }

    /** The printed text starts with its sign, prefix or digits: no padding spaces in front. */
    predicate NoLead()
      requires Valid()
    {
      f.left || f.zeropad || Slack() <= 0
    }

    /** The base arguments under which the text can be read: the printing base itself (but "0X" is not
        a prefix the parser knows), or 0 when the prefix, or the lack of leading zeros, tells it. */
    predicate Readable(b: Word)
    {
      && Valid() && NoLead() && Prefix() != "0X"
      && (b == base || (b == 0 && Prefix() != "") || (b == 0 && base == 10 && Zeros() == 0))
    }

    /** The rest of the string does not continue the number. */
    predicate Ends(rest: Text)
      requires Valid()
    {
      '\0' !in rest && !Accepted(At(Trailing() + rest, 0), base)
    }

    /** A lone "0" followed by "x" and a hex digit, which together look like a prefix. */
    predicate Trap(rest: Text)
      requires Valid()
    {
      LoneZeroTrap(Prefix(), AllDigits(), Trailing() + rest)
    }
  }

  lemma {:induction false} RepeatJoin(c: char, m: nat, n: nat)
    ensures Repeat(c, m) + Repeat(c, n) == Repeat(c, m + n)
  {
    if n > 0 {
      RepeatJoin(c, m, n - 1);
      Regroup(Repeat(c, m), Repeat(c, n - 1), [c]);
    } else {
      assert Repeat(c, m) + [] == Repeat(c, m);
    }
  }

  /** No leading zero, except for zero itself. */
  lemma {:induction false} FirstDigit(n: nat, base: nat, small: bool)
    requires 2 <= base <= 16
    ensures n == 0 ==> DigitText(n, base, small) == "0"
    ensures n > 0 ==> DigitText(n, base, small)[0] != '0'
    decreases n
  {
    if n >= base {
      Quotient(n, base);
      FirstDigit(n / base, base, small);
    }
  }

  /** The printed text is the sign, the body and the trailing spaces. */
  lemma PrintedParts(p: Print)
    requires p.Valid() && p.NoLead()
    ensures p.Output() == SignText(p.num, p.f) + (p.Body() + p.Trailing())
  {
    var zeros := Max(|p.Digits()|, p.precision) - |p.Digits()|;
    var fill := if p.f.zeropad && !p.f.left then Max(0, p.Slack()) else 0;
    assert Lead(p.Slack(), p.f) == [] && Fill(p.Slack(), p.f) == Repeat('0', fill);
    RepeatJoin('0', fill, zeros);
    Assemble(SignText(p.num, p.f), p.Prefix(), Repeat('0', fill), Repeat('0', zeros), p.Digits(), p.Trailing());
  }

  lemma Assemble(s: Text, p: Text, f: Text, z: Text, d: Text, t: Text)
    ensures ([] + s + p + f) + (z + d + t) == s + ((p + (f + z + d)) + t)
  {
  }

  lemma DigitsParse(p: Print)
    requires p.Valid()
    ensures AllAccepted(p.AllDigits(), p.base) && Horner(p.AllDigits(), p.base) == p.Magnitude()
  {
    DigitTextAccepted(p.Magnitude(), p.base, p.f.small);
    ZerosInFront(p.Zeros(), p.Digits(), p.base);
  }

  lemma BodyChars(p: Print)
    requires p.Valid()
    ensures '\0' !in p.Body() && p.Body()[0] != '-'
  {
    DigitsParse(p);
    Printable(p.Prefix(), p.AllDigits(), p.base);
  }

  lemma Printable(prefix: Text, digits: Text, base: nat)
    requires (prefix == "" || prefix == "0" || prefix == "0x" || prefix == "0X")
    requires digits != [] && AllAccepted(digits, base)
    ensures '\0' !in prefix + digits && (prefix + digits)[0] != '-'
  {
    assert Accepted(digits[0], base);
  }

  lemma TrailingSpaces(p: Print)
    requires p.Valid()
    ensures '\0' !in p.Trailing() && p.Ends("") && !p.Trap("")
  {
    var t := p.Trailing();
    forall i | 0 <= i < |t|
      ensures t[i] == ' '
    {
      RepeatAt(' ', p.Slack(), i);
    }
    assert t + "" == t;
  }

  lemma ArgumentFits(p: Print, b: Word)
    requires p.Readable(b)
    ensures BaseArgument(b, p.base, p.Prefix(), p.AllDigits())
  {
    FirstDigit(p.Magnitude(), p.base, p.f.small);
    if p.Zeros() == 0 {
      assert p.AllDigits() == p.Digits();
    }
  }

  lemma ParseBody(p: Print, rest: Text, b: Word)
    requires p.Readable(b) && p.Ends(rest)
    ensures '\0' !in p.Body() + (p.Trailing() + rest)
    ensures !p.Trap(rest) ==> Parsed(p.Body() + (p.Trailing() + rest), b) == (p.Magnitude(), |p.Body()|)
    ensures p.Trap(rest) ==> Parsed(p.Body() + (p.Trailing() + rest), b).1 > |p.Body()|
  {
    DigitsParse(p);
    BodyChars(p);
    TrailingSpaces(p);
    ArgumentFits(p, b);
    ParsePrinted(p.Prefix(), p.AllDigits(), p.Trailing() + rest, p.base, b);
  }

  /** Unsigned: for every 64-bit number, every layout without leading spaces and every rest of the
      string that does not continue the number, parsing undoes printing -- exactly when the lone zero
      is not followed by "x" and a hex digit. */
  lemma UnsignedRoundTrip(p: Print, rest: Text, b: Word)
    requires p.Readable(b) && !p.f.sign && p.Ends(rest)
    ensures '\0' !in p.Output() + rest
    ensures Parsed(p.Output() + rest, b) == (p.num, p.Stop()) <==> !p.Trap(rest)
  {
    ParseBody(p, rest, b);
    OutputSplit(p, rest);
    assert p.Output() + rest == p.Body() + (p.Trailing() + rest);
  }

  /** The exception is real: octal zero in front of "xA" is read as hexadecimal ten. */
  lemma TrapExample()
    ensures var p := Print(0, 8, -1, -1, Flags(false, false, false, false, false, false, false));
      && p.Readable(8) && !p.f.sign && p.Ends("xA") && p.Trap("xA")
      && p.Output() == "0" && Parsed("0xA", 8) == (10, 3)
  {
    var p := Print(0, 8, -1, -1, Flags(false, false, false, false, false, false, false));
    assert p.Digits() == "0" && p.Zeros() == 0 && p.AllDigits() == "0";
    assert p.Output() == "0";
    assert At("0xA", 1) == 'x' && At("0xA", 2) == 'A';
    assert RunEnd("0xA", 2, 16) == 3 && "0xA"[2..3] == "A";
    assert Horner("A", 16) == 10;
  }

  lemma OutputSplit(p: Print, rest: Text)
    requires p.Valid() && p.NoLead()
    ensures p.Output() + rest == SignText(p.num, p.f) + (p.Body() + (p.Trailing() + rest))
    ensures "" + (p.Body() + (p.Trailing() + rest)) == p.Body() + (p.Trailing() + rest)
    ensures p.Stop() == |SignText(p.num, p.f)| + |p.Body()|
  {
    PrintedParts(p);
    SplitOutput(SignText(p.num, p.f), p.Body(), p.Trailing(), rest);
  }

  lemma SplitOutput(sign: Text, body: Text, trail: Text, rest: Text)
    ensures (sign + (body + trail)) + rest == sign + (body + (trail + rest))
    ensures "" + (body + (trail + rest)) == body + (trail + rest)
  {
  }

  /** A signed 32-bit value as the 64-bit argument `number` receives. */
  function Extended(v: int): DWord
    requires -0x8000_0000 <= v < 0x8000_0000
  {
    if v < 0 then v + DWORD else v
  }

  /** Signed: all 32-bit values, the minimum included, survive printing and simple_strtol. */
  lemma SignedRoundTrip(v: int, p: Print, rest: Text, b: Word)
    requires -0x8000_0000 <= v < 0x8000_0000 && p.num == Extended(v)
    requires p.f.sign && !p.f.plus && !p.f.space && p.Readable(b) && p.Ends(rest)
    ensures '\0' !in p.Output() + rest
    ensures ParsedSigned(p.Output() + rest, b) == (v, p.Stop()) <==> !p.Trap(rest)
  {
    OutputSplit(p, rest);
    ParseBody(p, rest, b);
    BodyChars(p);
    SignedOutcome(v, p.Output() + rest, p.Stop(), SignText(p.num, p.f), p.Body() + (p.Trailing() + rest),
                  |p.Body()|, p.Trap(rest), b);
  }

  lemma SignedOutcome(v: int, s: Text, stop: int, sign: Text, tail: Text, n: nat, trap: bool, b: Word)
    requires s == sign + tail && stop == |sign| + n
    requires -0x8000_0000 <= v < 0x8000_0000 && sign == if v < 0 then "-" else ""
    requires '\0' !in tail && tail != [] && tail[0] != '-'
    requires !trap ==> Parsed(tail, b) == (if v < 0 then -v else v, n)
    requires trap ==> Parsed(tail, b).1 > n
    ensures '\0' !in s
    ensures ParsedSigned(s, b) == (v, stop) <==> !trap
  {
    if v < 0 {
      ReadMinus(tail, b);
      NegateBack(v);
    } else {
      assert s == tail;
      ReadPlain(tail, b);
    }
  }

  lemma ReadPlain(tail: Text, b: Word)
    requires '\0' !in tail && tail != [] && tail[0] != '-'
    ensures ParsedSigned(tail, b) == (Signed(Parsed(tail, b).0 % WORD), Parsed(tail, b).1)
  {
  }

  lemma NegateBack(v: int)
    requires -0x8000_0000 <= v < 0
    ensures Signed(Negate(-v % WORD)) == v
  {
  }

  lemma ReadMinus(tail: Text, b: Word)
    requires '\0' !in tail
    ensures '\0' !in "-" + tail
    ensures ParsedSigned("-" + tail, b) == (Signed(Negate(Parsed(tail, b).0 % WORD)), Parsed(tail, b).1 + 1)
  {
    assert ("-" + tail)[1..] == tail;
  }

  /** The whole tower on one value: print into a buffer, then parse the buffer. */
  method PrintThenParse(p: Print, b: Word) returns (result: DWord, endp: nat)
    requires p.Readable(b) && !p.f.sign
    ensures result == p.num && endp == p.Stop()
  {
    var text := PrintedText(p);
    ParsedBack(p, b);
    result, endp := SimpleStrtoull(text, b);
  }

  method PrintedText(p: Print) returns (text: Text)
    requires p.Valid()
    ensures text == p.Output()
  {
    RoomFor(p);
    text := Printed(p.num, p.base, p.size, p.precision, p.f, Max(0, p.size) + Max(0, p.precision) + 25);
  }

  method Printed(num: DWord, base: nat, size: int, precision: int, f: Flags, room: nat) returns (text: Text)
    requires base == 8 || base == 10 || base == 16
    requires |NumberText(num, base, size, precision, f)| <= room
    ensures text == NumberText(num, base, size, precision, f)
  {
    var buf := new char[room];
    var end := Number(buf, 0, num, base, size, precision, f);
    text := buf[..end];
  }

  lemma ParsedBack(p: Print, b: Word)
    requires p.Readable(b) && !p.f.sign
    ensures '\0' !in p.Output() && Parsed(p.Output(), b) == (p.num, p.Stop())
  {
    TrailingSpaces(p);
    UnsignedRoundTrip(p, "", b);
    assert p.Output() + "" == p.Output();
  }

  lemma RoomFor(p: Print)
    requires p.Valid()
    ensures |p.Output()| <= Max(0, p.size) + Max(0, p.precision) + 25
  {
    NumberTextLength(p.num, p.base, p.size, p.precision, p.f);
    DWordDigitCount(p.Magnitude(), p.base, p.f.small);
  }
}
