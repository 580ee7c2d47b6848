/** The whole number tower on one value: a format string, its rendering in a buffer, and the value read
    back from the buffer. */
module EndToEnd {
  import opened Options
  import opened Bits
  import opened NumberFormat
  import opened StringToNumber
  import opened RoundTrip
  import opened FormatSpec
  import opened Vsprintf
  import opened Formats
  import opened FormatJoin

  const SIGNED := NO_FLAGS.(sign := true)

  /** "%d" is one directive, and prints its argument's digits with a sign. */
  lemma PercentD(w: Word)
    ensures Sprinted("%d", [Int32(w)]) == Some(NumberText(SignExtend(w), 10, -1, -1, SIGNED))
  {
    var d := Conversion(NO_FLAGS, Absent, Absent, NO_QUALIFIER, 'd');
    CutSignedDecimal("%d");
    Integer("%d", d, Int32(w), SignExtend(w), 10, SIGNED);
  }

  /** What "%d" prints is read back, for every int. */
  lemma PercentDParses(w: Word)
    ensures var text := NumberText(SignExtend(w), 10, -1, -1, SIGNED);
      && |text| <= 25 && '\0' !in text && ParsedSigned(text, 10) == (Signed(w), |text|)
  {
    var p := Print(SignExtend(w), 10, -1, -1, SIGNED);
    RoomFor(p);
    assert p.Slack() < 0;
    assert p.Trailing() == "" && p.Ends("") && !p.Trap("");
    assert p.num == Extended(Signed(w));
    SignedRoundTrip(Signed(w), p, "", 10);
    assert p.Output() + "" == p.Output();
  }

  /** sprintf into a buffer of this size. */
  method Sprintf(fmt: Text, args: seq<Arg>, room: nat) returns (text: Text)
    requires '\0' !in fmt && Sprinted(fmt, args).Some? && |Sprinted(fmt, args).value| < room
    ensures text == Sprinted(fmt, args).value
  {
    var buf := new char[room];
    var n, stores := VSprintf(buf, fmt, args);
    text := buf[..n];
  }

  /** sprintf with "%d", then simple_strtol on the buffer. */
  method SprintfThenStrtol(w: Word) returns (result: int, endp: nat, n: nat)
    ensures result == Signed(w) && endp == n
  {
    PercentD(w);
    PercentDParses(w);
    var text := Sprintf("%d", [Int32(w)], 26);
    result, endp := SimpleStrtol(text, 10);
    n := |text|;
  }

  /** The formats whose text is the number itself, and the base argument that reads it back. */
  predicate Inverse(fmt: Text, arg: Arg, w: Word, base: Word)
  {
    || (fmt in {"%x", "%X", "%08X", "%lx"} && arg == Int32(w) && base == 16)
    || (fmt == "%#x" && arg == Int32(w) && (base == 16 || base == 0))
    || (fmt == "%o" && arg == Int32(w) && base == 8)
    || (fmt == "%u" && arg == Int32(w) && base == 10)
    || (fmt == "%p" && arg == Ptr(w) && w != 0 && base == 16)
  }

  /** The text is read back as the number, down to its end. */
  ghost predicate ReadsBack(text: Text, w: Word, base: Word)
  {
    |text| <= 33 && '\0' !in text && Parsed(text, base) == (w, |text|)
  }

  lemma PrintReadsBack(p: Print, w: Word, base: Word)
    requires p.Readable(base) && !p.f.sign && !p.f.left && p.num == w && p.size <= 8 && p.precision <= 0
    ensures ReadsBack(p.Output(), w, base)
  {
    RoomFor(p);
    ParsedBack(p, base);
    assert p.Trailing() == "";
  }

  lemma IntegerReadsBack(fmt: Text, d: Directive, w: Word, base: Word)
    requires Cut(fmt, d) && d.Conversion? && !d.width.Star? && d.precision == Absent && IsInteger(d.conv)
    requires d.qualifier == NO_QUALIFIER || d.qualifier == 'l'
    requires !IntegerFlags(d.conv, d.f).sign && !d.f.left && Fixed(d.width) <= 8
    requires Print(w, BaseOf(d.conv), Fixed(d.width), -1, IntegerFlags(d.conv, d.f)).Readable(base)
    ensures Sprinted(fmt, [Int32(w)]).Some? && ReadsBack(Sprinted(fmt, [Int32(w)]).value, w, base)
  {
    var p := Print(w, BaseOf(d.conv), Fixed(d.width), -1, IntegerFlags(d.conv, d.f));
    PrintReadsBack(p, w, base);
    Integer(fmt, d, Int32(w), w, BaseOf(d.conv), IntegerFlags(d.conv, d.f));
  }

  lemma PointerReadsBack(fmt: Text, w: Word)
    requires fmt == "%p" && w != 0
    ensures Sprinted(fmt, [Ptr(w)]).Some? && ReadsBack(Sprinted(fmt, [Ptr(w)]).value, w, 16)
  {
    CutPointers(fmt);
    var p := Print(w, 16, 8, -1, NO_FLAGS.(small := true, zeropad := true));
    PrintReadsBack(p, w, 16);
    Plain(fmt, Conversion(NO_FLAGS, Absent, Absent, NO_QUALIFIER, 'p'), Ptr(w), p.Output());
  }

  /** Each of these formats prints any number so that simple_strtoul reads it back to the last character. */
  lemma FormatReadsBack(fmt: Text, arg: Arg, w: Word, base: Word)
    requires Inverse(fmt, arg, w, base)
    ensures Sprinted(fmt, [arg]).Some? && ReadsBack(Sprinted(fmt, [arg]).value, w, base)
  {
    CutUnsigned(fmt);
    CutCapitalWord(fmt);
    CutLongQualifier(fmt);
    CutPrefixed(fmt);
    if fmt == "%p" {
      PointerReadsBack(fmt, w);
    } else {
      IntegerReadsBack(fmt, DirectiveAt(fmt, 0).0, w, base);
    }
  }

  lemma InverseFormat(fmt: Text, arg: Arg, w: Word, base: Word)
    requires Inverse(fmt, arg, w, base)
    ensures '\0' !in fmt
  {
  }

  method ReadBack(text: Text, w: Word, base: Word) returns (result: Word, endp: nat)
    requires ReadsBack(text, w, base)
    ensures result == w && endp == |text|
  {
    result, endp := SimpleStrtoul(text, base);
    SmallDiv(w, WORD);
  }

  /** sprintf with any of them, then simple_strtoul on the buffer. */
  method SprintfThenStrtoul(fmt: Text, arg: Arg, w: Word, base: Word) returns (result: Word, endp: nat, n: nat)
    requires Inverse(fmt, arg, w, base)
    ensures result == w && endp == n
  {
    FormatReadsBack(fmt, arg, w, base);
    InverseFormat(fmt, arg, w, base);
    var text := Sprintf(fmt, [arg], 34);
    n := |text|;
    result, endp := ReadBack(text, w, base);
  }

  // ---- formats of several directives ----

  lemma CutIsWhole(fmt: Text, d: Directive, arg: Arg)
    requires Cut(fmt, d) && d.Conversion? && d.conv != 'p' && d.conv != '\0'
    requires Rendered(d, [arg]).Some? && Rendered(d, [arg]).value.1 == []
    ensures Whole(fmt, 0) && Remaining(Directives(fmt, 0), [arg]) == []
  {
    assert Directives(fmt, |fmt|) == [];
    assert Directives(fmt, 0) == [d];
    assert [d][1..] == [];
  }

  lemma {:induction false} TextIsWhole(text: Text, i: nat)
    requires i <= |text| && '%' !in text
    ensures Whole(text, i) && Remaining(Directives(text, i), []) == []
    decreases |text| - i
  {
    if i < |text| {
      TextIsWhole(text, i + 1);
      var ds := Directives(text, i);
      assert ds == [Literal(text[i])] + Directives(text, i + 1);
      assert ds[1..] == Directives(text, i + 1);
    }
  }

  /** Text in front of a format is printed as it stands. */
  lemma TextBefore(text: Text, fmt: Text, args: seq<Arg>)
    requires '%' !in text && Sprinted(fmt, args).Some?
    ensures Sprinted(text + fmt, args) == Some(text + Sprinted(fmt, args).value)
  {
    TextIsWhole(text, 0);
    PlainText(text, 0, []);
    assert text[0..] == text && [] + args == args;
    SprintfJoin(text, fmt, [], args);
  }

  /** And text behind a single integer conversion. */
  lemma TextAfter(fmt: Text, d: Directive, arg: Arg, text: Text)
    requires Cut(fmt, d) && d.Conversion? && IsInteger(d.conv) && '%' !in text
    requires Rendered(d, [arg]).Some? && Rendered(d, [arg]).value.1 == [] && Sprinted(fmt, [arg]).Some?
    ensures Sprinted(fmt + text, [arg]) == Some(Sprinted(fmt, [arg]).value + text)
  {
    CutIsWhole(fmt, d, arg);
    PlainText(text, 0, []);
    assert text[0..] == text && [arg] + [] == [arg];
    SprintfJoin(fmt, text, [arg], []);
  }

  /** The end of the driver's error messages: the status in eight capital hex digits. */
  lemma StatusMessage(text: Text, fmt: Text, w: Word, b: Text)
    requires '%' !in text && fmt == "%08X" && Numeral(b, w, 16, false)
    ensures Sprinted(text + fmt, [Int32(w)]) == Some(text + (Run('0', 8 - |b|) + b))
  {
    CapitalWord(fmt, w, b);
    TextBefore(text, fmt, [Int32(w)]);
  }
}
