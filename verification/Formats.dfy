/** What the format strings of vsprintf.c print, format by format: each theorem is about a literal format
    string and says in terms of characters and numbers what comes out of it. */
module Formats {
  import opened Options
  import opened Bits
  import opened Decimal
  import opened NumberFormat
  import opened StringToNumber
  import opened RoundTrip
  import opened FormatSpec
  import opened Vsprintf

  // ---- numerals ----

  /** What a digit is worth, in either case; 99 for anything else. */
  function Worth(c: char): nat
  {
    if '0' <= c <= '9' then c as nat - 48
    else if 'a' <= c <= 'f' then c as nat - 87
    else if 'A' <= c <= 'F' then c as nat - 55
    else 99
  }

  function ValueOf(t: Text, base: nat): nat
  {
    if t == [] then 0 else ValueOf(t[..|t| - 1], base) * base + Worth(t[|t| - 1])
  }

  /** A digit of the base, a letter among them small or capital as asked. */
  predicate DigitOf(c: char, base: nat, small: bool)
  {
    Worth(c) < base && (c > '9' ==> (c >= 'a' <==> small))
  }

  /** `t` is `n` written out: digits of the base only, no superfluous zero in front, worth n. */
  ghost predicate Numeral(t: Text, n: nat, base: nat, small: bool)
  {
    && t != [] && (t[0] == '0' ==> |t| == 1)
    && (forall i :: 0 <= i < |t| ==> DigitOf(t[i], base, small))
    && ValueOf(t, base) == n
  }

  lemma {:induction false} Positive(t: Text, base: nat, small: bool)
    requires base >= 2 && t != [] && t[0] != '0' && forall i :: 0 <= i < |t| ==> DigitOf(t[i], base, small)
    ensures ValueOf(t, base) > 0
  {
    var t' := t[..|t| - 1];
    if t' != [] {
      Positive(t', base, small);
      MulMonotone(1, ValueOf(t', base), base);
    }
  }

  /** The last digit is the remainder, and what stands before it is the quotient written out. */
  lemma NumeralSplit(t: Text, n: nat, base: nat, small: bool)
    requires 2 <= base <= 16 && Numeral(t, n, base, small)
    ensures n % base == Worth(t[|t| - 1])
    ensures |t| == 1 <==> n < base
    ensures |t| > 1 ==> Numeral(t[..|t| - 1], n / base, base, small)
  {
    var t', c := t[..|t| - 1], t[|t| - 1];
    assert DigitOf(c, base, small);
    DivModUnique(n, base, ValueOf(t', base), Worth(c));
    if |t| > 1 {
      Positive(t', base, small);
      MulMonotone(1, ValueOf(t', base), base);
    }
  }

  lemma SameDigit(c: char, d: char, base: nat, small: bool)
    requires base <= 16 && DigitOf(c, base, small) && DigitOf(d, base, small) && Worth(c) == Worth(d)
    ensures c == d
  {
  }

  /** There is only one way to write a number out. */
  lemma {:induction false} NumeralUnique(s: Text, t: Text, n: nat, base: nat, small: bool)
    requires 2 <= base <= 16 && Numeral(s, n, base, small) && Numeral(t, n, base, small)
    ensures s == t
    decreases |s|
  {
    NumeralSplit(s, n, base, small);
    NumeralSplit(t, n, base, small);
    SameDigit(s[|s| - 1], t[|t| - 1], base, small);
    var s', t' := s[..|s| - 1], t[..|t| - 1];
    assert s == s' + [s[|s| - 1]] && t == t' + [t[|t| - 1]];
    if |s| > 1 {
      NumeralUnique(s', t', n / base, base, small);
    }
  }

  lemma {:induction false} DigitTextNumeral(n: nat, base: nat, small: bool)
    requires 2 <= base <= 16
    ensures Numeral(DigitText(n, base, small), n, base, small)
    decreases n
  {
    if n < base {
      OneDigit(n, base, small);
    } else {
      Quotient(n, base);
      DigitTextNumeral(n / base, base, small);
      NextDigit(DigitText(n / base, base, small), n / base, n % base, base, small);
    }
  }

  lemma DigitIs(d: nat, base: nat, small: bool)
    requires d < base <= 16
    ensures DigitOf(DigitChar(d, small), base, small) && Worth(DigitChar(d, small)) == d
  {
  }

  lemma OneDigit(n: nat, base: nat, small: bool)
    requires n < base <= 16
    ensures Numeral([DigitChar(n, small)], n, base, small)
  {
    DigitIs(n, base, small);
    assert [DigitChar(n, small)][..0] == [];
    assert ValueOf([], base) == 0;
  }

  lemma NextDigit(t: Text, q: nat, r: nat, base: nat, small: bool)
    requires Numeral(t, q, base, small) && q > 0 && r < base <= 16
    ensures Numeral(t + [DigitChar(r, small)], base * q + r, base, small)
  {
    DigitIs(r, base, small);
    LoneValue(t, base);
    var u := t + [DigitChar(r, small)];
    assert u[..|u| - 1] == t;
  }

  lemma LoneValue(t: Text, base: nat)
    ensures |t| == 1 ==> ValueOf(t, base) == Worth(t[0])
  {
    if |t| == 1 {
      assert t[..0] == [] && ValueOf([], base) == 0;
    }
  }

  // ---- formats of one directive ----

  function Sprinted(fmt: Text, args: seq<Arg>): Option<Text> { RenderedAll(Directives(fmt, 0), args) }

  /** This format prints this number, and nothing else. */
  ghost predicate Shows(fmt: Text, arg: Arg, n: nat, base: nat, small: bool)
  {
    Sprinted(fmt, [arg]).Some? && Numeral(Sprinted(fmt, [arg]).value, n, base, small)
  }

  /** A minus sign, then the number. */
  ghost predicate ShowsMinus(fmt: Text, arg: Arg, n: nat, base: nat)
  {
    && Sprinted(fmt, [arg]).Some? && Sprinted(fmt, [arg]).value != "" && Sprinted(fmt, [arg]).value[0] == '-'
    && Numeral(Sprinted(fmt, [arg]).value[1..], n, base, false)
  }

  /** The character n times, if n is positive. */
  function Run(c: char, n: int): Text { seq(if n > 0 then n else 0, _ => c) }

  lemma {:induction false} RepeatIsRun(c: char, n: int)
    ensures Repeat(c, n) == Run(c, n)
  {
    if n > 0 {
      RepeatIsRun(c, n - 1);
    }
  }

  /** The whole format is this one directive. */
  predicate Cut(fmt: Text, d: Directive) { fmt != "" && DirectiveAt(fmt, 0) == (d, |fmt|) }

  lemma Single(fmt: Text, d: Directive, args: seq<Arg>, t: Text)
    requires Cut(fmt, d) && Rendered(d, args) == Some((t, []))
    ensures Sprinted(fmt, args) == Some(t)
  {
    assert Directives(fmt, |fmt|) == [];
    assert Directives(fmt, 0) == [d];
    assert [d][1..] == [];
    assert RenderedAll([], []) == Some("");
    assert t + "" == t;
  }

  function Fixed(field: Field): int
    requires !field.Star?
  {
    if field.Given? then field.n else -1
  }

  /** A conversion with its width and precision in the format takes one argument. */
  lemma Plain(fmt: Text, d: Directive, arg: Arg, t: Text)
    requires Cut(fmt, d)
    requires d.Conversion? && !d.width.Star? && !d.precision.Star?
    requires d.conv == 'c' || d.conv == 's' || d.conv == 'p' || IsInteger(d.conv)
    requires OneArgument(d.f, Fixed(d.width), Fixed(d.precision), d.qualifier, d.conv, arg) == Some(t)
    ensures Sprinted(fmt, [arg]) == Some(t)
  {
    assert [arg][1..] == [];
    Single(fmt, d, [arg], t);
  }

  lemma Integer(fmt: Text, d: Directive, arg: Arg, num: DWord, base: nat, f: Flags)
    requires Cut(fmt, d)
    requires d.Conversion? && !d.width.Star? && !d.precision.Star? && IsInteger(d.conv)
    requires base == BaseOf(d.conv) && f == IntegerFlags(d.conv, d.f)
    requires IntegerArgument(d.qualifier, f.sign, arg) == Some(num)
    ensures Sprinted(fmt, [arg]) == Some(NumberText(num, base, Fixed(d.width), Fixed(d.precision), f))
  {
    Plain(fmt, d, arg, NumberText(num, base, Fixed(d.width), Fixed(d.precision), f));
  }

  lemma DigitsAre(num: nat, base: nat, small: bool, b: Text)
    requires 2 <= base <= 16 && Numeral(b, num, base, small)
    ensures DigitText(num, base, small) == b
  {
    DigitTextNumeral(num, base, small);
    NumeralUnique(b, DigitText(num, base, small), num, base, small);
  }

  /** A numeral in its field: what stands before it, the zeros of the precision, and the slack where the
      flags put it. */
  function Framed(marks: Text, digits: Text, size: int, precision: int, left: bool, zero: bool): Text
  {
    var z := Run('0', precision - |digits|) + digits;
    var slack := size - |marks| - |z|;
    if left then marks + z + Run(' ', slack)
    else if zero then marks + Run('0', slack) + z
    else Run(' ', slack) + marks + z
  }

  lemma {:induction false} FramedText(num: DWord, base: nat, size: int, precision: int, f: Flags)
    requires base == 8 || base == 10 || base == 16
    ensures NumberText(num, base, size, precision, f)
            == Framed(SignText(num, f) + PrefixText(base, f), DigitText(MagnitudeOf(num, f), base, f.small), size,
                      precision, f.left, f.zeropad)
  {
    var s, p, d := SignText(num, f), PrefixText(base, f), DigitText(MagnitudeOf(num, f), base, f.small);
    NumberTextIs(num, base, size, precision, f, size - |s| - |p| - Max(|d|, precision), Max(|d|, precision));
    LaidText(s, p, d, size, precision, f);
  }

  lemma {:induction false} LaidText(s: Text, p: Text, d: Text, size: int, precision: int, f: Flags)
    ensures Laid(s, p, size - |s| - |p| - Max(|d|, precision), Max(|d|, precision) - |d|, d, f)
            == Framed(s + p, d, size, precision, f.left, f.zeropad)
  {
    var zeros := Max(|d|, precision) - |d|;
    var slack := size - |s| - |p| - Max(|d|, precision);
    RepeatIsRun('0', zeros);
    assert Run('0', precision - |d|) == Repeat('0', zeros);
    RepeatIsRun(' ', slack);
    RepeatIsRun('0', slack);
    Frame(s, p, Repeat('0', zeros), d, slack, f);
  }

  lemma Frame(s: Text, p: Text, z: Text, d: Text, slack: int, f: Flags)
    ensures Lead(slack, f) + s + p + Fill(slack, f) + (z + d + Trail(slack, f))
            == if f.left then s + p + (z + d) + Repeat(' ', slack)
               else if f.zeropad then s + p + Repeat('0', slack) + (z + d)
               else Repeat(' ', slack) + (s + p) + (z + d)
  {
  }

  lemma NoMarks(b: Text, size: int, precision: int, left: bool, zero: bool, z: Text)
    requires z == Run('0', precision - |b|) + b
    ensures left ==> Framed("", b, size, precision, left, zero) == z + Run(' ', size - |z|)
    ensures !left && zero ==> Framed("", b, size, precision, left, zero) == Run('0', size - |z|) + z
    ensures !left && !zero ==> Framed("", b, size, precision, left, zero) == Run(' ', size - |z|) + z
    ensures size == -1 ==> Framed("", b, size, precision, left, zero) == z
    ensures precision <= 0 ==> z == b
  {
    assert "" + z == z && z + "" == z;
    assert "" + Run('0', size - |z|) == Run('0', size - |z|);
    assert Run(' ', size - |z|) + "" == Run(' ', size - |z|);
  }

  lemma NoZeros(b: Text)
    ensures Run('0', -1 - |b|) + b == b && Run('0', 0 - |b|) + b == b
  {
  }

  lemma NoPrecision(marks: Text, b: Text, size: int, left: bool, zero: bool, slack: int)
    requires slack == size - |marks| - |b|
    ensures left ==> Framed(marks, b, size, -1, left, zero) == marks + b + Run(' ', slack)
    ensures !left && zero ==> Framed(marks, b, size, -1, left, zero) == marks + Run('0', slack) + b
    ensures !left && !zero ==> Framed(marks, b, size, -1, left, zero) == Run(' ', slack) + marks + b
    ensures size == -1 ==> Framed(marks, b, size, -1, left, zero) == marks + b
  {
    assert Run('0', -1 - |b|) + b == b;
    assert marks + b + [] == marks + b && marks + [] + b == marks + b && [] + marks + b == marks + b;
  }

  /** One integer conversion prints the numeral, between its marks and padding. */
  lemma Framing(fmt: Text, d: Directive, arg: Arg, num: DWord, b: Text, f: Flags)
    requires Cut(fmt, d)
    requires d.Conversion? && !d.width.Star? && !d.precision.Star? && IsInteger(d.conv)
    requires f == IntegerFlags(d.conv, d.f) && IntegerArgument(d.qualifier, f.sign, arg) == Some(num)
    requires Numeral(b, MagnitudeOf(num, f), BaseOf(d.conv), f.small)
    ensures Sprinted(fmt, [arg])
            == Some(Framed(SignText(num, f) + PrefixText(BaseOf(d.conv), f), b, Fixed(d.width),
                           Fixed(d.precision), f.left, f.zeropad))
  {
    Integer(fmt, d, arg, num, BaseOf(d.conv), f);
    DigitsAre(MagnitudeOf(num, f), BaseOf(d.conv), f.small, b);
    FramedText(num, BaseOf(d.conv), Fixed(d.width), Fixed(d.precision), f);
  }

  /** A numeral alone. */
  lemma Bare(fmt: Text, qualifier: char, conv: char, arg: Arg, num: DWord)
    requires Cut(fmt, Conversion(NO_FLAGS, Absent, Absent, qualifier, conv)) && IsInteger(conv)
    requires IntegerArgument(qualifier, IntegerFlags(conv, NO_FLAGS).sign, arg) == Some(num)
    requires num < 0x8000_0000_0000_0000 || (conv != 'd' && conv != 'i')
    ensures Shows(fmt, arg, num, BaseOf(conv), conv == 'x')
  {
    var f := IntegerFlags(conv, NO_FLAGS);
    var b := DigitText(num, BaseOf(conv), f.small);
    DigitTextNumeral(num, BaseOf(conv), f.small);
    Framing(fmt, Conversion(NO_FLAGS, Absent, Absent, qualifier, conv), arg, num, b, f);
    assert "" + "" == "";
    NoPrecision("", b, -1, false, false, -1 - |b|);
    assert "" + b == b;
  }

  /** A numeral in base sixteen, in a field. */
  lemma Hex(fmt: Text, f: Flags, width: Field, precision: Field, conv: char, w: Word, b: Text, z: Text)
    requires Cut(fmt, Conversion(f, width, precision, NO_QUALIFIER, conv)) && !width.Star? && !precision.Star?
    requires !f.sign && !f.special && !f.small && (conv == 'x' || conv == 'X')
    requires Numeral(b, w, 16, conv == 'x') && z == Run('0', Fixed(precision) - |b|) + b
    ensures f.left ==> Sprinted(fmt, [Int32(w)]) == Some(z + Run(' ', Fixed(width) - |z|))
    ensures !f.left && f.zeropad ==> Sprinted(fmt, [Int32(w)]) == Some(Run('0', Fixed(width) - |z|) + z)
    ensures !f.left && !f.zeropad ==> Sprinted(fmt, [Int32(w)]) == Some(Run(' ', Fixed(width) - |z|) + z)
    ensures width == Absent ==> Sprinted(fmt, [Int32(w)]) == Some(z)
    ensures Fixed(precision) <= 0 ==> z == b
  {
    Framing(fmt, Conversion(f, width, precision, NO_QUALIFIER, conv), Int32(w), w, b, IntegerFlags(conv, f));
    NoMarks(b, Fixed(width), Fixed(precision), f.left, f.zeropad, z);
    assert "" + "" == "";
  }

  lemma HexPlain(fmt: Text, f: Flags, n: nat, conv: char, w: Word, b: Text)
    requires Cut(fmt, Conversion(f, Given(n), Absent, NO_QUALIFIER, conv)) && (conv == 'x' || conv == 'X')
    requires !f.sign && !f.special && !f.small && Numeral(b, w, 16, conv == 'x')
    ensures f.left ==> Sprinted(fmt, [Int32(w)]) == Some(b + Run(' ', n - |b|))
    ensures !f.left && f.zeropad ==> Sprinted(fmt, [Int32(w)]) == Some(Run('0', n - |b|) + b)
    ensures !f.left && !f.zeropad ==> Sprinted(fmt, [Int32(w)]) == Some(Run(' ', n - |b|) + b)
  {
    NoZeros(b);
    Hex(fmt, f, Given(n), Absent, conv, w, b, b);
  }

  /** A numeral behind its sign or prefix, in a field. */
  lemma Marked(fmt: Text, d: Directive, arg: Arg, num: DWord, b: Text, marks: Text, slack: int)
    requires Cut(fmt, d)
    requires d.Conversion? && !d.width.Star? && d.precision == Absent && IsInteger(d.conv)
    requires IntegerArgument(d.qualifier, IntegerFlags(d.conv, d.f).sign, arg) == Some(num)
    requires Numeral(b, MagnitudeOf(num, IntegerFlags(d.conv, d.f)), BaseOf(d.conv), IntegerFlags(d.conv, d.f).small)
    requires marks == SignText(num, IntegerFlags(d.conv, d.f)) + PrefixText(BaseOf(d.conv), IntegerFlags(d.conv, d.f))
    requires slack == Fixed(d.width) - |marks| - |b|
    ensures d.f.left ==> Sprinted(fmt, [arg]) == Some(marks + b + Run(' ', slack))
    ensures !d.f.left && d.f.zeropad ==> Sprinted(fmt, [arg]) == Some(marks + Run('0', slack) + b)
    ensures !d.f.left && !d.f.zeropad ==> Sprinted(fmt, [arg]) == Some(Run(' ', slack) + marks + b)
    ensures d.width == Absent ==> Sprinted(fmt, [arg]) == Some(marks + b)
  {
    Framing(fmt, d, arg, num, b, IntegerFlags(d.conv, d.f));
    NoPrecision(marks, b, Fixed(d.width), d.f.left, d.f.zeropad, slack);
  }

  // ---- numbers in every base ----

  lemma CutUnsigned(fmt: Text)
    ensures fmt == "%x" ==> Cut(fmt, Conversion(NO_FLAGS, Absent, Absent, NO_QUALIFIER, 'x'))
    ensures fmt == "%X" ==> Cut(fmt, Conversion(NO_FLAGS, Absent, Absent, NO_QUALIFIER, 'X'))
    ensures fmt == "%o" ==> Cut(fmt, Conversion(NO_FLAGS, Absent, Absent, NO_QUALIFIER, 'o'))
    ensures fmt == "%u" ==> Cut(fmt, Conversion(NO_FLAGS, Absent, Absent, NO_QUALIFIER, 'u'))
  {
    if fmt == "%x" {
      assert DirectiveAt("%x", 0).1 == 2;
    } else if fmt == "%X" {
      assert DirectiveAt("%X", 0).1 == 2;
    } else if fmt == "%o" {
      assert DirectiveAt("%o", 0).1 == 2;
    } else if fmt == "%u" {
      assert DirectiveAt("%u", 0).1 == 2;
    }
  }

  /** The unsigned conversions: base sixteen in small letters and in capitals, base eight, base ten. */
  lemma Unsigned(fmt: Text, w: Word)
    ensures fmt == "%x" ==> Shows(fmt, Int32(w), w, 16, true)
    ensures fmt == "%X" ==> Shows(fmt, Int32(w), w, 16, false)
    ensures fmt == "%o" ==> Shows(fmt, Int32(w), w, 8, false)
    ensures fmt == "%u" ==> Shows(fmt, Int32(w), w, 10, false)
  {
    CutUnsigned(fmt);
    if fmt == "%x" {
      Bare(fmt, NO_QUALIFIER, 'x', Int32(w), w);
    } else if fmt == "%X" {
      Bare(fmt, NO_QUALIFIER, 'X', Int32(w), w);
    } else if fmt == "%o" {
      Bare(fmt, NO_QUALIFIER, 'o', Int32(w), w);
    } else if fmt == "%u" {
      Bare(fmt, NO_QUALIFIER, 'u', Int32(w), w);
    }
  }

  lemma CutWidths(fmt: Text)
    ensures fmt == "%8x" ==> Cut(fmt, Conversion(NO_FLAGS, Given(8), Absent, NO_QUALIFIER, 'x'))
    ensures fmt == "%12x" ==> Cut(fmt, Conversion(NO_FLAGS, Given(12), Absent, NO_QUALIFIER, 'x'))
    ensures fmt == "%08x" ==> Cut(fmt, Conversion(NO_FLAGS.(zeropad := true), Given(8), Absent, NO_QUALIFIER, 'x'))
  {
    if fmt == "%8x" {
      assert DirectiveAt("%8x", 0).1 == 3;
    } else if fmt == "%12x" {
      assert DirectiveAt("%12x", 0).1 == 4;
    } else if fmt == "%08x" {
      assert DirectiveAt("%08x", 0).1 == 4;
    }
  }

  /** A width, and the flag '0' to fill it with zeros. */
  lemma Widths(fmt: Text, w: Word, b: Text)
    requires Numeral(b, w, 16, true)
    ensures fmt == "%8x" ==> Sprinted(fmt, [Int32(w)]) == Some(Run(' ', 8 - |b|) + b)
    ensures fmt == "%12x" ==> Sprinted(fmt, [Int32(w)]) == Some(Run(' ', 12 - |b|) + b)
    ensures fmt == "%08x" ==> Sprinted(fmt, [Int32(w)]) == Some(Run('0', 8 - |b|) + b)
  {
    CutWidths(fmt);
    if fmt == "%8x" {
      HexPlain(fmt, NO_FLAGS, 8, 'x', w, b);
    } else if fmt == "%12x" {
      HexPlain(fmt, NO_FLAGS, 12, 'x', w, b);
    } else if fmt == "%08x" {
      HexPlain(fmt, NO_FLAGS.(zeropad := true), 8, 'x', w, b);
    }
  }

  lemma CutLeftJustified(fmt: Text)
    ensures fmt == "%-8x" ==> Cut(fmt, Conversion(NO_FLAGS.(left := true), Given(8), Absent, NO_QUALIFIER, 'x'))
    ensures fmt == "%-08x" ==>
      Cut(fmt, Conversion(NO_FLAGS.(left := true, zeropad := true), Given(8), Absent, NO_QUALIFIER, 'x'))
  {
    if fmt == "%-8x" {
      assert DirectiveAt("%-8x", 0).1 == 4;
    } else if fmt == "%-08x" {
      assert DirectiveAt("%-08x", 0).1 == 5;
    }
  }

  /** The flag '-' puts the spaces behind, and overrules the flag '0'. */
  lemma LeftJustified(fmt: Text, w: Word, b: Text)
    requires Numeral(b, w, 16, true)
    ensures fmt == "%-8x" ==> Sprinted(fmt, [Int32(w)]) == Some(b + Run(' ', 8 - |b|))
    ensures fmt == "%-08x" ==> Sprinted(fmt, [Int32(w)]) == Some(b + Run(' ', 8 - |b|))
  {
    CutLeftJustified(fmt);
    if fmt == "%-8x" {
      HexPlain(fmt, NO_FLAGS.(left := true), 8, 'x', w, b);
    } else if fmt == "%-08x" {
      HexPlain(fmt, NO_FLAGS.(left := true, zeropad := true), 8, 'x', w, b);
    }
  }

  lemma CutPrecisions(fmt: Text)
    ensures fmt == "%.5x" ==> Cut(fmt, Conversion(NO_FLAGS, Absent, Given(5), NO_QUALIFIER, 'x'))
    ensures fmt == "%9.5x" ==> Cut(fmt, Conversion(NO_FLAGS, Given(9), Given(5), NO_QUALIFIER, 'x'))
    ensures fmt == "%.x" ==> Cut(fmt, Conversion(NO_FLAGS, Absent, Given(0), NO_QUALIFIER, 'x'))
  {
    if fmt == "%.5x" {
      assert DirectiveAt("%.5x", 0).1 == 4;
    } else if fmt == "%9.5x" {
      assert DirectiveAt("%9.5x", 0).1 == 5;
    } else if fmt == "%.x" {
      assert DirectiveAt("%.x", 0).1 == 3;
    }
  }

  /** A precision asks for zeros, whatever the width; a point alone is the precision zero. */
  lemma Precisions(fmt: Text, w: Word, b: Text, z: Text)
    requires Numeral(b, w, 16, true) && z == Run('0', 5 - |b|) + b
    ensures fmt == "%.5x" ==> Sprinted(fmt, [Int32(w)]) == Some(z)
    ensures fmt == "%9.5x" ==> Sprinted(fmt, [Int32(w)]) == Some(Run(' ', 9 - |z|) + z)
    ensures fmt == "%.x" ==> Sprinted(fmt, [Int32(w)]) == Some(b)
  {
    CutPrecisions(fmt);
    if fmt == "%.5x" {
      Hex(fmt, NO_FLAGS, Absent, Given(5), 'x', w, b, z);
    } else if fmt == "%9.5x" {
      Hex(fmt, NO_FLAGS, Given(9), Given(5), 'x', w, b, z);
    } else if fmt == "%.x" {
      NoZeros(b);
      Hex(fmt, NO_FLAGS, Absent, Given(0), 'x', w, b, b);
    }
  }

  lemma CutCapitalWord(fmt: Text)
    ensures fmt == "%08X" ==> Cut(fmt, Conversion(NO_FLAGS.(zeropad := true), Given(8), Absent, NO_QUALIFIER, 'X'))
  {
    assert DirectiveAt("%08X", 0).1 == 4;
  }

  /** Capitals, zero-padded to eight columns. */
  lemma CapitalWord(fmt: Text, w: Word, b: Text)
    requires Numeral(b, w, 16, false)
    ensures fmt == "%08X" ==> Sprinted(fmt, [Int32(w)]) == Some(Run('0', 8 - |b|) + b)
  {
    CutCapitalWord(fmt);
    if fmt == "%08X" {
      HexPlain(fmt, NO_FLAGS.(zeropad := true), 8, 'X', w, b);
    }
  }

  lemma CutPrefixed(fmt: Text)
    ensures fmt == "%#x" ==> Cut(fmt, Conversion(NO_FLAGS.(special := true), Absent, Absent, NO_QUALIFIER, 'x'))
    ensures fmt == "%#X" ==> Cut(fmt, Conversion(NO_FLAGS.(special := true), Absent, Absent, NO_QUALIFIER, 'X'))
    ensures fmt == "%#o" ==> Cut(fmt, Conversion(NO_FLAGS.(special := true), Absent, Absent, NO_QUALIFIER, 'o'))
  {
    if fmt == "%#x" {
      assert DirectiveAt("%#x", 0).1 == 3;
    } else if fmt == "%#X" {
      assert DirectiveAt("%#X", 0).1 == 3;
    } else if fmt == "%#o" {
      assert DirectiveAt("%#o", 0).1 == 3;
    }
  }

  /** The flag '#' puts the base in front, zero included. */
  lemma Prefixed(fmt: Text, w: Word, b: Text, p: Text)
    requires fmt == "%#x" ==> Numeral(b, w, 16, true) && p == "0x"
    requires fmt == "%#X" ==> Numeral(b, w, 16, false) && p == "0X"
    requires fmt == "%#o" ==> Numeral(b, w, 8, false) && p == "0"
    ensures fmt == "%#x" ==> Sprinted(fmt, [Int32(w)]) == Some(p + b)
    ensures fmt == "%#X" ==> Sprinted(fmt, [Int32(w)]) == Some(p + b)
    ensures fmt == "%#o" ==> Sprinted(fmt, [Int32(w)]) == Some(p + b)
  {
    CutPrefixed(fmt);
    if fmt == "%#x" {
      assert "" + p == p;
      Marked(fmt, Conversion(NO_FLAGS.(special := true), Absent, Absent, NO_QUALIFIER, 'x'),
             Int32(w), w, b, p, -1 - |p| - |b|);
    } else if fmt == "%#X" {
      assert "" + p == p;
      Marked(fmt, Conversion(NO_FLAGS.(special := true), Absent, Absent, NO_QUALIFIER, 'X'),
             Int32(w), w, b, p, -1 - |p| - |b|);
    } else if fmt == "%#o" {
      assert "" + p == p;
      Marked(fmt, Conversion(NO_FLAGS.(special := true), Absent, Absent, NO_QUALIFIER, 'o'),
             Int32(w), w, b, p, -1 - |p| - |b|);
    }
  }

  lemma CutPrefixedWidths(fmt: Text)
    ensures fmt == "%#10x" ==> Cut(fmt, Conversion(NO_FLAGS.(special := true), Given(10), Absent, NO_QUALIFIER, 'x'))
    ensures fmt == "%#010x" ==>
      Cut(fmt, Conversion(NO_FLAGS.(special := true, zeropad := true), Given(10), Absent, NO_QUALIFIER, 'x'))
  {
    if fmt == "%#10x" {
      assert DirectiveAt("%#10x", 0).1 == 5;
    } else if fmt == "%#010x" {
      assert DirectiveAt("%#010x", 0).1 == 6;
    }
  }

  /** Zeros go behind the prefix, spaces before it. */
  lemma PrefixedWidths(fmt: Text, w: Word, b: Text, p: Text, n: int)
    requires Numeral(b, w, 16, true) && p == "0x" && n == 8 - |b|
    ensures fmt == "%#10x" ==> Sprinted(fmt, [Int32(w)]) == Some(Run(' ', n) + p + b)
    ensures fmt == "%#010x" ==> Sprinted(fmt, [Int32(w)]) == Some(p + Run('0', n) + b)
  {
    CutPrefixedWidths(fmt);
    if fmt == "%#10x" {
      assert "" + p == p;
      Marked(fmt, Conversion(NO_FLAGS.(special := true), Given(10), Absent, NO_QUALIFIER, 'x'), Int32(w), w, b, p, n);
    } else if fmt == "%#010x" {
      assert "" + p == p;
      Marked(fmt, Conversion(NO_FLAGS.(special := true, zeropad := true), Given(10), Absent, NO_QUALIFIER, 'x'),
             Int32(w), w, b, p, n);
    }
  }

  lemma SignedParts(w: Word, f: Flags)
    requires f.sign
    ensures MagnitudeOf(SignExtend(w), f) == if w >= 0x8000_0000 then 0x1_0000_0000 - w else w
    ensures SignText(SignExtend(w), f)
            == if w >= 0x8000_0000 then "-" else if f.plus then "+" else if f.space then " " else ""
  {
  }

  /** A signed decimal number. */
  lemma Signs(fmt: Text, d: Directive, w: Word, b: Text, mark: Text, slack: int)
    requires Cut(fmt, d)
    requires d.Conversion? && !d.width.Star? && d.precision == Absent && (d.conv == 'd' || d.conv == 'i')
    requires (d.qualifier == NO_QUALIFIER || d.qualifier == 'l' || d.qualifier == 't') && !d.f.small
    requires Numeral(b, if w >= 0x8000_0000 then 0x1_0000_0000 - w else w, 10, false)
    requires mark == if w >= 0x8000_0000 then "-" else if d.f.plus then "+" else if d.f.space then " " else ""
    requires slack == Fixed(d.width) - |mark| - |b|
    ensures d.f.left ==> Sprinted(fmt, [Int32(w)]) == Some(mark + b + Run(' ', slack))
    ensures !d.f.left && d.f.zeropad ==> Sprinted(fmt, [Int32(w)]) == Some(mark + Run('0', slack) + b)
    ensures !d.f.left && !d.f.zeropad ==> Sprinted(fmt, [Int32(w)]) == Some(Run(' ', slack) + mark + b)
    ensures d.width == Absent ==> Sprinted(fmt, [Int32(w)]) == Some(mark + b)
  {
    var f := IntegerFlags(d.conv, d.f);
    SignedParts(w, f);
    assert mark + PrefixText(10, f) == mark;
    Marked(fmt, d, Int32(w), SignExtend(w), b, mark, slack);
  }

  lemma CutSignedDecimal(fmt: Text)
    ensures fmt == "%d" ==> Cut(fmt, Conversion(NO_FLAGS, Absent, Absent, NO_QUALIFIER, 'd'))
    ensures fmt == "%i" ==> Cut(fmt, Conversion(NO_FLAGS, Absent, Absent, NO_QUALIFIER, 'i'))
    ensures fmt == "%ld" ==> Cut(fmt, Conversion(NO_FLAGS, Absent, Absent, 'l', 'd'))
    ensures fmt == "%td" ==> Cut(fmt, Conversion(NO_FLAGS, Absent, Absent, 't', 'd'))
  {
    if fmt == "%d" {
      assert DirectiveAt("%d", 0).1 == 2;
    } else if fmt == "%i" {
      assert DirectiveAt("%i", 0).1 == 2;
    } else if fmt == "%ld" {
      assert DirectiveAt("%ld", 0).1 == 3;
    } else if fmt == "%td" {
      assert DirectiveAt("%td", 0).1 == 3;
    }
  }

  /** The signed conversions, minimum included; int, long and ptrdiff_t are the same. */
  lemma SignedDecimal(fmt: Text, w: Word, b: Text, s: Text)
    requires Numeral(b, if w >= 0x8000_0000 then 0x1_0000_0000 - w else w, 10, false)
    requires s == if w >= 0x8000_0000 then "-" else ""
    ensures fmt == "%d" ==> Sprinted(fmt, [Int32(w)]) == Some(s + b)
    ensures fmt == "%i" ==> Sprinted(fmt, [Int32(w)]) == Some(s + b)
    ensures fmt == "%ld" ==> Sprinted(fmt, [Int32(w)]) == Some(s + b)
    ensures fmt == "%td" ==> Sprinted(fmt, [Int32(w)]) == Some(s + b)
  {
    CutSignedDecimal(fmt);
    if fmt == "%d" {
      Signs(fmt, Conversion(NO_FLAGS, Absent, Absent, NO_QUALIFIER, 'd'), w, b, s, -1 - |s| - |b|);
    } else if fmt == "%i" {
      Signs(fmt, Conversion(NO_FLAGS, Absent, Absent, NO_QUALIFIER, 'i'), w, b, s, -1 - |s| - |b|);
    } else if fmt == "%ld" {
      Signs(fmt, Conversion(NO_FLAGS, Absent, Absent, 'l', 'd'), w, b, s, -1 - |s| - |b|);
    } else if fmt == "%td" {
      Signs(fmt, Conversion(NO_FLAGS, Absent, Absent, 't', 'd'), w, b, s, -1 - |s| - |b|);
    }
  }

  lemma CutPlusAndSpace(fmt: Text)
    ensures fmt == "%+d" ==> Cut(fmt, Conversion(NO_FLAGS.(plus := true), Absent, Absent, NO_QUALIFIER, 'd'))
    ensures fmt == "% d" ==> Cut(fmt, Conversion(NO_FLAGS.(space := true), Absent, Absent, NO_QUALIFIER, 'd'))
    ensures fmt == "%+ d" ==>
      Cut(fmt, Conversion(NO_FLAGS.(plus := true, space := true), Absent, Absent, NO_QUALIFIER, 'd'))
  {
    if fmt == "%+d" {
      assert DirectiveAt("%+d", 0).1 == 3;
    } else if fmt == "% d" {
      assert DirectiveAt("% d", 0).1 == 3;
    } else if fmt == "%+ d" {
      assert DirectiveAt("%+ d", 0).1 == 4;
    }
  }

  /** What stands before a number that is not negative. */
  lemma PlusAndSpace(fmt: Text, w: Word, b: Text, s: Text)
    requires Numeral(b, if w >= 0x8000_0000 then 0x1_0000_0000 - w else w, 10, false)
    requires s == if w >= 0x8000_0000 then "-" else if fmt == "% d" then " " else "+"
    ensures fmt == "%+d" ==> Sprinted(fmt, [Int32(w)]) == Some(s + b)
    ensures fmt == "% d" ==> Sprinted(fmt, [Int32(w)]) == Some(s + b)
    ensures fmt == "%+ d" ==> Sprinted(fmt, [Int32(w)]) == Some(s + b)
  {
    CutPlusAndSpace(fmt);
    if fmt == "%+d" {
      Signs(fmt, Conversion(NO_FLAGS.(plus := true), Absent, Absent, NO_QUALIFIER, 'd'), w, b, s, -1 - |s| - |b|);
    } else if fmt == "% d" {
      Signs(fmt, Conversion(NO_FLAGS.(space := true), Absent, Absent, NO_QUALIFIER, 'd'), w, b, s, -1 - |s| - |b|);
    } else if fmt == "%+ d" {
      Signs(fmt, Conversion(NO_FLAGS.(plus := true, space := true), Absent, Absent, NO_QUALIFIER, 'd'),
            w, b, s, -1 - |s| - |b|);
    }
  }

  lemma CutSignedWidths(fmt: Text)
    ensures fmt == "%6d" ==> Cut(fmt, Conversion(NO_FLAGS, Given(6), Absent, NO_QUALIFIER, 'd'))
    ensures fmt == "%06d" ==> Cut(fmt, Conversion(NO_FLAGS.(zeropad := true), Given(6), Absent, NO_QUALIFIER, 'd'))
    ensures fmt == "%-6d" ==> Cut(fmt, Conversion(NO_FLAGS.(left := true), Given(6), Absent, NO_QUALIFIER, 'd'))
  {
    if fmt == "%6d" {
      assert DirectiveAt("%6d", 0).1 == 3;
    } else if fmt == "%06d" {
      assert DirectiveAt("%06d", 0).1 == 4;
    } else if fmt == "%-6d" {
      assert DirectiveAt("%-6d", 0).1 == 4;
    }
  }

  /** Zeros go behind the sign, spaces before it. */
  lemma SignedWidths(fmt: Text, w: Word, b: Text, s: Text, n: int)
    requires Numeral(b, if w >= 0x8000_0000 then 0x1_0000_0000 - w else w, 10, false)
    requires s == if w >= 0x8000_0000 then "-" else ""
    requires n == 6 - |s| - |b|
    ensures fmt == "%6d" ==> Sprinted(fmt, [Int32(w)]) == Some(Run(' ', n) + s + b)
    ensures fmt == "%06d" ==> Sprinted(fmt, [Int32(w)]) == Some(s + Run('0', n) + b)
    ensures fmt == "%-6d" ==> Sprinted(fmt, [Int32(w)]) == Some(s + b + Run(' ', n))
  {
    CutSignedWidths(fmt);
    if fmt == "%6d" {
      Signs(fmt, Conversion(NO_FLAGS, Given(6), Absent, NO_QUALIFIER, 'd'), w, b, s, n);
    } else if fmt == "%06d" {
      Signs(fmt, Conversion(NO_FLAGS.(zeropad := true), Given(6), Absent, NO_QUALIFIER, 'd'), w, b, s, n);
    } else if fmt == "%-6d" {
      Signs(fmt, Conversion(NO_FLAGS.(left := true), Given(6), Absent, NO_QUALIFIER, 'd'), w, b, s, n);
    }
  }

  // ---- the width of the argument ----

  lemma CutLongQualifier(fmt: Text)
    ensures fmt == "%lx" ==> Cut(fmt, Conversion(NO_FLAGS, Absent, Absent, 'l', 'x'))
    ensures fmt == "%lu" ==> Cut(fmt, Conversion(NO_FLAGS, Absent, Absent, 'l', 'u'))
  {
    if fmt == "%lx" {
      assert DirectiveAt("%lx", 0).1 == 3;
    } else if fmt == "%lu" {
      assert DirectiveAt("%lu", 0).1 == 3;
    }
  }

  /** unsigned long is as wide as unsigned int. */
  lemma LongQualifier(fmt: Text, w: Word)
    ensures fmt == "%lx" ==> Shows(fmt, Int32(w), w, 16, true)
    ensures fmt == "%lu" ==> Shows(fmt, Int32(w), w, 10, false)
  {
    CutLongQualifier(fmt);
    if fmt == "%lx" {
      Bare(fmt, 'l', 'x', Int32(w), w);
    } else if fmt == "%lu" {
      Bare(fmt, 'l', 'u', Int32(w), w);
    }
  }

  lemma CutSizeQualifier(fmt: Text)
    ensures fmt == "%zx" ==> Cut(fmt, Conversion(NO_FLAGS, Absent, Absent, 'z', 'x'))
    ensures fmt == "%zd" ==> Cut(fmt, Conversion(NO_FLAGS, Absent, Absent, 'z', 'd'))
    ensures fmt == "%Zu" ==> Cut(fmt, Conversion(NO_FLAGS, Absent, Absent, 'Z', 'u'))
    ensures fmt == "%Zd" ==> Cut(fmt, Conversion(NO_FLAGS, Absent, Absent, 'Z', 'd'))
  {
    if fmt == "%zx" {
      assert DirectiveAt("%zx", 0).1 == 3;
    } else if fmt == "%zd" {
      assert DirectiveAt("%zd", 0).1 == 3;
    } else if fmt == "%Zu" {
      assert DirectiveAt("%Zu", 0).1 == 3;
    } else if fmt == "%Zd" {
      assert DirectiveAt("%Zd", 0).1 == 3;
    }
  }

  /** size_t has no sign, whatever the conversion. */
  lemma SizeQualifier(fmt: Text, w: Word)
    ensures fmt == "%zx" ==> Shows(fmt, Int32(w), w, 16, true)
    ensures fmt == "%zd" ==> Shows(fmt, Int32(w), w, 10, false)
    ensures fmt == "%Zu" ==> Shows(fmt, Int32(w), w, 10, false)
    ensures fmt == "%Zd" ==> Shows(fmt, Int32(w), w, 10, false)
  {
    CutSizeQualifier(fmt);
    if fmt == "%zx" {
      Bare(fmt, 'z', 'x', Int32(w), w);
    } else if fmt == "%zd" {
      Bare(fmt, 'z', 'd', Int32(w), w);
    } else if fmt == "%Zu" {
      Bare(fmt, 'Z', 'u', Int32(w), w);
    } else if fmt == "%Zd" {
      Bare(fmt, 'Z', 'd', Int32(w), w);
    }
  }

  lemma CutHalfQualifier(fmt: Text)
    ensures fmt == "%hx" ==> Cut(fmt, Conversion(NO_FLAGS, Absent, Absent, 'h', 'x'))
    ensures fmt == "%hu" ==> Cut(fmt, Conversion(NO_FLAGS, Absent, Absent, 'h', 'u'))
  {
    if fmt == "%hx" {
      assert DirectiveAt("%hx", 0).1 == 3;
    } else if fmt == "%hu" {
      assert DirectiveAt("%hu", 0).1 == 3;
    }
  }

  /** The low half-word. */
  lemma HalfQualifier(fmt: Text, w: Word)
    ensures fmt == "%hx" ==> Shows(fmt, Int32(w), w % 0x1_0000, 16, true)
    ensures fmt == "%hu" ==> Shows(fmt, Int32(w), w % 0x1_0000, 10, false)
  {
    CutHalfQualifier(fmt);
    if fmt == "%hx" {
      Bare(fmt, 'h', 'x', Int32(w), w % 0x1_0000);
    } else if fmt == "%hu" {
      Bare(fmt, 'h', 'u', Int32(w), w % 0x1_0000);
    }
  }

  lemma CutQuadQualifier(fmt: Text)
    ensures fmt == "%llx" ==> Cut(fmt, Conversion(NO_FLAGS, Absent, Absent, 'L', 'x'))
    ensures fmt == "%Lx" ==> Cut(fmt, Conversion(NO_FLAGS, Absent, Absent, 'L', 'x'))
    ensures fmt == "%llu" ==> Cut(fmt, Conversion(NO_FLAGS, Absent, Absent, 'L', 'u'))
  {
    if fmt == "%llx" {
      assert DirectiveAt("%llx", 0).1 == 4;
    } else if fmt == "%Lx" {
      assert DirectiveAt("%Lx", 0).1 == 3;
    } else if fmt == "%llu" {
      assert DirectiveAt("%llu", 0).1 == 4;
    }
  }

  /** All sixty-four bits. */
  lemma QuadQualifier(fmt: Text, v: DWord)
    ensures fmt == "%llx" ==> Shows(fmt, Int64(v), v, 16, true)
    ensures fmt == "%Lx" ==> Shows(fmt, Int64(v), v, 16, true)
    ensures fmt == "%llu" ==> Shows(fmt, Int64(v), v, 10, false)
  {
    CutQuadQualifier(fmt);
    if fmt == "%llx" {
      Bare(fmt, 'L', 'x', Int64(v), v);
    } else if fmt == "%Lx" {
      Bare(fmt, 'L', 'x', Int64(v), v);
    } else if fmt == "%llu" {
      Bare(fmt, 'L', 'u', Int64(v), v);
    }
  }

  lemma CutDifferenceQualifier(fmt: Text)
    ensures fmt == "%tx" ==> Cut(fmt, Conversion(NO_FLAGS, Absent, Absent, 't', 'x'))
  {
    assert DirectiveAt("%tx", 0).1 == 3;
  }

  /** ptrdiff_t is sign-extended to sixty-four bits before an unsigned conversion. */
  lemma DifferenceQualifier(fmt: Text, w: Word)
    ensures fmt == "%tx" ==> Shows(fmt, Int32(w), if w < 0x8000_0000 then w else 0xffff_ffff_0000_0000 + w, 16, true)
  {
    CutDifferenceQualifier(fmt);
    if fmt == "%tx" {
      Bare(fmt, 't', 'x', Int32(w), SignExtend(w));
    }
  }

  lemma Minus(fmt: Text, qualifier: char, arg: Arg, num: DWord)
    requires Cut(fmt, Conversion(NO_FLAGS, Absent, Absent, qualifier, 'd'))
    requires IntegerArgument(qualifier, true, arg) == Some(num) && num >= 0x8000_0000_0000_0000
    ensures ShowsMinus(fmt, arg, 0x1_0000_0000_0000_0000 - num, 10)
  {
    var b, minus := DigitText(0x1_0000_0000_0000_0000 - num, 10, false), "-";
    DigitTextNumeral(0x1_0000_0000_0000_0000 - num, 10, false);
    assert minus + "" == minus;
    Marked(fmt, Conversion(NO_FLAGS, Absent, Absent, qualifier, 'd'), arg, num, b, minus, -2 - |b|);
    assert (minus + b)[1..] == b;
  }

  /** A number of either sign. */
  lemma EitherSign(fmt: Text, qualifier: char, arg: Arg, num: DWord)
    requires Cut(fmt, Conversion(NO_FLAGS, Absent, Absent, qualifier, 'd'))
    requires IntegerArgument(qualifier, true, arg) == Some(num)
    ensures num < 0x8000_0000_0000_0000 ==> Shows(fmt, arg, num, 10, false)
    ensures num >= 0x8000_0000_0000_0000 ==> ShowsMinus(fmt, arg, 0x1_0000_0000_0000_0000 - num, 10)
  {
    if num < 0x8000_0000_0000_0000 {
      Bare(fmt, qualifier, 'd', arg, num);
    } else {
      Minus(fmt, qualifier, arg, num);
    }
  }

  lemma CutSignedHalf(fmt: Text)
    ensures fmt == "%hd" ==> Cut(fmt, Conversion(NO_FLAGS, Absent, Absent, 'h', 'd'))
  {
    assert DirectiveAt("%hd", 0).1 == 3;
  }

  /** The sign of a half-word. */
  lemma SignedHalf(fmt: Text, w: Word, half: nat)
    requires half == w % 0x1_0000
    ensures fmt == "%hd" ==> (half < 0x8000 ==> Shows(fmt, Int32(w), half, 10, false))
    ensures fmt == "%hd" ==> (half >= 0x8000 ==> ShowsMinus(fmt, Int32(w), 0x1_0000 - half, 10))
  {
    CutSignedHalf(fmt);
    if fmt == "%hd" {
      EitherSign(fmt, 'h', Int32(w), if half >= 0x8000 then half + (DWORD - 0x1_0000) else half);
    }
  }

  lemma CutSignedQuad(fmt: Text)
    ensures fmt == "%lld" ==> Cut(fmt, Conversion(NO_FLAGS, Absent, Absent, 'L', 'd'))
    ensures fmt == "%Ld" ==> Cut(fmt, Conversion(NO_FLAGS, Absent, Absent, 'L', 'd'))
  {
    if fmt == "%lld" {
      assert DirectiveAt("%lld", 0).1 == 4;
    } else if fmt == "%Ld" {
      assert DirectiveAt("%Ld", 0).1 == 3;
    }
  }

  /** The sign of sixty-four bits. */
  lemma SignedQuad(fmt: Text, v: DWord)
    ensures fmt == "%lld" ==> (v < 0x8000_0000_0000_0000 ==> Shows(fmt, Int64(v), v, 10, false))
    ensures fmt == "%lld" ==>
      (v >= 0x8000_0000_0000_0000 ==> ShowsMinus(fmt, Int64(v), 0x1_0000_0000_0000_0000 - v, 10))
    ensures fmt == "%Ld" ==> (v < 0x8000_0000_0000_0000 ==> Shows(fmt, Int64(v), v, 10, false))
    ensures fmt == "%Ld" ==> (v >= 0x8000_0000_0000_0000 ==> ShowsMinus(fmt, Int64(v), 0x1_0000_0000_0000_0000 - v, 10))
  {
    CutSignedQuad(fmt);
    if fmt == "%lld" {
      EitherSign(fmt, 'L', Int64(v), v);
    } else if fmt == "%Ld" {
      EitherSign(fmt, 'L', Int64(v), v);
    }
  }

  // ---- fields taken from the arguments ----

  /** A star takes one argument, its sign included. */
  lemma StarWidth(fmt: Text, d: Directive, k: Word, arg: Arg, t: Text)
    requires Cut(fmt, d) && d.Conversion? && d.width.Star? && !d.precision.Star? && IsInteger(d.conv)
    requires var f := if k >= 0x8000_0000 then d.f.(left := true) else d.f;
      var size := if k >= 0x8000_0000 then 0x1_0000_0000 - k else k;
      OneArgument(f, size, Fixed(d.precision), d.qualifier, d.conv, arg) == Some(t)
    ensures Sprinted(fmt, [Int32(k), arg]) == Some(t)
  {
    var args := [Int32(k), arg];
    assert args[1..] == [arg] && [arg][1..] == [];
    Single(fmt, d, args, t);
  }

  lemma StarPrecision(fmt: Text, d: Directive, k: Word, arg: Arg, t: Text)
    requires Cut(fmt, d) && d.Conversion? && !d.width.Star? && d.precision.Star? && IsInteger(d.conv)
    requires var precision := if k >= 0x8000_0000 then 0 else k;
      OneArgument(d.f, Fixed(d.width), precision, d.qualifier, d.conv, arg) == Some(t)
    ensures Sprinted(fmt, [Int32(k), arg]) == Some(t)
  {
    var args := [Int32(k), arg];
    assert args[1..] == [arg] && [arg][1..] == [];
    Single(fmt, d, args, t);
  }

  lemma HexNumber(w: Word, size: int, precision: int, f: Flags)
    requires !f.sign && !f.special
    ensures OneArgument(f, size, precision, NO_QUALIFIER, 'x', Int32(w))
            == Some(Framed("", DigitText(w, 16, true), size, precision, f.left, f.zeropad))
  {
    FramedText(w, 16, size, precision, IntegerFlags('x', f));
    assert "" + "" == "";
  }

  lemma HexText(w: Word, b: Text, size: int, precision: int, f: Flags, z: Text)
    requires Numeral(b, w, 16, true) && !f.sign && !f.special && z == Run('0', precision - |b|) + b
    ensures var r := OneArgument(f, size, precision, NO_QUALIFIER, 'x', Int32(w));
      && (f.left ==> r == Some(z + Run(' ', size - |z|)))
      && (!f.left && f.zeropad ==> r == Some(Run('0', size - |z|) + z))
      && (!f.left && !f.zeropad ==> r == Some(Run(' ', size - |z|) + z))
      && (size == -1 ==> r == Some(z))
  {
    DigitsAre(w, 16, true, b);
    HexNumber(w, size, precision, f);
    NoMarks(b, size, precision, f.left, f.zeropad, z);
  }

  lemma CutWidthArgument(fmt: Text)
    ensures fmt == "%*x" ==> Cut(fmt, Conversion(NO_FLAGS, Star, Absent, NO_QUALIFIER, 'x'))
    ensures fmt == "%0*x" ==> Cut(fmt, Conversion(NO_FLAGS.(zeropad := true), Star, Absent, NO_QUALIFIER, 'x'))
  {
    if fmt == "%*x" {
      assert DirectiveAt("%*x", 0).1 == 3;
    } else if fmt == "%0*x" {
      assert DirectiveAt("%0*x", 0).1 == 4;
    }
  }

  /** A width argument: spaces in front, or zeros. */
  lemma WidthArgument(fmt: Text, k: Word, w: Word, b: Text)
    requires Numeral(b, w, 16, true) && k < 0x8000_0000
    ensures fmt == "%*x" ==> Sprinted(fmt, [Int32(k), Int32(w)]) == Some(Run(' ', k - |b|) + b)
    ensures fmt == "%0*x" ==> Sprinted(fmt, [Int32(k), Int32(w)]) == Some(Run('0', k - |b|) + b)
  {
    CutWidthArgument(fmt);
    if fmt == "%*x" {
      NoZeros(b);
      HexText(w, b, k, -1, NO_FLAGS, b);
      StarWidth(fmt, Conversion(NO_FLAGS, Star, Absent, NO_QUALIFIER, 'x'), k, Int32(w), Run(' ', k - |b|) + b);
    } else if fmt == "%0*x" {
      NoZeros(b);
      HexText(w, b, k, -1, NO_FLAGS.(zeropad := true), b);
      StarWidth(fmt, Conversion(NO_FLAGS.(zeropad := true), Star, Absent, NO_QUALIFIER, 'x'),
                k, Int32(w), Run('0', k - |b|) + b);
    }
  }

  lemma CutNegativeWidth(fmt: Text)
    ensures fmt == "%*x" ==> Cut(fmt, Conversion(NO_FLAGS, Star, Absent, NO_QUALIFIER, 'x'))
    ensures fmt == "%0*x" ==> Cut(fmt, Conversion(NO_FLAGS.(zeropad := true), Star, Absent, NO_QUALIFIER, 'x'))
  {
    if fmt == "%*x" {
      assert DirectiveAt("%*x", 0).1 == 3;
    } else if fmt == "%0*x" {
      assert DirectiveAt("%0*x", 0).1 == 4;
    }
  }

  /** A negative one: that many columns, left-justified. */
  lemma NegativeWidth(fmt: Text, k: Word, w: Word, b: Text, n: int)
    requires Numeral(b, w, 16, true) && k >= 0x8000_0000 && n == 0x1_0000_0000 - k
    ensures fmt == "%*x" ==> Sprinted(fmt, [Int32(k), Int32(w)]) == Some(b + Run(' ', n - |b|))
    ensures fmt == "%0*x" ==> Sprinted(fmt, [Int32(k), Int32(w)]) == Some(b + Run(' ', n - |b|))
  {
    CutNegativeWidth(fmt);
    if fmt == "%*x" {
      NoZeros(b);
      HexText(w, b, n, -1, NO_FLAGS.(left := true), b);
      StarWidth(fmt, Conversion(NO_FLAGS, Star, Absent, NO_QUALIFIER, 'x'), k, Int32(w), b + Run(' ', n - |b|));
    } else if fmt == "%0*x" {
      NoZeros(b);
      HexText(w, b, n, -1, NO_FLAGS.(left := true, zeropad := true), b);
      StarWidth(fmt, Conversion(NO_FLAGS.(zeropad := true), Star, Absent, NO_QUALIFIER, 'x'),
                k, Int32(w), b + Run(' ', n - |b|));
    }
  }

  lemma CutPrecisionArgument(fmt: Text)
    ensures fmt == "%.*x" ==> Cut(fmt, Conversion(NO_FLAGS, Absent, Star, NO_QUALIFIER, 'x'))
  {
    assert DirectiveAt("%.*x", 0).1 == 4;
  }

  /** A precision argument; a negative one means zero. */
  lemma PrecisionArgument(fmt: Text, k: Word, w: Word, b: Text, z: Text)
    requires Numeral(b, w, 16, true) && z == if k < 0x8000_0000 then Run('0', k - |b|) + b else b
    ensures fmt == "%.*x" ==> Sprinted(fmt, [Int32(k), Int32(w)]) == Some(z)
  {
    CutPrecisionArgument(fmt);
    if fmt == "%.*x" {
      var precision := if k >= 0x8000_0000 then 0 else k;
      assert Run('0', 0 - |b|) + b == b;
      HexText(w, b, -1, precision, NO_FLAGS, z);
      StarPrecision(fmt, Conversion(NO_FLAGS, Absent, Star, NO_QUALIFIER, 'x'), k, Int32(w), z);
    }
  }

  lemma StarBoth(fmt: Text, d: Directive, k: Word, p: Word, arg: Arg, t: Text)
    requires Cut(fmt, d) && d.Conversion? && d.width.Star? && d.precision.Star? && IsInteger(d.conv)
    requires k < 0x8000_0000 && p < 0x8000_0000 && OneArgument(d.f, k, p, d.qualifier, d.conv, arg) == Some(t)
    ensures Sprinted(fmt, [Int32(k), Int32(p), arg]) == Some(t)
  {
    var args := [Int32(k), Int32(p), arg];
    assert args[1..] == [Int32(p), arg] && [Int32(p), arg][1..] == [arg] && [arg][1..] == [];
    Single(fmt, d, args, t);
  }

  lemma CutBothArguments(fmt: Text)
    ensures fmt == "%*.*x" ==> Cut(fmt, Conversion(NO_FLAGS, Star, Star, NO_QUALIFIER, 'x'))
  {
    assert DirectiveAt("%*.*x", 0).1 == 5;
  }

  /** The width comes before the precision, and both before the number. */
  lemma BothArguments(fmt: Text, k: Word, p: Word, w: Word, b: Text, z: Text)
    requires Numeral(b, w, 16, true) && k < 0x8000_0000 && p < 0x8000_0000 && z == Run('0', p - |b|) + b
    ensures fmt == "%*.*x" ==> Sprinted(fmt, [Int32(k), Int32(p), Int32(w)]) == Some(Run(' ', k - |z|) + z)
  {
    CutBothArguments(fmt);
    if fmt == "%*.*x" {
      HexText(w, b, k, p, NO_FLAGS, z);
      StarBoth(fmt, Conversion(NO_FLAGS, Star, Star, NO_QUALIFIER, 'x'), k, p, Int32(w), Run(' ', k - |z|) + z);
    }
  }

  // ---- characters, strings and pointers ----

  lemma CharacterIs(fmt: Text, f: Flags, width: Field, w: Word, c: char, s: Text)
    requires Cut(fmt, Conversion(f, width, Absent, NO_QUALIFIER, 'c')) && !width.Star?
    requires c as int == w % 0x100 && s == Run(' ', Fixed(width) - 1)
    ensures Sprinted(fmt, [Int32(w)]) == Some(if f.left then [c] + s else s + [c])
  {
    RepeatIsRun(' ', Fixed(width) - 1);
    Plain(fmt, Conversion(f, width, Absent, NO_QUALIFIER, 'c'), Int32(w), if f.left then [c] + s else s + [c]);
  }

  lemma CutCharacters(fmt: Text)
    ensures fmt == "%c" ==> Cut(fmt, Conversion(NO_FLAGS, Absent, Absent, NO_QUALIFIER, 'c'))
    ensures fmt == "%5c" ==> Cut(fmt, Conversion(NO_FLAGS, Given(5), Absent, NO_QUALIFIER, 'c'))
    ensures fmt == "%-5c" ==> Cut(fmt, Conversion(NO_FLAGS.(left := true), Given(5), Absent, NO_QUALIFIER, 'c'))
  {
    if fmt == "%c" {
      assert DirectiveAt("%c", 0).1 == 2;
    } else if fmt == "%5c" {
      assert DirectiveAt("%5c", 0).1 == 3;
    } else if fmt == "%-5c" {
      assert DirectiveAt("%-5c", 0).1 == 4;
    }
  }

  /** A character is the low byte of its argument. */
  lemma Characters(fmt: Text, w: Word, c: char)
    requires c as int == w % 0x100
    ensures fmt == "%c" ==> Sprinted(fmt, [Int32(w)]) == Some([c])
    ensures fmt == "%5c" ==> Sprinted(fmt, [Int32(w)]) == Some(Run(' ', 4) + [c])
    ensures fmt == "%-5c" ==> Sprinted(fmt, [Int32(w)]) == Some([c] + Run(' ', 4))
  {
    CutCharacters(fmt);
    if fmt == "%c" {
      assert Run(' ', -2) + [c] == [c];
      CharacterIs(fmt, NO_FLAGS, Absent, w, c, Run(' ', -2));
    } else if fmt == "%5c" {
      CharacterIs(fmt, NO_FLAGS, Given(5), w, c, Run(' ', 4));
    } else if fmt == "%-5c" {
      CharacterIs(fmt, NO_FLAGS.(left := true), Given(5), w, c, Run(' ', 4));
    }
  }

  /** A string's first characters, in a field; the precision is a size_t. */
  lemma StringIs(fmt: Text, f: Flags, width: Field, precision: Field, arg: Arg, s: Text, t: Text)
    requires Cut(fmt, Conversion(f, width, precision, NO_QUALIFIER, 's')) && !width.Star? && !precision.Star?
    requires (arg.Str? && arg.s == s) || (arg.NullStr? && s == "<NULL>")
    requires t == s[..if |s| < Fixed(precision) % WORD then |s| else Fixed(precision) % WORD]
    ensures Sprinted(fmt, [arg])
            == Some(if f.left then t + Run(' ', Fixed(width) - |t|) else Run(' ', Fixed(width) - |t|) + t)
    ensures width == Absent ==> Sprinted(fmt, [arg]) == Some(t)
  {
    StringField(s, Fixed(width), Fixed(precision), f, t);
    Plain(fmt, Conversion(f, width, precision, NO_QUALIFIER, 's'), arg,
          StringText(s, Fixed(width), Fixed(precision), f));
  }

  lemma StringField(s: Text, width: int, precision: int, f: Flags, t: Text)
    requires t == s[..if |s| < precision % WORD then |s| else precision % WORD]
    ensures StringText(s, width, precision, f)
            == if f.left then t + Run(' ', width - |t|) else Run(' ', width - |t|) + t
    ensures width == -1 ==> StringText(s, width, precision, f) == t
  {
    RepeatIsRun(' ', width - |t|);
    assert t + Run(' ', -1 - |t|) == t == Run(' ', -1 - |t|) + t;
  }

  lemma CutStrings(fmt: Text)
    ensures fmt == "%s" ==> Cut(fmt, Conversion(NO_FLAGS, Absent, Absent, NO_QUALIFIER, 's'))
    ensures fmt == "%7s" ==> Cut(fmt, Conversion(NO_FLAGS, Given(7), Absent, NO_QUALIFIER, 's'))
    ensures fmt == "%-7s" ==> Cut(fmt, Conversion(NO_FLAGS.(left := true), Given(7), Absent, NO_QUALIFIER, 's'))
  {
    if fmt == "%s" {
      assert DirectiveAt("%s", 0).1 == 2;
    } else if fmt == "%7s" {
      assert DirectiveAt("%7s", 0).1 == 3;
    } else if fmt == "%-7s" {
      assert DirectiveAt("%-7s", 0).1 == 4;
    }
  }

  /** A string is printed whole. */
  lemma Strings(fmt: Text, s: Text)
    requires '\0' !in s && |s| < 0xffff_ffff
    ensures fmt == "%s" ==> Sprinted(fmt, [Str(s)]) == Some(s)
    ensures fmt == "%7s" ==> Sprinted(fmt, [Str(s)]) == Some(Run(' ', 7 - |s|) + s)
    ensures fmt == "%-7s" ==> Sprinted(fmt, [Str(s)]) == Some(s + Run(' ', 7 - |s|))
  {
    CutStrings(fmt);
    if fmt == "%s" {
      assert s[..|s|] == s;
      StringIs(fmt, NO_FLAGS, Absent, Absent, Str(s), s, s);
    } else if fmt == "%7s" {
      assert s[..|s|] == s;
      StringIs(fmt, NO_FLAGS, Given(7), Absent, Str(s), s, s);
    } else if fmt == "%-7s" {
      assert s[..|s|] == s;
      StringIs(fmt, NO_FLAGS.(left := true), Given(7), Absent, Str(s), s, s);
    }
  }

  lemma CutShortStrings(fmt: Text)
    ensures fmt == "%.3s" ==> Cut(fmt, Conversion(NO_FLAGS, Absent, Given(3), NO_QUALIFIER, 's'))
    ensures fmt == "%7.3s" ==> Cut(fmt, Conversion(NO_FLAGS, Given(7), Given(3), NO_QUALIFIER, 's'))
  {
    if fmt == "%.3s" {
      assert DirectiveAt("%.3s", 0).1 == 4;
    } else if fmt == "%7.3s" {
      assert DirectiveAt("%7.3s", 0).1 == 5;
    }
  }

  /** A precision cuts the string. */
  lemma ShortStrings(fmt: Text, s: Text, t: Text)
    requires '\0' !in s && |t| <= 3 && t <= s && (|t| == 3 || t == s)
    ensures fmt == "%.3s" ==> Sprinted(fmt, [Str(s)]) == Some(t)
    ensures fmt == "%7.3s" ==> Sprinted(fmt, [Str(s)]) == Some(Run(' ', 7 - |t|) + t)
  {
    CutShortStrings(fmt);
    if fmt == "%.3s" {
      assert s[..|t|] == t;
      StringIs(fmt, NO_FLAGS, Absent, Given(3), Str(s), s, t);
    } else if fmt == "%7.3s" {
      assert s[..|t|] == t;
      StringIs(fmt, NO_FLAGS, Given(7), Given(3), Str(s), s, t);
    }
  }

  lemma PointerIs(fmt: Text, width: Field, p: Word, b: Text)
    requires Cut(fmt, Conversion(NO_FLAGS, width, Absent, NO_QUALIFIER, 'p')) && !width.Star?
    requires Numeral(b, p, 16, true) && p != 0
    ensures width == Absent ==> Sprinted(fmt, [Ptr(p)]) == Some(Run('0', 8 - |b|) + b)
    ensures width.Given? ==> Sprinted(fmt, [Ptr(p)]) == Some(Run(' ', width.n - |b|) + b)
  {
    PointerField(p, b, Fixed(width));
    Plain(fmt, Conversion(NO_FLAGS, width, Absent, NO_QUALIFIER, 'p'), Ptr(p),
          PointerText(p, Fixed(width), -1, NO_FLAGS));
  }

  lemma PointerField(p: Word, b: Text, width: int)
    requires Numeral(b, p, 16, true) && p != 0
    ensures PointerText(p, width, -1, NO_FLAGS)
            == if width == -1 then Run('0', 8 - |b|) + b else Run(' ', width - |b|) + b
  {
    var size := if width == -1 then 8 else width;
    NoZeros(b);
    DigitsAre(p, 16, true, b);
    FramedText(p, 16, size, -1, NO_FLAGS.(small := true, zeropad := width == -1));
    NoMarks(b, size, -1, false, width == -1, b);
    assert "" + "" == "";
  }

  lemma CutPointers(fmt: Text)
    ensures fmt == "%p" ==> Cut(fmt, Conversion(NO_FLAGS, Absent, Absent, NO_QUALIFIER, 'p'))
    ensures fmt == "%pS" ==> Cut(fmt, Conversion(NO_FLAGS, Absent, Absent, NO_QUALIFIER, 'p'))
    ensures fmt == "%12p" ==> Cut(fmt, Conversion(NO_FLAGS, Given(12), Absent, NO_QUALIFIER, 'p'))
  {
    if fmt == "%p" {
      assert DirectiveAt("%p", 0).1 == 2;
    } else if fmt == "%pS" {
      assert DirectiveAt("%pS", 0).1 == 3;
    } else if fmt == "%12p" {
      assert DirectiveAt("%12p", 0).1 == 4;
    }
  }

  /** A pointer is eight small hex digits, zero-padded, or in a width of spaces; letters behind the p are
      skipped. */
  lemma Pointers(fmt: Text, p: Word, b: Text)
    requires Numeral(b, p, 16, true) && p != 0
    ensures fmt == "%p" ==> Sprinted(fmt, [Ptr(p)]) == Some(Run('0', 8 - |b|) + b)
    ensures fmt == "%pS" ==> Sprinted(fmt, [Ptr(p)]) == Some(Run('0', 8 - |b|) + b)
    ensures fmt == "%12p" ==> Sprinted(fmt, [Ptr(p)]) == Some(Run(' ', 12 - |b|) + b)
  {
    CutPointers(fmt);
    if fmt == "%p" {
      PointerIs(fmt, Absent, p, b);
    } else if fmt == "%pS" {
      PointerIs(fmt, Absent, p, b);
    } else if fmt == "%12p" {
      PointerIs(fmt, Given(12), p, b);
    }
  }

  /** The null string and the null pointer have names. */
  lemma Nulls(fmt: Text, s: Text)
    ensures fmt == "%s" && s == "<NULL>" ==> Sprinted(fmt, [NullStr]) == Some(s)
    ensures fmt == "%p" && s == "(null)" ==> Sprinted(fmt, [Ptr(0)]) == Some(s)
  {
    assert s[..|s|] == s;
    if fmt == "%s" && s == "<NULL>" {
      CutStrings(fmt);
      StringIs(fmt, NO_FLAGS, Absent, Absent, NullStr, s, s);
    } else if fmt == "%p" && s == "(null)" {
      CutPointers(fmt);
      StringField(s, -1, -1, NO_FLAGS, s);
      Plain(fmt, Conversion(NO_FLAGS, Absent, Absent, NO_QUALIFIER, 'p'), Ptr(0), s);
    }
  }

  lemma CutNoArgument(fmt: Text)
    ensures fmt == "%%" ==> Cut(fmt, Conversion(NO_FLAGS, Absent, Absent, NO_QUALIFIER, '%'))
    ensures fmt == "%y" ==> Cut(fmt, Conversion(NO_FLAGS, Absent, Absent, NO_QUALIFIER, 'y'))
    ensures fmt == "%w" ==> Cut(fmt, Conversion(NO_FLAGS, Absent, Absent, NO_QUALIFIER, 'w'))
    ensures fmt == "%" ==> Cut(fmt, Conversion(NO_FLAGS, Absent, Absent, NO_QUALIFIER, '\0'))
    ensures fmt == "%-5" ==> Cut(fmt, Conversion(NO_FLAGS.(left := true), Given(5), Absent, NO_QUALIFIER, '\0'))
  {
    if fmt == "%%" {
      assert DirectiveAt("%%", 0).1 == 2;
    } else if fmt == "%y" {
      assert DirectiveAt("%y", 0).1 == 2;
    } else if fmt == "%w" {
      assert DirectiveAt("%w", 0).1 == 2;
    } else if fmt == "%" {
      assert DirectiveAt("%", 0).1 == 1;
    } else if fmt == "%-5" {
      assert DirectiveAt("%-5", 0).1 == 3;
    }
  }

  /** A doubled percent sign is one, an unknown conversion prints itself, and neither takes an argument. */
  lemma NoArgument(fmt: Text, s: Text)
    requires s == "%"
    ensures fmt == "%%" ==> Sprinted(fmt, []) == Some(s)
    ensures fmt == "%y" || fmt == "%w" ==> Sprinted(fmt, []) == Some(fmt)
    ensures fmt == "%" || fmt == "%-5" ==> Sprinted(fmt, []) == Some(s)
  {
    CutNoArgument(fmt);
    if fmt in {"%%", "%y", "%w", "%", "%-5"} {
      var d := DirectiveAt(fmt, 0).0;
      assert Rendered(d, []) == Some((if fmt == "%y" || fmt == "%w" then ['%', d.conv] else "%", []));
      Single(fmt, d, [], if fmt == "%y" || fmt == "%w" then fmt else s);
    }
  }
}
