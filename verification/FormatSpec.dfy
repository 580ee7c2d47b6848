/** What a format string means: vsprintf of vsprintf.c as a two-phase specification.  The format is
    first cut into directives, without looking at the arguments; then each directive is rendered with
    the arguments it takes. */
module FormatSpec {
  import opened Options
  import opened Bits
  import opened NumberFormat
  import opened StringToNumber

  /** The characters of a string up to its terminating NUL. */
  type CString = s: Text | '\0' !in s

  /** One promoted argument.  On this ABI int, long, size_t and ptrdiff_t are all 32 bits wide. */
  datatype Arg = Int32(w: Word) | Int64(d: DWord) | Str(s: CString) | NullStr | Ptr(p: Word)

  /** What %n writes through its pointer: the number of characters so far. */
  datatype Store = Store(pointer: Word, count: nat)

  datatype Field = Absent | Given(n: nat) | Star

  /** A literal character, or a conversion as written. */
  datatype Directive =
    | Literal(c: char)
    | Conversion(f: Flags, width: Field, precision: Field, qualifier: char, conv: char)

  const NO_FLAGS := Flags(false, false, false, false, false, false, false)
  const NO_QUALIFIER := '\0'

  // ---- first phase: cutting the format ----

  function FlagSet(c: char, f: Flags): Option<Flags>
  {
    match c
    case '-' => Some(f.(left := true))
    case '+' => Some(f.(plus := true))
    case ' ' => Some(f.(space := true))
    case '#' => Some(f.(special := true))
    case '0' => Some(f.(zeropad := true))
    case _ => None
  }

  function FlagRun(fmt: Text, i: nat, f: Flags): (r: (Flags, nat))
    requires i <= |fmt|
    ensures i <= r.1 <= |fmt|
    decreases |fmt| - i
  {
    if i < |fmt| && FlagSet(fmt[i], f).Some? then FlagRun(fmt, i + 1, FlagSet(fmt[i], f).value) else (f, i)
  }

  function DigitRun(fmt: Text, i: nat, n: nat): (r: (nat, nat))
    requires i <= |fmt|
    ensures i <= r.1 <= |fmt|
    decreases |fmt| - i
  {
    if i < |fmt| && IsDigit(fmt[i]) then DigitRun(fmt, i + 1, n * 10 + (fmt[i] as nat - '0' as nat)) else (n, i)
  }

  function FieldAt(fmt: Text, i: nat): (r: (Field, nat))
    requires i <= |fmt|
    ensures i <= r.1 <= |fmt|
  {
    if IsDigit(At(fmt, i)) then var (n, j) := DigitRun(fmt, i, 0); (Given(n), j)
    else if At(fmt, i) == '*' then (Star, i + 1)
    else (Absent, i)
  }

  /** A point without a number means precision zero. */
  function PrecisionAt(fmt: Text, i: nat): (r: (Field, nat))
    requires i <= |fmt|
    ensures i <= r.1 <= |fmt|
  {
    if At(fmt, i) != '.' then (Absent, i)
    else var (p, j) := FieldAt(fmt, i + 1); (if p == Absent then Given(0) else p, j)
  }

  predicate IsQualifier(c: char) { c == 'h' || c == 'l' || c == 'L' || c == 'Z' || c == 'z' || c == 't' }

  function QualifierAt(fmt: Text, i: nat): (r: (char, nat))
    requires i <= |fmt|
    ensures i <= r.1 <= |fmt|
  {
    if !IsQualifier(At(fmt, i)) then (NO_QUALIFIER, i)
    else if At(fmt, i) == 'l' && At(fmt, i + 1) == 'l' then ('L', i + 2)
    else (At(fmt, i), i + 1)
  }

  /** isalnum of ctype.c, Latin-1 letters included. */
  predicate IsAlnum(c: char)
  {
    || '0' <= c <= '9' || 'A' <= c <= 'Z' || 'a' <= c <= 'z'
    || (192 <= c as int <= 255 && c as int != 215 && c as int != 247)
  }

  function AlnumRun(fmt: Text, i: nat): (j: nat)
    requires i <= |fmt|
    ensures i <= j <= |fmt|
    decreases |fmt| - i
  {
    if i < |fmt| && IsAlnum(fmt[i]) then AlnumRun(fmt, i + 1) else i
  }

  /** The directive at position i and where the next one starts: always further on, never past the
      terminating NUL.  A conversion cut short by the NUL ends the format. */
  function DirectiveAt(fmt: Text, i: nat): (r: (Directive, nat))
    requires i < |fmt|
    ensures i < r.1 <= |fmt|
  {
    if fmt[i] != '%' then (Literal(fmt[i]), i + 1)
    else
      var (f, a) := FlagRun(fmt, i + 1, NO_FLAGS);
      var (width, b) := FieldAt(fmt, a);
      var (precision, c) := PrecisionAt(fmt, b);
      var (qualifier, d) := QualifierAt(fmt, c);
      (Conversion(f, width, precision, qualifier, At(fmt, d)),
       if d == |fmt| then d else if fmt[d] == 'p' then AlnumRun(fmt, d + 1) else d + 1)
  }

  function Directives(fmt: Text, i: nat): seq<Directive>
    requires i <= |fmt|
    decreases |fmt| - i
  {
    if i == |fmt| then [] else
      var (d, next) := DirectiveAt(fmt, i);
      [d] + Directives(fmt, next)
  }

  // ---- second phase: rendering with arguments ----

  function SignExtend(w: Word): DWord { if w >= 0x8000_0000 then w + (DWORD - WORD) else w }

  /** The number an integer conversion prints, by its qualifier.  size_t is never sign-extended and
      ptrdiff_t always is; %h takes the low half-word. */
  function IntegerArgument(qualifier: char, signed: bool, arg: Arg): Option<DWord>
  {
    match arg
    case Int64(d) => if qualifier == 'L' then Some(d) else None
    case Int32(w) =>
      if qualifier == 'L' then None
      else if qualifier == 'Z' || qualifier == 'z' then Some(w)
      else if qualifier == 't' then Some(SignExtend(w))
      else if qualifier == 'h' then
        var half := w % 0x1_0000;
        Some(if signed && half >= 0x8000 then half + (DWORD - 0x1_0000) else half)
      else Some(if signed then SignExtend(w) else w)
    case _ => None
  }

  function BaseOf(conv: char): nat { if conv == 'o' then 8 else if conv == 'x' || conv == 'X' then 16 else 10 }

  predicate IsInteger(conv: char)
  {
    conv == 'o' || conv == 'x' || conv == 'X' || conv == 'd' || conv == 'i' || conv == 'u'
  }

  function IntegerFlags(conv: char, f: Flags): Flags
  {
    f.(small := f.small || conv == 'x', sign := f.sign || conv == 'd' || conv == 'i')
  }

  function CharText(c: char, width: int, f: Flags): Text
  {
    if f.left then [c] + Repeat(' ', width - 1) else Repeat(' ', width - 1) + [c]
  }

  /** At most `precision` characters of the string (a negative precision is a huge size_t). */
  function StringText(s: Text, width: int, precision: int, f: Flags): Text
  {
    var len := if |s| < precision % WORD then |s| else precision % WORD;
    if f.left then s[..len] + Repeat(' ', width - len) else Repeat(' ', width - len) + s[..len]
  }

  /** Pointers print as eight zero-padded small hex digits unless a width is given. */
  function PointerText(p: Word, width: int, precision: int, f: Flags): Text
  {
    if p == 0 then StringText("(null)", width, precision, f)
    else NumberText(p, 16, if width == -1 then 8 else width, precision,
                    f.(small := true, zeropad := f.zeropad || width == -1))
  }

  /** One conversion, its width and precision known. */
  function ConversionText(f: Flags, width: int, precision: int, qualifier: char, conv: char, args: seq<Arg>)
    : Option<(Text, seq<Arg>)>
  {
    if conv == 'c' || conv == 's' || conv == 'p' || conv == 'n' || IsInteger(conv) then
      if args == [] then None else
        match OneArgument(f, width, precision, qualifier, conv, args[0])
        case None => None
        case Some(t) => Some((t, args[1..]))
    else if conv == '%' then Some(("%", args))
    else if conv == '\0' then Some(("%", args))
    else Some((['%', conv], args))
  }

  function OneArgument(f: Flags, width: int, precision: int, qualifier: char, conv: char, arg: Arg): Option<Text>
    requires conv == 'c' || conv == 's' || conv == 'p' || conv == 'n' || IsInteger(conv)
  {
    if conv == 'c' then (if arg.Int32? then Some(CharText((arg.w % 0x100) as char, width, f)) else None)
    else if conv == 's' then
      (match arg
       case Str(s) => Some(StringText(s, width, precision, f))
       case NullStr => Some(StringText("<NULL>", width, precision, f))
       case _ => None)
    else if conv == 'p' then (if arg.Ptr? then Some(PointerText(arg.p, width, precision, f)) else None)
    else if conv == 'n' then (if arg.Ptr? then Some("") else None)
    else
      var f := IntegerFlags(conv, f);
      match IntegerArgument(qualifier, f.sign, arg)
      case None => None
      case Some(num) => Some(NumberText(num, BaseOf(conv), width, precision, f))
  }

  /** A width or precision, from the format or from the next argument; -1 when absent. */
  function FieldValue(field: Field, args: seq<Arg>): Option<(int, seq<Arg>)>
  {
    match field
    case Absent => Some((-1, args))
    case Given(n) => Some((n, args))
    case Star => if args != [] && args[0].Int32? then Some((Signed(args[0].w), args[1..])) else None
  }

  /** The text of a directive and the arguments it leaves; None when the arguments do not match.  A
      negative width argument means left-justified, a negative precision argument means zero. */
  function Rendered(d: Directive, args: seq<Arg>): Option<(Text, seq<Arg>)>
  {
    match d
    case Literal(c) => Some(([c], args))
    case Conversion(f, width, precision, qualifier, conv) =>
      match FieldValue(width, args)
      case None => None
      case Some((w, args1)) =>
        match FieldValue(precision, args1)
        case None => None
        case Some((p, args2)) =>
          ConversionText(if width.Star? && w < 0 then f.(left := true) else f,
                         if width.Star? && w < 0 then -w else w,
                         if precision.Star? && p < 0 then 0 else p, qualifier, conv, args2)
  }

  function RenderedAll(ds: seq<Directive>, args: seq<Arg>): Option<Text>
  {
    if ds == [] then Some("") else
      match Rendered(ds[0], args)
      case None => None
      case Some((t, rest)) =>
        match RenderedAll(ds[1..], rest)
        case None => None
        case Some(more) => Some(t + more)
  }

  /** The arguments left once width and precision are taken. */
  function AfterFields(d: Directive, args: seq<Arg>): seq<Arg>
    requires d.Conversion? && Rendered(d, args).Some?
  {
    FieldValue(d.precision, FieldValue(d.width, args).value.1).value.1
  }

  /** The stores of one directive with this many characters before it. */
  function StoresOf(d: Directive, args: seq<Arg>, count: nat): seq<Store>
    requires Rendered(d, args).Some?
  {
    if d.Conversion? && d.conv == 'n' then [Store(AfterFields(d, args)[0].p, count)] else []
  }

  function StoresAll(ds: seq<Directive>, args: seq<Arg>, count: nat): seq<Store>
  {
    if ds == [] then [] else
      match Rendered(ds[0], args)
      case None => []
      case Some((t, rest)) => StoresOf(ds[0], args, count) + StoresAll(ds[1..], rest, count + |t|)
  }

  // ---- what the specification says of whole formats ----

  /** The first directive's text comes first; the rest follows with the arguments it leaves. */
  lemma RenderedStep(fmt: Text, i: nat, args: seq<Arg>)
    requires i < |fmt| && RenderedAll(Directives(fmt, i), args).Some?
    ensures var (d, next) := DirectiveAt(fmt, i);
      && Rendered(d, args).Some?
      && RenderedAll(Directives(fmt, next), Rendered(d, args).value.1).Some?
      && RenderedAll(Directives(fmt, i), args).value
         == Rendered(d, args).value.0 + RenderedAll(Directives(fmt, next), Rendered(d, args).value.1).value
  {
    var (d, next) := DirectiveAt(fmt, i);
    var ds := Directives(fmt, i);
    assert ds == [d] + Directives(fmt, next);
    assert ds[0] == d && ds[1..] == Directives(fmt, next);
  }

  lemma StoresStep(fmt: Text, i: nat, args: seq<Arg>, count: nat)
    requires i < |fmt| && Rendered(DirectiveAt(fmt, i).0, args).Some?
    ensures var (d, next) := DirectiveAt(fmt, i);
      StoresAll(Directives(fmt, i), args, count)
      == StoresOf(d, args, count)
         + StoresAll(Directives(fmt, next), Rendered(d, args).value.1, count + |Rendered(d, args).value.0|)
  {
    var (d, next) := DirectiveAt(fmt, i);
    var ds := Directives(fmt, i);
    assert ds == [d] + Directives(fmt, next);
    assert ds[0] == d && ds[1..] == Directives(fmt, next);
  }

  /** A format without a percent sign prints itself and takes no argument. */
  lemma {:induction false} PlainText(fmt: Text, i: nat, args: seq<Arg>)
    requires i <= |fmt| && '%' !in fmt
    ensures RenderedAll(Directives(fmt, i), args) == Some(fmt[i..])
    decreases |fmt| - i
  {
    if i < |fmt| {
      assert fmt[i] in fmt;
      PlainText(fmt, i + 1, args);
      var ds := Directives(fmt, i);
      assert ds == [Literal(fmt[i])] + Directives(fmt, i + 1);
      assert ds[1..] == Directives(fmt, i + 1) && Rendered(ds[0], args) == Some(([fmt[i]], args));
      assert fmt[i..] == [fmt[i]] + fmt[i + 1..];
    } else {
      assert fmt[i..] == "";
    }
  }

  /** A format cut short behind a percent sign, with or without flags, width and precision, prints that
      sign. */
  lemma TrailingPercent(fmt: Text, i: nat, args: seq<Arg>)
    requires i < |fmt| && fmt[i] == '%'
    requires DirectiveAt(fmt, i).0.conv == '\0' && '\0' !in fmt
    requires Rendered(DirectiveAt(fmt, i).0, args).Some?
    ensures DirectiveAt(fmt, i).1 == |fmt|
    ensures RenderedAll(Directives(fmt, i), args) == Some("%")
  {
    var (d, next) := DirectiveAt(fmt, i);
    assert Directives(fmt, next) == [];
    assert Directives(fmt, i) == [d];
    assert Rendered(d, args) == Some(("%", AfterFields(d, args)));
    assert RenderedAll([d][1..], AfterFields(d, args)) == Some("");
    assert "%" + "" == "%";
  }
}
