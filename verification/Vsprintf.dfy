/** vsprintf of vsprintf.c: one pass over the format, writing through a cursor into the buffer. */
module Vsprintf {
  import opened Options
  import opened Bits
  import opened Decimal
  import opened NumberFormat
  import opened StringToNumber
  import opened FormatSpec

  // ---- reading the format ----

  /** The repeat: label and its switch; the first step skips the percent sign. */
  method TakeFlags(fmt: Text, i0: nat) returns (f: Flags, i: nat)
    requires i0 < |fmt|
    ensures (f, i) == FlagRun(fmt, i0 + 1, NO_FLAGS)
  {
    f, i := NO_FLAGS, i0 + 1;
    while i < |fmt| && FlagSet(fmt[i], f).Some?
      invariant i <= |fmt| && FlagRun(fmt, i0 + 1, NO_FLAGS) == FlagRun(fmt, i, f)
    {
      f, i := FlagSet(fmt[i], f).value, i + 1;
    }
  }

  /** skip_atoi */
  method SkipAtoi(fmt: Text, i0: nat) returns (n: nat, i: nat)
    requires i0 <= |fmt|
    ensures (n, i) == DigitRun(fmt, i0, 0)
  {
    n, i := 0, i0;
    while i < |fmt| && IsDigit(fmt[i])
      invariant i <= |fmt| && DigitRun(fmt, i0, 0) == DigitRun(fmt, i, n)
    {
      n, i := n * 10 + (fmt[i] as nat - '0' as nat), i + 1;
    }
  }

  /** The field width: digits, or the next argument, whose sign also chooses the side. */
  method TakeWidth(fmt: Text, i0: nat, f0: Flags, args0: seq<Arg>)
    returns (width: int, f: Flags, i: nat, args: seq<Arg>)
    requires i0 <= |fmt| && FieldValue(FieldAt(fmt, i0).0, args0).Some?
    ensures var (field, next) := FieldAt(fmt, i0);
      var (w, rest) := FieldValue(field, args0).value;
      && i == next && args == rest
      && f == (if field.Star? && w < 0 then f0.(left := true) else f0)
      && width == (if field.Star? && w < 0 then -w else w)
  {
    width, f, i, args := -1, f0, i0, args0;
    if IsDigit(At(fmt, i)) {
      width, i := SkipAtoi(fmt, i);
    } else if At(fmt, i) == '*' {
      i := i + 1;
      width, args := Signed(args[0].w), args[1..];
      if width < 0 {
        width, f := -width, f.(left := true);
      }
    }
  }

  /** The precision, never negative once a point was seen. */
  method TakePrecision(fmt: Text, i0: nat, args0: seq<Arg>) returns (precision: int, i: nat, args: seq<Arg>)
    requires i0 <= |fmt| && FieldValue(PrecisionAt(fmt, i0).0, args0).Some?
    ensures var (field, next) := PrecisionAt(fmt, i0);
      var (p, rest) := FieldValue(field, args0).value;
      i == next && args == rest && precision == (if field.Star? && p < 0 then 0 else p)
  {
    precision, i, args := -1, i0, args0;
    if At(fmt, i) == '.' {
      i := i + 1;
      if IsDigit(At(fmt, i)) {
        precision, i := SkipAtoi(fmt, i);
      } else if At(fmt, i) == '*' {
        i := i + 1;
        precision, args := Signed(args[0].w), args[1..];
      }
      if precision < 0 {
        precision := 0;
      }
    }
  }

  method TakeQualifier(fmt: Text, i0: nat) returns (qualifier: char, i: nat)
    requires i0 <= |fmt|
    ensures (qualifier, i) == QualifierAt(fmt, i0)
  {
    qualifier, i := NO_QUALIFIER, i0;
    if IsQualifier(At(fmt, i)) {
      qualifier, i := At(fmt, i), i + 1;
      if qualifier == 'l' && At(fmt, i) == 'l' {
        qualifier, i := 'L', i + 1;
      }
    }
  }

  /** while (isalnum(fmt[1])) fmt++; */
  method SkipAlnum(fmt: Text, i0: nat) returns (i: nat)
    requires i0 <= |fmt|
    ensures i == AlnumRun(fmt, i0)
  {
    i := i0;
    while i < |fmt| && IsAlnum(fmt[i])
      invariant i <= |fmt| && AlnumRun(fmt, i0) == AlnumRun(fmt, i)
    {
      i := i + 1;
    }
  }

  // ---- writing one conversion ----

  /** while (len < field_width--) *buf++ = ' '; */
  method PadTo(buf: array<char>, at: nat, len: nat, width: int) returns (end: nat, width': int)
    requires at + Max(width - len, 0) <= buf.Length
    modifies buf
    ensures width' < len && (width <= len ==> width' == width - 1)
    ensures end == at + |Repeat(' ', width - len)|
    ensures buf[..end] == old(buf[..at]) + Repeat(' ', width - len)
    ensures forall k :: end <= k < buf.Length ==> buf[k] == old(buf[k])
  {
    end, width' := Pad(buf, at, ' ', width - len);
    width' := len + width';
  }

  /** strnlen: the string's length, but at most count. */
  method Strnlen(s: Text, count0: Word) returns (n: nat)
    ensures n == if |s| < count0 then |s| else count0
  {
    var count: int := count0;
    n := 0;
    while count != 0 && n < |s|
      invariant 0 <= count <= count0 && n == count0 - count && n <= |s|
    {
      n, count := n + 1, count - 1;
    }
  }

  method PutText(buf: array<char>, at: nat, s: Text, len: nat) returns (end: nat)
    requires len <= |s| && at + len <= buf.Length
    modifies buf
    ensures end == at + len
    ensures buf[..end] == old(buf[..at]) + s[..len]
    ensures forall k :: end <= k < buf.Length ==> buf[k] == old(buf[k])
  {
    end := at;
    ghost var before := buf[..at];
    for i := 0 to len
      invariant end == at + i
      invariant buf[..end] == before + s[..i]
      invariant forall k :: end <= k < buf.Length ==> buf[k] == old(buf[k])
    {
      Regroup(before, s[..i], [s[i]]);
      assert s[..i + 1] == s[..i] + [s[i]];
      end := Put(buf, end, s[i]);
    }
  }

  /** string; a null pointer prints as <NULL>. */
  method PutString(buf: array<char>, at: nat, s: Text, width0: int, precision: int, f: Flags) returns (end: nat)
    requires at + |StringText(s, width0, precision, f)| <= buf.Length
    modifies buf
    ensures end == at + |StringText(s, width0, precision, f)|
    ensures buf[..end] == old(buf[..at]) + StringText(s, width0, precision, f)
    ensures forall k :: end <= k < buf.Length ==> buf[k] == old(buf[k])
  {
    var len := Strnlen(s, precision % WORD);
    var width := width0;
    end := at;
    ghost var pads := Repeat(' ', width0 - len);
    if !f.left {
      Regroup(buf[..at], pads, s[..len]);
      end, width := PadTo(buf, end, len, width);
    } else {
      Regroup(buf[..at], s[..len], pads);
    }
    end := PutText(buf, end, s, len);
    end, width := PadTo(buf, end, len, width);
  }

  /** The 'c' case. */
  method PutChar(buf: array<char>, at: nat, c: char, width0: int, f: Flags) returns (end: nat)
    requires at + |CharText(c, width0, f)| <= buf.Length
    modifies buf
    ensures end == at + |CharText(c, width0, f)|
    ensures buf[..end] == old(buf[..at]) + CharText(c, width0, f)
    ensures forall k :: end <= k < buf.Length ==> buf[k] == old(buf[k])
  {
    // while (--field_width > 0) *str++ = ' ';
    var width := width0 - 1;
    end := at;
    ghost var pads := Repeat(' ', width0 - 1);
    if !f.left {
      Regroup(buf[..at], pads, [c]);
      end, width := Pad(buf, end, ' ', width);
    } else {
      Regroup(buf[..at], [c], pads);
    }
    end := Put(buf, end, c);
    end, width := Pad(buf, end, ' ', width);
  }

  /** pointer, without the network address extensions. */
  method PutPointer(buf: array<char>, at: nat, p: Word, width0: int, precision: int, f0: Flags) returns (end: nat)
    requires at + |PointerText(p, width0, precision, f0)| <= buf.Length
    modifies buf
    ensures end == at + |PointerText(p, width0, precision, f0)|
    ensures buf[..end] == old(buf[..at]) + PointerText(p, width0, precision, f0)
    ensures forall k :: end <= k < buf.Length ==> buf[k] == old(buf[k])
  {
    if p == 0 {
      end := PutString(buf, at, "(null)", width0, precision, f0);
      return;
    }
    var width, f := width0, f0.(small := true);
    if width == -1 {
      width, f := 8, f.(zeropad := true);
    }
    end := Number(buf, at, p, 16, width, precision, f);
  }

  /** The conversions that take an argument. */
  method PutArgument(buf: array<char>, at: nat, f: Flags, width: int, precision: int, qualifier: char, conv: char,
                     arg: Arg)
    returns (end: nat)
    requires conv == 'c' || conv == 's' || conv == 'p' || conv == 'n' || IsInteger(conv)
    requires OneArgument(f, width, precision, qualifier, conv, arg).Some?
    requires at + |OneArgument(f, width, precision, qualifier, conv, arg).value| <= buf.Length
    modifies buf
    ensures end == at + |OneArgument(f, width, precision, qualifier, conv, arg).value|
    ensures buf[..end] == old(buf[..at]) + OneArgument(f, width, precision, qualifier, conv, arg).value
    ensures forall k :: end <= k < buf.Length ==> buf[k] == old(buf[k])
  {
    match conv {
      case 'c' =>
        end := PutChar(buf, at, (arg.w % 0x100) as char, width, f);
      case 's' =>
        end := PutString(buf, at, if arg.NullStr? then "<NULL>" else arg.s, width, precision, f);
      case 'p' =>
        end := PutPointer(buf, at, arg.p, width, precision, f);
      case 'n' =>
        end := at;
      case _ =>
        var f := IntegerFlags(conv, f);
        var num := TakeInteger(qualifier, f.sign, arg);
        end := Number(buf, at, num, BaseOf(conv), width, precision, f);
    }
  }

  /** va_arg for the integer conversions. */
  method TakeInteger(qualifier: char, signed: bool, arg: Arg) returns (num: DWord)
    requires IntegerArgument(qualifier, signed, arg).Some?
    ensures num == IntegerArgument(qualifier, signed, arg).value
  {
    if qualifier == 'L' {
      num := arg.d;
    } else if qualifier == 'l' {
      num := arg.w;
      if signed {
        num := SignExtend(arg.w);
      }
    } else if qualifier == 'Z' || qualifier == 'z' {
      num := arg.w;
    } else if qualifier == 't' {
      num := SignExtend(arg.w);
    } else if qualifier == 'h' {
      num := arg.w % 0x1_0000;
      if signed && num >= 0x8000 {
        num := num + (DWORD - 0x1_0000);
      }
    } else {
      num := arg.w;
      if signed {
        num := SignExtend(arg.w);
      }
    }
  }

  /** The switch on the conversion character. */
  method PutConversion(buf: array<char>, at: nat, f: Flags, width: int, precision: int, qualifier: char, conv: char,
                       args0: seq<Arg>)
    returns (end: nat, args: seq<Arg>, stores: seq<Store>)
    requires ConversionText(f, width, precision, qualifier, conv, args0).Some?
    requires at + |ConversionText(f, width, precision, qualifier, conv, args0).value.0| <= buf.Length
    modifies buf
    ensures args == ConversionText(f, width, precision, qualifier, conv, args0).value.1
    ensures stores == if conv == 'n' then [Store(args0[0].p, at)] else []
    ensures end == at + |ConversionText(f, width, precision, qualifier, conv, args0).value.0|
    ensures buf[..end] == old(buf[..at]) + ConversionText(f, width, precision, qualifier, conv, args0).value.0
    ensures forall k :: end <= k < buf.Length ==> buf[k] == old(buf[k])
  {
    args, stores := args0, [];
    if conv == 'n' {
      stores := [Store(args[0].p, at)];
    }
    if conv == 'c' || conv == 's' || conv == 'p' || conv == 'n' || IsInteger(conv) {
      end := PutArgument(buf, at, f, width, precision, qualifier, conv, args[0]);
      args := args[1..];
    } else {
      end := Put(buf, at, '%');
      if conv != '%' && conv != '\0' {
        Regroup(buf[..at], ['%'], [conv]);
        assert ['%', conv] == ['%'] + [conv];
        end := Put(buf, end, conv);
      }
    }
  }

  /** One conversion, from its percent sign at i0; `i` is where the next directive starts. */
  method Convert(buf: array<char>, at: nat, fmt: Text, i0: nat, args0: seq<Arg>)
    returns (end: nat, i: nat, args: seq<Arg>, stores: seq<Store>)
    requires i0 < |fmt| && fmt[i0] == '%' && Rendered(DirectiveAt(fmt, i0).0, args0).Some?
    requires at + |Rendered(DirectiveAt(fmt, i0).0, args0).value.0| <= buf.Length
    modifies buf
    ensures i == DirectiveAt(fmt, i0).1 && args == Rendered(DirectiveAt(fmt, i0).0, args0).value.1
    ensures stores == StoresOf(DirectiveAt(fmt, i0).0, args0, at)
    ensures end == at + |Rendered(DirectiveAt(fmt, i0).0, args0).value.0|
    ensures buf[..end] == old(buf[..at]) + Rendered(DirectiveAt(fmt, i0).0, args0).value.0
    ensures forall k :: end <= k < buf.Length ==> buf[k] == old(buf[k])
  {
    var f, width, precision, qualifier;
    f, width, precision, qualifier, i, args := TakeDirective(fmt, i0, args0);
    end, args, stores := PutConversion(buf, at, f, width, precision, qualifier, At(fmt, i), args);
    i := Advance(fmt, i);
  }

  /** Where the conversion character of the directive at i is. */
  ghost function ConversionAt(fmt: Text, i: nat): (j: nat)
    requires i < |fmt|
    ensures i < j <= |fmt|
  {
    QualifierAt(fmt, PrecisionAt(fmt, FieldAt(fmt, FlagRun(fmt, i + 1, NO_FLAGS).1).1).1).1
  }

  /** Flags, width, precision and qualifier; the cursor ends on the conversion character. */
  method TakeDirective(fmt: Text, i0: nat, args0: seq<Arg>)
    returns (f: Flags, width: int, precision: int, qualifier: char, i: nat, args: seq<Arg>)
    requires i0 < |fmt| && fmt[i0] == '%' && Rendered(DirectiveAt(fmt, i0).0, args0).Some?
    ensures i == ConversionAt(fmt, i0)
    ensures Rendered(DirectiveAt(fmt, i0).0, args0)
            == ConversionText(f, width, precision, qualifier, At(fmt, i), args)
    ensures args == AfterFields(DirectiveAt(fmt, i0).0, args0) && DirectiveAt(fmt, i0).0.conv == At(fmt, i)
  {
    f, i := TakeFlags(fmt, i0);
    width, f, i, args := TakeWidth(fmt, i, f, args0);
    precision, i, args := TakePrecision(fmt, i, args);
    qualifier, i := TakeQualifier(fmt, i);
  }

  /** The end of a loop iteration: a missing conversion character makes the cursor step back before
      the terminating NUL, pointer suffixes are skipped, and the loop moves on. */
  method Advance(fmt: Text, i0: nat) returns (i: nat)
    requires 0 < i0 <= |fmt|
    ensures i == if i0 == |fmt| then i0 else if fmt[i0] == 'p' then AlnumRun(fmt, i0 + 1) else i0 + 1
  {
    i := i0;
    if i == |fmt| {
      i := i - 1;
    } else if fmt[i] == 'p' {
      var j := SkipAlnum(fmt, i + 1);
      i := j - 1;
    }
    i := i + 1;
  }

  /** What the directive at position i does: where the next one starts, its text, the arguments it leaves
      and its stores. */
  ghost predicate Next(fmt: Text, i: nat, args: seq<Arg>, count: nat, next: nat, t: Text, rest: seq<Arg>, s: seq<Store>)
  {
    && i < |fmt| && next == DirectiveAt(fmt, i).1
    && Rendered(DirectiveAt(fmt, i).0, args) == Some((t, rest))
    && s == StoresOf(DirectiveAt(fmt, i).0, args, count)
  }

  /** The body of vsprintf's loop: a literal character or a conversion. */
  method Emit(buf: array<char>, at: nat, fmt: Text, i0: nat, args0: seq<Arg>, ghost next: nat, ghost t: Text,
              ghost rest: seq<Arg>, ghost s: seq<Store>)
    returns (end: nat, i: nat, args: seq<Arg>, stores: seq<Store>)
    requires Next(fmt, i0, args0, at, next, t, rest, s) && at + |t| <= buf.Length
    modifies buf
    ensures i == next && args == rest && stores == s
    ensures end == at + |t| && buf[..end] == old(buf[..at]) + t
    ensures forall k :: end <= k < buf.Length ==> buf[k] == old(buf[k])
  {
    if fmt[i0] != '%' {
      end := Put(buf, at, fmt[i0]);
      i, args, stores := i0 + 1, args0, [];
    } else {
      end, i, args, stores := Convert(buf, at, fmt, i0, args0);
    }
  }

  /** From position i the rest of the format renders to this text and makes these stores. */
  ghost predicate Left(fmt: Text, i: nat, args: seq<Arg>, count: nat, text: Text, stores: seq<Store>)
  {
    && i <= |fmt|
    && RenderedAll(Directives(fmt, i), args) == Some(text)
    && StoresAll(Directives(fmt, i), args, count) == stores
  }

  /** The next directive gives the front of both. */
  lemma LeftStep(fmt: Text, i: nat, args: seq<Arg>, count: nat, text: Text, stores: seq<Store>)
    returns (next: nat, t: Text, rest: seq<Arg>, s: seq<Store>, text': Text, stores': seq<Store>)
    requires Left(fmt, i, args, count, text, stores) && i < |fmt|
    ensures Next(fmt, i, args, count, next, t, rest, s) && i < next
    ensures text == t + text' && stores == s + stores'
    ensures Left(fmt, next, rest, count + |t|, text', stores')
  {
    RenderedStep(fmt, i, args);
    StoresStep(fmt, i, args, count);
    var d := DirectiveAt(fmt, i).0;
    next := DirectiveAt(fmt, i).1;
    t, rest := Rendered(d, args).value.0, Rendered(d, args).value.1;
    s := StoresOf(d, args, count);
    text' := RenderedAll(Directives(fmt, next), rest).value;
    stores' := StoresAll(Directives(fmt, next), rest, count + |t|);
  }

  lemma LeftAtEnd(fmt: Text, args: seq<Arg>, count: nat, text: Text, stores: seq<Store>)
    requires Left(fmt, |fmt|, args, count, text, stores)
    ensures text == "" && stores == []
  {
    assert Directives(fmt, |fmt|) == [];
  }

  /** Output and stores so far are the front of the whole, and the rest of the format makes the rest. */
  ghost predicate Progress(out: Text, stores: seq<Store>, fmt: Text, i: nat, args: seq<Arg>, all: Text,
                           allStores: seq<Store>)
  {
    && out <= all && stores <= allStores
    && Left(fmt, i, args, |out|, all[|out|..], allStores[|stores|..])
  }

  lemma ProgressStep(out: Text, stores: seq<Store>, fmt: Text, i: nat, args: seq<Arg>, all: Text,
                     allStores: seq<Store>)
    returns (next: nat, t: Text, rest: seq<Arg>, s: seq<Store>)
    requires Progress(out, stores, fmt, i, args, all, allStores) && i < |fmt|
    ensures Next(fmt, i, args, |out|, next, t, rest, s) && i < next
    ensures |out| + |t| <= |all| && Progress(out + t, stores + s, fmt, next, rest, all, allStores)
  {
    var text, more;
    next, t, rest, s, text, more := LeftStep(fmt, i, args, |out|, all[|out|..], allStores[|stores|..]);
    ResumeAfter(out, stores, t, s, fmt, next, rest, all, allStores, text, more);
  }

  lemma ResumeAfter(out: Text, stores: seq<Store>, t: Text, s: seq<Store>, fmt: Text, i: nat, args: seq<Arg>,
                    all: Text, allStores: seq<Store>, text: Text, more: seq<Store>)
    requires out <= all && stores <= allStores && all[|out|..] == t + text && allStores[|stores|..] == s + more
    requires Left(fmt, i, args, |out| + |t|, text, more)
    ensures |out| + |t| <= |all| && Progress(out + t, stores + s, fmt, i, args, all, allStores)
  {
    Front(out, t, text, all);
    Front(stores, s, more, allStores);
    Resume(out + t, |out| + |t|, stores + s, fmt, i, args, all, allStores, text, more);
  }

  lemma Resume(out: Text, count: nat, stores: seq<Store>, fmt: Text, i: nat, args: seq<Arg>, all: Text,
               allStores: seq<Store>, text: Text, more: seq<Store>)
    requires count == |out| && out <= all && stores <= allStores
    requires all[|out|..] == text && allStores[|stores|..] == more
    requires Left(fmt, i, args, count, text, more)
    ensures Progress(out, stores, fmt, i, args, all, allStores)
  {
  }

  lemma Front<T>(a: seq<T>, b: seq<T>, c: seq<T>, all: seq<T>)
    requires a <= all && all[|a|..] == b + c
    ensures a + b <= all && all[|a + b|..] == c && |a + b| == |a| + |b|
  {
    assert all == a + all[|a|..];
    assert all == a + b + c;
  }

  lemma ProgressEnds(out: Text, stores: seq<Store>, fmt: Text, args: seq<Arg>, all: Text, allStores: seq<Store>)
    requires Progress(out, stores, fmt, |fmt|, args, all, allStores)
    ensures out == all && stores == allStores
  {
    LeftAtEnd(fmt, args, |out|, all[|out|..], allStores[|stores|..]);
  }

  /** vsprintf: the rendered directives, a terminating NUL, and the length as the result; and the stores
      %n makes through its pointers, in order. */
  method VSprintf(buf: array<char>, fmt: Text, args0: seq<Arg>) returns (n: nat, stores: seq<Store>)
    requires '\0' !in fmt && RenderedAll(Directives(fmt, 0), args0).Some?
    requires |RenderedAll(Directives(fmt, 0), args0).value| < buf.Length
    modifies buf
    ensures n == |RenderedAll(Directives(fmt, 0), args0).value|
    ensures stores == StoresAll(Directives(fmt, 0), args0, 0)
    ensures buf[..n] == RenderedAll(Directives(fmt, 0), args0).value && buf[n] == '\0'
    ensures forall k :: n < k < buf.Length ==> buf[k] == old(buf[k])
  {
    ghost var all, allStores := RenderedAll(Directives(fmt, 0), args0).value, StoresAll(Directives(fmt, 0), args0, 0);
    n, stores := FormatAll(buf, fmt, args0, all, allStores);
  }

  /** vsprintf's loop. */
  method FormatAll(buf: array<char>, fmt: Text, args0: seq<Arg>, ghost all: Text, ghost allStores: seq<Store>)
    returns (str: nat, stores: seq<Store>)
    requires Progress([], [], fmt, 0, args0, all, allStores) && |all| < buf.Length
    modifies buf
    ensures str == |all| && stores == allStores && buf[..str] == all && buf[str] == '\0'
    ensures forall k :: str < k < buf.Length ==> buf[k] == old(buf[k])
  {
    var i, args := 0, args0;
    str, stores := 0, [];
    while i < |fmt|
      invariant 0 <= i <= |fmt| && str <= |all|
      invariant Progress(buf[..str], stores, fmt, i, args, all, allStores)
      invariant forall k :: str <= k < buf.Length ==> buf[k] == old(buf[k])
      decreases |fmt| - i
    {
      ghost var next, t, rest, s := ProgressStep(buf[..str], stores, fmt, i, args, all, allStores);
      var more;
      str, i, args, more := Emit(buf, str, fmt, i, args, next, t, rest, s);
      stores := stores + more;
    }
    ProgressEnds(buf[..str], stores, fmt, args, all, allStores);
    buf[str] := '\0';
  }
}
