/** Formats put together: when the first format ends with a whole directive, the joined format prints the
    first text and then the second, each with its own arguments. */
module FormatJoin {
  import opened Options
  import opened Bits
  import opened NumberFormat
  import opened StringToNumber
  import opened FormatSpec

  // ---- cutting depends on what stands behind no further than the next directive ----

  lemma {:induction false} FlagRunJoin(a: Text, b: Text, i: nat, f: Flags)
    requires i <= |a| && FlagRun(a, i, f).1 < |a|
    ensures FlagRun(a + b, i, f) == FlagRun(a, i, f)
    decreases |a| - i
  {
    if FlagSet(a[i], f).Some? {
      FlagRunJoin(a, b, i + 1, FlagSet(a[i], f).value);
    }
  }

  lemma {:induction false} DigitRunJoin(a: Text, b: Text, i: nat, n: nat)
    requires i <= |a| && DigitRun(a, i, n).1 < |a|
    ensures DigitRun(a + b, i, n) == DigitRun(a, i, n)
    decreases |a| - i
  {
    if IsDigit(a[i]) {
      DigitRunJoin(a, b, i + 1, n * 10 + (a[i] as nat - '0' as nat));
    }
  }

  lemma {:induction false} AlnumRunJoin(a: Text, b: Text, i: nat)
    requires i <= |a| && AlnumRun(a, i) < |a|
    ensures AlnumRun(a + b, i) == AlnumRun(a, i)
    decreases |a| - i
  {
    if IsAlnum(a[i]) {
      AlnumRunJoin(a, b, i + 1);
    }
  }

  lemma FieldJoin(a: Text, b: Text, i: nat)
    requires i <= |a| && FieldAt(a, i).1 < |a|
    ensures FieldAt(a + b, i) == FieldAt(a, i)
  {
    if IsDigit(At(a, i)) {
      DigitRunJoin(a, b, i, 0);
    }
  }

  lemma PrecisionJoin(a: Text, b: Text, i: nat)
    requires i <= |a| && PrecisionAt(a, i).1 < |a|
    ensures PrecisionAt(a + b, i) == PrecisionAt(a, i)
  {
    if At(a, i) == '.' {
      FieldJoin(a, b, i + 1);
    }
  }

  lemma QualifierJoin(a: Text, b: Text, i: nat)
    requires i <= |a| && QualifierAt(a, i).1 < |a|
    ensures QualifierAt(a + b, i) == QualifierAt(a, i)
  {
  }

  /** The directive at i ends inside the format: it has its conversion character, and the letters behind a
      pointer conversion stop at something else. */
  predicate EndsInside(a: Text, i: nat)
    requires i < |a|
  {
    a[i] == '%' ==> DirectiveAt(a, i).0.conv != '\0' && (DirectiveAt(a, i).0.conv == 'p' ==> DirectiveAt(a, i).1 < |a|)
  }

  lemma {:induction false} DirectiveJoin(a: Text, b: Text, i: nat)
    requires i < |a| && EndsInside(a, i)
    ensures DirectiveAt(a + b, i) == DirectiveAt(a, i)
  {
    if a[i] == '%' {
      var (f, j) := FlagRun(a, i + 1, NO_FLAGS);
      var (width, k) := FieldAt(a, j);
      var (precision, l) := PrecisionAt(a, k);
      var (qualifier, m) := QualifierAt(a, l);
      assert j <= k <= l <= m < |a|;
      FlagRunJoin(a, b, i + 1, NO_FLAGS);
      FieldJoin(a, b, j);
      PrecisionJoin(a, b, k);
      QualifierJoin(a, b, l);
      if a[m] == 'p' {
        AlnumRunJoin(a, b, m + 1);
      }
    }
  }

  // ---- and not on what stands before it ----

  lemma {:induction false} FlagRunShift(a: Text, b: Text, i: nat, f: Flags)
    requires i <= |b|
    ensures FlagRun(a + b, |a| + i, f) == (FlagRun(b, i, f).0, |a| + FlagRun(b, i, f).1)
    decreases |b| - i
  {
    if i < |b| && FlagSet(b[i], f).Some? {
      FlagRunShift(a, b, i + 1, FlagSet(b[i], f).value);
    }
  }

  lemma {:induction false} DigitRunShift(a: Text, b: Text, i: nat, n: nat)
    requires i <= |b|
    ensures DigitRun(a + b, |a| + i, n) == (DigitRun(b, i, n).0, |a| + DigitRun(b, i, n).1)
    decreases |b| - i
  {
    if i < |b| && IsDigit(b[i]) {
      DigitRunShift(a, b, i + 1, n * 10 + (b[i] as nat - '0' as nat));
    }
  }

  lemma {:induction false} AlnumRunShift(a: Text, b: Text, i: nat)
    requires i <= |b|
    ensures AlnumRun(a + b, |a| + i) == |a| + AlnumRun(b, i)
    decreases |b| - i
  {
    if i < |b| && IsAlnum(b[i]) {
      AlnumRunShift(a, b, i + 1);
    }
  }

  lemma FieldShift(a: Text, b: Text, i: nat)
    requires i <= |b|
    ensures FieldAt(a + b, |a| + i) == (FieldAt(b, i).0, |a| + FieldAt(b, i).1)
  {
    DigitRunShift(a, b, i, 0);
  }

  lemma PrecisionShift(a: Text, b: Text, i: nat)
    requires i <= |b|
    ensures PrecisionAt(a + b, |a| + i) == (PrecisionAt(b, i).0, |a| + PrecisionAt(b, i).1)
  {
    if At(b, i) == '.' {
      FieldShift(a, b, i + 1);
    }
  }

  lemma QualifierShift(a: Text, b: Text, i: nat)
    requires i <= |b|
    ensures QualifierAt(a + b, |a| + i) == (QualifierAt(b, i).0, |a| + QualifierAt(b, i).1)
  {
    assert At(a + b, |a| + i + 1) == At(b, i + 1);
  }

  lemma DirectiveShift(a: Text, b: Text, i: nat)
    requires i < |b|
    ensures DirectiveAt(a + b, |a| + i) == (DirectiveAt(b, i).0, |a| + DirectiveAt(b, i).1)
  {
    if b[i] == '%' {
      var (f, j) := FlagRun(b, i + 1, NO_FLAGS);
      var (width, k) := FieldAt(b, j);
      var (precision, l) := PrecisionAt(b, k);
      var (qualifier, m) := QualifierAt(b, l);
      Assembled(b, i, f, j, width, k, precision, l, qualifier, m);
      ConversionShift(a, b, i, f, j, width, k, precision, l, qualifier, m);
    }
  }

  lemma ConversionShift(a: Text, b: Text, i: nat, f: Flags, j: nat, width: Field, k: nat, precision: Field, l: nat,
                        qualifier: char, m: nat)
    requires i < |b| && b[i] == '%' && j <= |b| && k <= |b| && l <= |b| && m <= |b|
    requires FlagRun(b, i + 1, NO_FLAGS) == (f, j) && FieldAt(b, j) == (width, k)
    requires PrecisionAt(b, k) == (precision, l) && QualifierAt(b, l) == (qualifier, m)
    ensures DirectiveAt(a + b, |a| + i)
            == (Conversion(f, width, precision, qualifier, At(b, m)), |a| + After(b, m))
  {
    ShiftedPieces(a, b, i, f, j, width, k, precision, l, qualifier, m);
    AfterShift(a, b, m);
    Assembled(a + b, |a| + i, f, |a| + j, width, |a| + k, precision, |a| + l, qualifier, |a| + m);
  }

  lemma ShiftedPieces(a: Text, b: Text, i: nat, f: Flags, j: nat, width: Field, k: nat, precision: Field, l: nat,
                      qualifier: char, m: nat)
    requires i < |b| && j <= |b| && k <= |b| && l <= |b| && m <= |b|
    requires FlagRun(b, i + 1, NO_FLAGS) == (f, j) && FieldAt(b, j) == (width, k)
    requires PrecisionAt(b, k) == (precision, l) && QualifierAt(b, l) == (qualifier, m)
    ensures FlagRun(a + b, |a| + i + 1, NO_FLAGS) == (f, |a| + j) && FieldAt(a + b, |a| + j) == (width, |a| + k)
    ensures PrecisionAt(a + b, |a| + k) == (precision, |a| + l)
    ensures QualifierAt(a + b, |a| + l) == (qualifier, |a| + m)
  {
    FlagRunShift(a, b, i + 1, NO_FLAGS);
    FieldShift(a, b, j);
    PrecisionShift(a, b, k);
    QualifierShift(a, b, l);
  }

  /** Where the next directive starts behind a conversion character at m. */
  function After(fmt: Text, m: nat): nat
    requires m <= |fmt|
  {
    if m == |fmt| then m else if fmt[m] == 'p' then AlnumRun(fmt, m + 1) else m + 1
  }

  /** A conversion from its pieces. */
  lemma Assembled(fmt: Text, i: nat, f: Flags, j: nat, width: Field, k: nat, precision: Field, l: nat,
                  qualifier: char, m: nat)
    requires i < |fmt| && fmt[i] == '%' && j <= |fmt| && k <= |fmt| && l <= |fmt| && m <= |fmt|
    requires FlagRun(fmt, i + 1, NO_FLAGS) == (f, j) && FieldAt(fmt, j) == (width, k)
    requires PrecisionAt(fmt, k) == (precision, l) && QualifierAt(fmt, l) == (qualifier, m)
    ensures DirectiveAt(fmt, i) == (Conversion(f, width, precision, qualifier, At(fmt, m)), After(fmt, m))
  {
  }

  lemma AfterShift(a: Text, b: Text, m: nat)
    requires m <= |b|
    ensures At(a + b, |a| + m) == At(b, m) && After(a + b, |a| + m) == |a| + After(b, m)
  {
    if m < |b| {
      AlnumRunShift(a, b, m + 1);
    }
  }

  lemma {:induction false} DirectivesShift(a: Text, b: Text, i: nat)
    requires i <= |b|
    ensures Directives(a + b, |a| + i) == Directives(b, i)
    decreases |b| - i
  {
    if i < |b| {
      var next := DirectiveAt(b, i).1;
      DirectiveShift(a, b, i);
      DirectivesShift(a, b, next);
      DirectivesStep(a + b, |a| + i);
      DirectivesStep(b, i);
    }
  }

  lemma DirectivesStep(fmt: Text, i: nat)
    requires i < |fmt|
    ensures var (d, next) := DirectiveAt(fmt, i); Directives(fmt, i) == [d] + Directives(fmt, next)
  {
  }

  /** Every directive from i on ends inside the format. */
  predicate Whole(a: Text, i: nat)
    requires i <= |a|
    decreases |a| - i
  {
    i == |a| || (EndsInside(a, i) && Whole(a, DirectiveAt(a, i).1))
  }

  /** A whole format is cut into the same directives whatever comes behind it. */
  lemma {:induction false} DirectivesJoin(a: Text, b: Text, i: nat)
    requires i <= |a| && Whole(a, i)
    ensures Directives(a + b, i) == Directives(a, i) + Directives(b, 0)
    decreases |a| - i
  {
    if i == |a| {
      DirectivesShift(a, b, 0);
      assert Directives(a, i) == [];
    } else {
      var (d, next) := DirectiveAt(a, i);
      DirectiveJoin(a, b, i);
      DirectivesJoin(a, b, next);
      assert [d] + Directives(a, next) + Directives(b, 0) == [d] + (Directives(a, next) + Directives(b, 0));
    }
  }

  // ---- rendering ----

  /** The arguments the directives leave. */
  function Remaining(ds: seq<Directive>, args: seq<Arg>): seq<Arg>
  {
    if ds == [] then args else
      match Rendered(ds[0], args)
      case None => args
      case Some((_, rest)) => Remaining(ds[1..], rest)
  }

  lemma FieldValueJoin(field: Field, xs: seq<Arg>, ys: seq<Arg>)
    requires FieldValue(field, xs).Some?
    ensures FieldValue(field, xs + ys) == Some((FieldValue(field, xs).value.0, FieldValue(field, xs).value.1 + ys))
  {
    if field.Star? {
      assert (xs + ys)[1..] == xs[1..] + ys;
    }
  }

  lemma ConversionJoin(f: Flags, width: int, precision: int, qualifier: char, conv: char, xs: seq<Arg>, ys: seq<Arg>)
    requires ConversionText(f, width, precision, qualifier, conv, xs).Some?
    ensures var r := ConversionText(f, width, precision, qualifier, conv, xs).value;
      ConversionText(f, width, precision, qualifier, conv, xs + ys) == Some((r.0, r.1 + ys))
  {
    if xs != [] {
      assert (xs + ys)[1..] == xs[1..] + ys;
    }
  }

  lemma RenderedJoin(d: Directive, xs: seq<Arg>, ys: seq<Arg>)
    requires Rendered(d, xs).Some?
    ensures Rendered(d, xs + ys) == Some((Rendered(d, xs).value.0, Rendered(d, xs).value.1 + ys))
  {
    match d
    case Literal(c) =>
    case Conversion(f, width, precision, qualifier, conv) =>
      FieldValueJoin(width, xs, ys);
      var (w, xs1) := FieldValue(width, xs).value;
      FieldValueJoin(precision, xs1, ys);
      var (p, xs2) := FieldValue(precision, xs1).value;
      ConversionJoin(if width.Star? && w < 0 then f.(left := true) else f, if width.Star? && w < 0 then -w else w,
                     if precision.Star? && p < 0 then 0 else p, qualifier, conv, xs2, ys);
  }

  lemma {:induction false} RenderedAllJoin(ds: seq<Directive>, es: seq<Directive>, xs: seq<Arg>, ys: seq<Arg>)
    requires RenderedAll(ds, xs).Some? && Remaining(ds, xs) == [] && RenderedAll(es, ys).Some?
    ensures RenderedAll(ds + es, xs + ys) == Some(RenderedAll(ds, xs).value + RenderedAll(es, ys).value)
    decreases |ds|
  {
    if ds == [] {
      assert ds + es == es && xs + ys == ys;
      assert "" + RenderedAll(es, ys).value == RenderedAll(es, ys).value;
    } else {
      var (t, rest) := Rendered(ds[0], xs).value;
      RenderedJoin(ds[0], xs, ys);
      RenderedAllJoin(ds[1..], es, rest, ys);
      assert (ds + es)[0] == ds[0] && (ds + es)[1..] == ds[1..] + es;
      RenderFirst(ds, xs, t, rest, RenderedAll(ds[1..], rest).value);
      RenderFirst(ds + es, xs + ys, t, rest + ys, RenderedAll(ds[1..], rest).value + RenderedAll(es, ys).value);
      Associates(t, RenderedAll(ds[1..], rest).value, RenderedAll(es, ys).value);
    }
  }

  lemma RenderFirst(ds: seq<Directive>, args: seq<Arg>, t: Text, rest: seq<Arg>, more: Text)
    requires ds != [] && Rendered(ds[0], args) == Some((t, rest)) && RenderedAll(ds[1..], rest) == Some(more)
    ensures RenderedAll(ds, args) == Some(t + more)
  {
  }

  lemma Associates(a: Text, b: Text, c: Text)
    ensures a + b + c == a + (b + c)
  {
  }

  /** A whole format that uses up its arguments, followed by any format with its own: the texts follow each
      other. */
  lemma SprintfJoin(a: Text, b: Text, xs: seq<Arg>, ys: seq<Arg>)
    requires Whole(a, 0)
    requires RenderedAll(Directives(a, 0), xs).Some? && Remaining(Directives(a, 0), xs) == []
    requires RenderedAll(Directives(b, 0), ys).Some?
    ensures RenderedAll(Directives(a + b, 0), xs + ys)
            == Some(RenderedAll(Directives(a, 0), xs).value + RenderedAll(Directives(b, 0), ys).value)
  {
    DirectivesJoin(a, b, 0);
    RenderedAllJoin(Directives(a, 0), Directives(b, 0), xs, ys);
  }

  /** Without wholeness it fails: behind "%l" an "x" is no longer text. */
  lemma CutShort(a: Text, b: Text)
    requires a == "%l" && b == "x"
    ensures !Whole(a, 0)
    ensures RenderedAll(Directives(a, 0), []).Some? && RenderedAll(Directives(b, 0), []).Some?
    ensures RenderedAll(Directives(a + b, 0), []) == None
  {
    assert DirectiveAt("%l", 0) == (Conversion(NO_FLAGS, Absent, Absent, 'l', '\0'), 2);
    assert DirectiveAt("%lx", 0) == (Conversion(NO_FLAGS, Absent, Absent, 'l', 'x'), 3);
    assert a + b == "%lx";
    TrailingPercent(a, 0, []);
    PlainText(b, 0, []);
    FirstFails(a + b);
  }

  lemma FirstFails(fmt: Text)
    requires fmt != "" && Rendered(DirectiveAt(fmt, 0).0, []).None?
    ensures RenderedAll(Directives(fmt, 0), []) == None
  {
    assert Directives(fmt, 0)[0] == DirectiveAt(fmt, 0).0;
  }
}
