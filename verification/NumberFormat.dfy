/** `number` and `string` of vsprintf.c: laying out one converted argument in a field. */
module NumberFormat {
  import opened Bits
  import opened Decimal

  datatype Flags = Flags(zeropad: bool, sign: bool, plus: bool, space: bool, left: bool, small: bool,
                         special: bool)

  type Text = seq<char>

  // ---- digits, most significant first ----

  function DigitChar(d: nat, small: bool): char
    requires d < 16
  {
    if d < 10 then DecChar(d) else (if small then 'a' else 'A') + (d - 10) as char
  }

  function DigitText(n: nat, base: nat, small: bool): (t: Text)
    requires 2 <= base <= 16
    ensures |t| >= 1
    decreases n
  {
    if n < base then [DigitChar(n, small)]
    else
      Quotient(n, base);
      DigitText(n / base, base, small) + [DigitChar(n % base, small)]
  }

  function Pow(b: nat, k: nat): (p: nat)
    requires b >= 1
    ensures p >= 1
  {
    if k == 0 then 1 else MulMonotone(1, b, Pow(b, k - 1)); b * Pow(b, k - 1)
  }

  lemma {:induction false} DigitCount(n: nat, base: nat, small: bool, k: nat)
    requires 2 <= base <= 16 && n < Pow(base, k + 1)
    ensures |DigitText(n, base, small)| <= k + 1
    decreases k
  {
    assert Pow(base, 1) == base * Pow(base, 0) == base;
    if k > 0 && n >= base {
      Quotient(n, base);
      if n / base >= Pow(base, k) {
        MulMonotone(Pow(base, k), n / base, base);
      }
      DigitCount(n / base, base, small, k - 1);
    }
  }

  /** Twenty-two digits hold any 64-bit number in base 8, 10 or 16. */
  lemma DWordDigitCount(n: DWord, base: nat, small: bool)
    requires base == 8 || base == 10 || base == 16
    ensures |DigitText(n, base, small)| <= 22
  {
    PowMonotone(8, base, 22);
    assert Pow(8, 4) == 4096;
    assert Pow(8, 8) == 16777216;
    assert Pow(8, 12) == 68719476736;
    assert Pow(8, 16) == 281474976710656;
    assert Pow(8, 20) == 1152921504606846976;
    assert Pow(8, 22) == 73786976294838206464;
    DigitCount(n, base, small, 21);
  }

  lemma {:induction false} PowMonotone(a: nat, b: nat, k: nat)
    requires 1 <= a <= b
    ensures Pow(a, k) <= Pow(b, k)
  {
    if k > 0 {
      PowMonotone(a, b, k - 1);
      MulMonotone(a, b, Pow(a, k - 1));
      MulMonotone(Pow(a, k - 1), Pow(b, k - 1), b);
    }
  }

  function Backwards(t: Text): (r: Text)
    ensures |r| == |t|
  {
    if t == [] then [] else Backwards(t[1..]) + [t[0]]
  }

  lemma {:induction false} BackwardsAppend(a: Text, c: char)
    ensures Backwards(a + [c]) == [c] + Backwards(a)
  {
    if a == [] {
      assert a + [c] == [c];
      assert Backwards([c]) == Backwards([]) + [c];
    } else {
      assert (a + [c])[1..] == a[1..] + [c];
      BackwardsAppend(a[1..], c);
      assert [c] + Backwards(a[1..]) + [a[0]] == [c] + (Backwards(a[1..]) + [a[0]]);
    }
  }

  lemma {:induction false} BackwardsAt(t: Text, i: nat)
    requires i < |t|
    ensures Backwards(t)[i] == t[|t| - 1 - i]
  {
    if i < |t| - 1 {
      BackwardsAt(t[1..], i);
    }
  }

  /** put_dec's output is the decimal text backwards. */
  lemma {:induction false} DecimalBackwards(n: nat, small: bool)
    ensures DecReversed(n) == Backwards(DigitText(n, 10, small))
    decreases n
  {
    DecReversedStep(n);
    if n >= 10 {
      Quotient(n, 10);
      DecimalBackwards(n / 10, small);
      BackwardsAppend(DigitText(n / 10, 10, small), DigitChar(n % 10, small));
    } else {
      assert Backwards([DigitChar(n, small)]) == Backwards([]) + [DigitChar(n, small)];
    }
  }

  /** digits[x] | locase: setting bit 5 leaves digits alone and turns capitals small. */
  function OrCase(c: char, small: bool): char
    requires c as int < 0x80
  {
    if small then Or(c as nat, 0x20) as char else c
  }

  lemma LowerCase(d: nat, small: bool)
    requires d < 16
    ensures OrCase("0123456789ABCDEF"[d], small) == DigitChar(d, small)
  {
    var c := "0123456789ABCDEF"[d];
    OrSpace(c as nat);
    assert c as int == if d < 10 then 0x30 + d else 0x41 + (d - 10);
  }

  lemma OrSpace(x: nat)
    ensures Or(x, 0x20) == if x / 32 % 2 == 1 then x else x + 32
  {
    Pow2Byte();
    OrOneBit(x, 5);
    BitFive(x);
  }

  lemma BitFive(x: nat)
    ensures Bit(x, 5) <==> x / 32 % 2 == 1
  {
    assert Bit(x, 5) == Bit(x / 2, 4) == Bit(x / 2 / 2, 3) == Bit(x / 2 / 2 / 2, 2);
    assert Bit(x / 2 / 2 / 2, 2) == Bit(x / 2 / 2 / 2 / 2, 1) == Bit(x / 2 / 2 / 2 / 2 / 2, 0);
  }

  // ---- the layout of a number ----

  function Negative(num: DWord, f: Flags): bool { f.sign && num >= 0x8000_0000_0000_0000 }

  function SignText(num: DWord, f: Flags): Text
  {
    if !f.sign then "" else if Negative(num, f) then "-" else if f.plus then "+" else if f.space then " " else ""
  }

  function MagnitudeOf(num: DWord, f: Flags): DWord { if Negative(num, f) then DWORD - num else num }

  function PrefixText(base: nat, f: Flags): Text
  {
    if !f.special || base == 10 then "" else if base != 16 then "0" else if f.small then "0x" else "0X"
  }

  function Repeat(c: char, n: int): (t: Text)
    ensures |t| == if n > 0 then n else 0
  {
    if n <= 0 then [] else Repeat(c, n - 1) + [c]
  }

  function Max(a: int, b: int): int { if a > b then a else b }

  // The field's slack goes to exactly one place: behind when left-justified, else as zeros when
  // zero-padded, else in front.

  function Lead(slack: int, f: Flags): Text { Repeat(' ', if f.left || f.zeropad then 0 else slack) }
  function Fill(slack: int, f: Flags): Text { Repeat('0', if f.left || !f.zeropad then 0 else slack) }
  function Trail(slack: int, f: Flags): Text { Repeat(' ', if f.left then slack else 0) }

  function Head(sign: Text, prefix: Text, slack: int, f: Flags): Text
  {
    Lead(slack, f) + sign + prefix + Fill(slack, f)
  }

  function Tail(zeros: int, digits: Text, slack: int, f: Flags): Text
  {
    Repeat('0', zeros) + digits + Trail(slack, f)
  }

  /** Spaces, sign, prefix, zeros, digits, spaces. */
  function Laid(sign: Text, prefix: Text, slack: int, zeros: int, digits: Text, f: Flags): Text
  {
    Head(sign, prefix, slack, f) + Tail(zeros, digits, slack, f)
  }

  /** The text of one number. */
  function NumberText(num: DWord, base: nat, size: int, precision: int, f: Flags): Text
    requires base == 8 || base == 10 || base == 16
  {
    var digits := DigitText(MagnitudeOf(num, f), base, f.small);
    var body := Max(|digits|, precision);
    Laid(SignText(num, f), PrefixText(base, f), size - |SignText(num, f)| - |PrefixText(base, f)| - body,
         body - |digits|, digits, f)
  }

  /** Of the three kinds of padding one at most is there, and it takes all the slack. */
  lemma OnePadding(slack: int, f: Flags)
    ensures var l, z, t := |Lead(slack, f)|, |Fill(slack, f)|, |Trail(slack, f)|;
      && l + z + t == Max(slack, 0)
      && (l == 0 || (z == 0 && t == 0)) && (z == 0 || t == 0)
  {
  }

  /** The field is as wide as asked, or as wide as its contents need. */
  lemma NumberTextLength(num: DWord, base: nat, size: int, precision: int, f: Flags)
    requires base == 8 || base == 10 || base == 16
    ensures |NumberText(num, base, size, precision, f)| ==
              Max(size, |SignText(num, f)| + |PrefixText(base, f)|
                        + Max(|DigitText(MagnitudeOf(num, f), base, f.small)|, precision))
  {
  }

  // ---- the code ----

  /** while (--size >= 0) *buf++ = c; */
  method Pad(buf: array<char>, at: nat, c: char, size: int) returns (end: nat, size': int)
    requires at + Max(size, 0) <= buf.Length
    modifies buf
    ensures size' == (if size >= 0 then -1 else size - 1) && end == at + Max(size, 0)
    ensures buf[..end] == old(buf[..at]) + Repeat(c, size)
    ensures forall k :: end <= k < buf.Length ==> buf[k] == old(buf[k])
  {
    end, size' := at, size - 1;
    ghost var before := buf[..at];
    ghost var n := 0;
    while size' >= 0
      invariant size' == size - 1 - n && end == at + n && 0 <= n <= Max(size, 0)
      invariant buf[..end] == before + Repeat(c, n)
      invariant forall k :: end <= k < buf.Length ==> buf[k] == old(buf[k])
      decreases size'
    {
      Regroup(before, Repeat(c, n), [c]);
      end := Put(buf, end, c);
      size', n := size' - 1, n + 1;
    }
    assert n > 0 ==> n == size;
  }

  /** The shift-and-mask digits of bases 8 and 16, least significant first. */
  method PutPower(tmp: array<char>, num0: DWord, base: nat, small: bool) returns (i: nat)
    requires (base == 8 || base == 16) && num0 > 0 && tmp.Length >= 22
    modifies tmp
    ensures i == |DigitText(num0, base, small)| <= 22
    ensures tmp[..i] == Backwards(DigitText(num0, base, small))
  {
    DWordDigitCount(num0, base, small);
    var num: DWord := num0;
    i := 0;
    while true
      invariant |DigitText(num, base, small)| + i == |DigitText(num0, base, small)|
      invariant tmp[..i] + Backwards(DigitText(num, base, small)) == Backwards(DigitText(num0, base, small))
      decreases num
    {
      var c, num' := PowerDigit(num, base, small);
      Regroup(tmp[..i], [c], Backwards(DigitText(num', base, small)));
      i := Put(tmp, i, c);
      if num' == 0 {
        return;
      }
      num := num';
    }
  }

  /** One digit: digits[((unsigned char) num) & mask] | locase, and num >>= shift. */
  method PowerDigit(num: DWord, base: nat, small: bool) returns (c: char, num': DWord)
    requires base == 8 || base == 16
    ensures num' == 0 ==> Backwards(DigitText(num, base, small)) == [c]
    ensures num' != 0 ==>
      && num' < num
      && |DigitText(num, base, small)| == |DigitText(num', base, small)| + 1
      && Backwards(DigitText(num, base, small)) == [c] + Backwards(DigitText(num', base, small))
  {
    var mask, shift := base - 1, if base == 16 then 4 else 3;
    MaskDigit(num, base);
    var d := And(num % 0x100, mask);
    LowerCase(d, small);
    DigitStep(num, base, small);
    c, num' := OrCase("0123456789ABCDEF"[d], small), num / Pow2(shift);
  }

  lemma MaskDigit(num: DWord, base: nat)
    requires base == 8 || base == 16
    ensures And(num % 0x100, base - 1) == num % base < 16
    ensures Pow2(if base == 16 then 4 else 3) == base
  {
    Pow2Small();
    var q, r := num / 0x100, num % 0x100;
    AndLowMask(r, if base == 16 then 4 else 3);
    DivModUnique(num, base, 0x100 / base * q + r / base, r % base);
  }

  lemma DigitStep(num: nat, base: nat, small: bool)
    requires 2 <= base <= 16
    ensures 0 <= num % base < 16 && 0 <= num / base
    ensures num / base == 0 ==> Backwards(DigitText(num, base, small)) == [DigitChar(num % base, small)]
    ensures num / base != 0 ==>
      && num / base < num
      && |DigitText(num, base, small)| == |DigitText(num / base, base, small)| + 1
      && Backwards(DigitText(num, base, small))
         == [DigitChar(num % base, small)] + Backwards(DigitText(num / base, base, small))
  {
    if num < base {
      SmallDiv(num, base);
      assert Backwards([DigitChar(num, small)]) == Backwards([]) + [DigitChar(num, small)];
    } else {
      Quotient(num, base);
      BackwardsAppend(DigitText(num / base, base, small), DigitChar(num % base, small));
    }
  }

  /** The digits in tmp[], in reverse order; `i` is their number. */
  method Generate(tmp: array<char>, num: DWord, base: nat, small: bool) returns (i: nat)
    requires (base == 8 || base == 10 || base == 16) && tmp.Length >= 66
    modifies tmp
    ensures i == |DigitText(num, base, small)| <= 22
    ensures tmp[..i] == Backwards(DigitText(num, base, small))
  {
    DWordDigitCount(num, base, small);
    DecimalBackwards(num, small);
    if num == 0 {
      tmp[0] := '0';
      assert Backwards("0") == Backwards("") + "0";
      return 1;
    }
    if base != 10 {
      i := PutPower(tmp, num, base, small);
    } else {
      i := PutDec(tmp, 0, num);
    }
  }

  /** while (--i >= 0) *buf++ = tmp[i]; */
  method PutBackwards(buf: array<char>, at: nat, tmp: array<char>, n: nat, ghost text: Text) returns (end: nat)
    requires buf != tmp && n <= tmp.Length && tmp[..n] == Backwards(text) && at + n <= buf.Length
    modifies buf
    ensures end == at + n
    ensures buf[..end] == old(buf[..at]) + text
    ensures forall k :: end <= k < buf.Length ==> buf[k] == old(buf[k])
  {
    end := at;
    var i := n;
    ghost var before := buf[..at];
    while i > 0
      invariant 0 <= i <= n && end == at + n - i
      invariant buf[..end] == before + text[..n - i]
      invariant tmp[..n] == Backwards(text)
      invariant forall k :: end <= k < buf.Length ==> buf[k] == old(buf[k])
    {
      i := i - 1;
      BackwardsAt(text, i);
      assert tmp[i] == tmp[..n][i] == text[n - 1 - i];
      Regroup(before, text[..n - 1 - i], [tmp[i]]);
      assert text[..n - i] == text[..n - 1 - i] + [tmp[i]];
      end := Put(buf, end, tmp[i]);
    }
    assert text[..n] == text;
  }

  /** number */
  method Number(buf: array<char>, at: nat, num0: DWord, base: nat, size0: int, precision0: int, f: Flags)
    returns (end: nat)
    requires base == 8 || base == 10 || base == 16
    requires at + |NumberText(num0, base, size0, precision0, f)| <= buf.Length
    modifies buf
    ensures end == at + |NumberText(num0, base, size0, precision0, f)|
    ensures buf[..end] == old(buf[..at]) + NumberText(num0, base, size0, precision0, f)
    ensures forall k :: end <= k < buf.Length ==> buf[k] == old(buf[k])
  {
    var precision := precision0;
    var sign, num, size := TakeSign(num0, size0, f);
    size := TakePrefix(size, base, f);
    var tmp := new char[66];
    var i := Generate(tmp, num, base, f.small);
    if i > precision {
      precision := i;
    }
    size := size - precision;
    ghost var digits := DigitText(num, base, f.small);
    ghost var text := NumberText(num0, base, size0, precision0, f);
    assert text == Laid(sign, PrefixText(base, f), size, precision - i, digits, f) by {
      NumberTextIs(num0, base, size0, precision0, f, size, precision);
    }
    end := Layout(buf, at, tmp, i, sign, f.special && base != 10, base, size, precision, f, digits);
  }

  lemma NumberTextIs(num0: DWord, base: nat, size0: int, precision0: int, f: Flags, size: int, precision: int)
    requires base == 8 || base == 10 || base == 16
    requires precision == Max(|DigitText(MagnitudeOf(num0, f), base, f.small)|, precision0)
    requires size == size0 - |SignText(num0, f)| - |PrefixText(base, f)| - precision
    ensures var digits := DigitText(MagnitudeOf(num0, f), base, f.small);
      NumberText(num0, base, size0, precision0, f)
      == Laid(SignText(num0, f), PrefixText(base, f), size, precision - |digits|, digits, f)
  {
  }

  /** The prefix takes one column, or two in base 16. */
  method TakePrefix(size0: int, base: nat, f: Flags) returns (size: int)
    ensures size == size0 - |PrefixText(base, f)|
  {
    size := size0;
    if f.special && base != 10 {
      size := size - 1;
      if base == 16 {
        size := size - 1;
      }
    }
  }

  /** Split the sign off; each sign character takes one column. */
  method TakeSign(num0: DWord, size0: int, f: Flags) returns (sign: Text, num: DWord, size: int)
    ensures sign == SignText(num0, f) && num == MagnitudeOf(num0, f) && size == size0 - |sign|
  {
    sign, num, size := "", num0, size0;
    if f.sign {
      if num >= 0x8000_0000_0000_0000 {
        sign, num, size := "-", DWORD - num, size - 1;
      } else if f.plus {
        sign, size := "+", size - 1;
      } else if f.space {
        sign, size := " ", size - 1;
      }
    }
  }

  /** The second half of `number`: write the pieces out. */
  method Layout(buf: array<char>, at: nat, tmp: array<char>, i: nat, sign: Text, needPrefix: bool, base: nat,
                size0: int, precision: int, f: Flags, ghost digits: Text)
    returns (end: nat)
    requires buf != tmp && i <= tmp.Length && tmp[..i] == Backwards(digits) && i <= precision
    requires |sign| <= 1 && needPrefix == (f.special && base != 10) && (base == 8 || base == 10 || base == 16)
    requires at + |Laid(sign, PrefixText(base, f), size0, precision - i, digits, f)| <= buf.Length
    modifies buf
    ensures end == at + |Laid(sign, PrefixText(base, f), size0, precision - i, digits, f)|
    ensures buf[..end] == old(buf[..at]) + Laid(sign, PrefixText(base, f), size0, precision - i, digits, f)
    ensures forall k :: end <= k < buf.Length ==> buf[k] == old(buf[k])
  {
    var size;
    Regroup(buf[..at], Head(sign, PrefixText(base, f), size0, f), Tail(precision - i, digits, size0, f));
    end, size := LayHead(buf, at, sign, needPrefix, base, size0, f);
    // while (i <= --precision) *buf++ = '0';
    var spare;
    Regroup(buf[..end], Repeat('0', precision - i), digits);
    Regroup(buf[..end], Repeat('0', precision - i) + digits, Trail(size0, f));
    end, spare := Pad(buf, end, '0', precision - i);
    end := PutBackwards(buf, end, tmp, i, digits);
    end, size := Pad(buf, end, ' ', size);
  }

  /** Everything in front of the digits; `size` is what is left of the slack for the end. */
  method LayHead(buf: array<char>, at: nat, sign: Text, needPrefix: bool, base: nat, size0: int, f: Flags)
    returns (end: nat, size: int)
    requires |sign| <= 1 && needPrefix == (f.special && base != 10)
    requires at + |Head(sign, PrefixText(base, f), size0, f)| <= buf.Length
    modifies buf
    ensures end == at + |Head(sign, PrefixText(base, f), size0, f)|
    ensures buf[..end] == old(buf[..at]) + Head(sign, PrefixText(base, f), size0, f)
    ensures forall k :: end <= k < buf.Length ==> buf[k] == old(buf[k])
    ensures Repeat(' ', size) == Trail(size0, f)
  {
    var zeropad := f.zeropad && !f.left;
    ghost var before, marks := buf[..at], sign + PrefixText(base, f);
    HeadParts(before, sign, PrefixText(base, f), size0, f);
    end, size := PadIf(buf, at, !zeropad && !f.left, ' ', size0);
    end := PutMarks(buf, end, sign, needPrefix, base, f);
    end, size := PadIf(buf, end, !f.left, if zeropad then '0' else ' ', size);
  }

  lemma HeadParts(before: Text, sign: Text, prefix: Text, slack: int, f: Flags)
    ensures before + Head(sign, prefix, slack, f)
         == before + Lead(slack, f) + (sign + prefix) + Fill(slack, f)
  {
    Regroup(before, Lead(slack, f), sign);
    Regroup(before, Lead(slack, f) + sign, prefix);
    Regroup(before, Lead(slack, f) + sign + prefix, Fill(slack, f));
    Regroup(before + Lead(slack, f), sign, prefix);
  }

  /** One of the guarded padding loops. */
  method PadIf(buf: array<char>, at: nat, wanted: bool, c: char, size: int) returns (end: nat, size': int)
    requires at + (if wanted then Max(size, 0) else 0) <= buf.Length
    modifies buf
    ensures size' == (if !wanted then size else if size >= 0 then -1 else size - 1)
    ensures end == at + (if wanted then Max(size, 0) else 0)
    ensures buf[..end] == old(buf[..at]) + Repeat(c, if wanted then size else 0)
    ensures forall k :: end <= k < buf.Length ==> buf[k] == old(buf[k])
  {
    end, size' := at, size;
    if wanted {
      end, size' := Pad(buf, at, c, size);
    }
  }

  /** Sign and prefix. */
  method PutMarks(buf: array<char>, at: nat, sign: Text, needPrefix: bool, base: nat, f: Flags) returns (end: nat)
    requires |sign| <= 1 && needPrefix == (f.special && base != 10)
    requires at + |sign + PrefixText(base, f)| <= buf.Length
    modifies buf
    ensures end == at + |sign + PrefixText(base, f)|
    ensures buf[..end] == old(buf[..at]) + (sign + PrefixText(base, f))
    ensures forall k :: end <= k < buf.Length ==> buf[k] == old(buf[k])
  {
    Regroup(buf[..at], sign, PrefixText(base, f));
    end := PutSign(buf, at, sign);
    end := PutPrefix(buf, end, needPrefix, base, f);
  }

  method PutSign(buf: array<char>, at: nat, sign: Text) returns (end: nat)
    requires |sign| <= 1 && at + |sign| <= buf.Length
    modifies buf
    ensures end == at + |sign|
    ensures buf[..end] == old(buf[..at]) + sign
    ensures forall k :: end <= k < buf.Length ==> buf[k] == old(buf[k])
  {
    end := at;
    if sign != "" {
      end := Put(buf, at, sign[0]);
    }
  }

  method PutPrefix(buf: array<char>, at: nat, needPrefix: bool, base: nat, f: Flags) returns (end: nat)
    requires needPrefix == (f.special && base != 10) && at + |PrefixText(base, f)| <= buf.Length
    modifies buf
    ensures end == at + |PrefixText(base, f)|
    ensures buf[..end] == old(buf[..at]) + PrefixText(base, f)
    ensures forall k :: end <= k < buf.Length ==> buf[k] == old(buf[k])
  {
    end := at;
    if needPrefix {
      end := Put(buf, end, '0');
      if base == 16 {
        LowerX(f.small);
        end := Put(buf, end, OrCase('X', f.small));
      }
    }
  }

  lemma LowerX(small: bool)
    ensures OrCase('X', small) == if small then 'x' else 'X'
  {
    OrSpace(0x58);
  }
}
