/** simple_strtoul, simple_strtol and simple_strtoull of vsprintf.c.  A C string is the sequence of
    characters before its NUL. */
module StringToNumber {
  import opened Bits
  import opened Decimal
  import opened NumberFormat

  /** s[i], the NUL included. */
  function At(s: Text, i: nat): char { if i < |s| then s[i] else '\0' }

  predicate IsDigit(c: char) { '0' <= c <= '9' }
  predicate IsXDigit(c: char) { IsDigit(c) || 'A' <= c <= 'F' || 'a' <= c <= 'f' }

  function DigitValue(c: char): nat
    requires IsXDigit(c)
  {
    if IsDigit(c) then c as nat - '0' as nat
    else (if 'a' <= c then c as nat - 0x20 else c as nat) - 'A' as nat + 10
  }

  predicate Accepted(c: char, base: nat) { IsXDigit(c) && DigitValue(c) < base }

  // ---- what is parsed ----

  /** The base actually used and the number of characters its prefix takes: "0x" before a hex digit
      forces 16, a leading 0 means 8 unless a base was given, and 0 stands for 10 otherwise. */
  function ChosenBase(s: Text, base: nat): (nat, nat)
  {
    if At(s, 0) != '0' then (if base == 0 then 10 else base, 0)
    else if At(s, 1) == 'x' && IsXDigit(At(s, 2)) then (16, 2)
    else (if base == 0 then 8 else base, 1)
  }

  /** The end of the longest run of accepted digits from position i. */
  function RunEnd(s: Text, i: nat, base: nat): (e: nat)
    requires i <= |s|
    ensures i <= e <= |s|
    ensures forall j :: i <= j < e ==> Accepted(s[j], base)
    ensures e < |s| ==> !Accepted(s[e], base)
    decreases |s| - i
  {
    if i < |s| && Accepted(s[i], base) then RunEnd(s, i + 1, base) else i
  }

  ghost predicate AllAccepted(t: Text, base: nat) { forall i :: 0 <= i < |t| ==> Accepted(t[i], base) }

  /** The number a digit text denotes. */
  function Horner(t: Text, base: nat): nat
    requires AllAccepted(t, base)
  {
    if t == [] then 0 else Horner(t[..|t| - 1], base) * base + DigitValue(t[|t| - 1])
  }

  lemma ChosenBaseFits(s: Text, base: nat)
    requires '\0' !in s
    ensures ChosenBase(s, base).1 <= |s| && ChosenBase(s, base).0 > 0
  {
  }

  function Parsed(s: Text, base: nat): (nat, nat)
    requires '\0' !in s
  {
    ChosenBaseFits(s, base);
    var (b, start) := ChosenBase(s, base);
    var end := RunEnd(s, start, b);
    (Horner(s[start..end], b), end)
  }

  // ---- the code: the same loop over 32-bit and 64-bit results ----

  method Accumulate(s: Text, base0: Word, modulus: nat) returns (result: nat, cp: nat)
    requires '\0' !in s && modulus > 0
    ensures result == Parsed(s, base0).0 % modulus && cp == Parsed(s, base0).1
  {
    var base := base0;
    result, cp := 0, 0;
    if At(s, cp) == '0' {
      cp := cp + 1;
      if At(s, cp) == 'x' && IsXDigit(At(s, cp + 1)) {
        base := 16;
        cp := cp + 1;
      }
      if base == 0 {
        base := 8;
      }
    }
    if base == 0 {
      base := 10;
    }
    assert (base, cp) == ChosenBase(s, base0);
    ChosenBaseFits(s, base0);
    result, cp := ReadRun(s, cp, base, modulus);
  }

  /** The digit loop. */
  method ReadRun(s: Text, start: nat, base: Word, modulus: nat) returns (result: nat, cp: nat)
    requires '\0' !in s && start <= |s| && modulus > 0
    ensures cp == RunEnd(s, start, base) && result == Horner(s[start..cp], base) % modulus
  {
    result, cp := 0, start;
    SmallDiv(0, modulus);
    while IsXDigit(At(s, cp)) && DigitValue(At(s, cp)) < base
      invariant start <= cp <= |s| && AllAccepted(s[start..cp], base)
      invariant result == Horner(s[start..cp], base) % modulus
      decreases |s| - cp
    {
      var value := DigitValue(At(s, cp));
      ExtendRun(s, start, cp, base, modulus);
      result := (result * base + value) % modulus;
      cp := cp + 1;
    }
    RunEndIs(s, start, cp, base);
  }

  lemma ExtendRun(s: Text, start: nat, cp: nat, base: nat, m: nat)
    requires start <= cp < |s| && Accepted(s[cp], base) && AllAccepted(s[start..cp], base) && m > 0
    ensures AllAccepted(s[start..cp + 1], base)
    ensures var r := Horner(s[start..cp], base) % m;
      0 <= r * base && (r * base + DigitValue(s[cp])) % m == Horner(s[start..cp + 1], base) % m
  {
    var t := s[start..cp + 1];
    assert t[..|t| - 1] == s[start..cp];
    assert AllAccepted(t, base);
    ModStep(Horner(s[start..cp], base), base, DigitValue(s[cp]), m);
  }

  lemma ModStep(h: nat, base: nat, value: nat, m: nat)
    requires m > 0
    ensures 0 <= (h % m) * base && ((h % m) * base + value) % m == (h * base + value) % m
  {
    var q, r := h / m, h % m;
    assert h == q * m + r;
    MulMonotone(0, r, base);
    var x := r * base + value;
    assert h * base + value == (q * base) * m + x;
    var q', r' := x / m, x % m;
    assert x == q' * m + r';
    assert h * base + value == (q * base + q') * m + r';
    DivModUnique(h * base + value, m, q * base + q', r');
  }

  method SimpleStrtoul(s: Text, base: Word) returns (result: Word, endp: nat)
    requires '\0' !in s
    ensures result == Parsed(s, base).0 % WORD && endp == Parsed(s, base).1
  {
    result, endp := Accumulate(s, base, WORD);
  }

  method SimpleStrtoull(s: Text, base: Word) returns (result: DWord, endp: nat)
    requires '\0' !in s
    ensures result == Parsed(s, base).0 % DWORD && endp == Parsed(s, base).1
  {
    result, endp := Accumulate(s, base, DWORD);
  }

  /** A minus sign negates the unsigned result, modulo 2^32. */
  function ParsedSigned(s: Text, base: nat): (int, nat)
    requires '\0' !in s
  {
    if At(s, 0) == '-' then
      var (n, end) := Parsed(s[1..], base);
      (Signed(Negate(n % WORD)), end + 1)
    else
      var (n, end) := Parsed(s, base);
      (Signed(n % WORD), end)
  }

  method SimpleStrtol(s: Text, base: Word) returns (result: int, endp: nat)
    requires '\0' !in s
    ensures (result, endp) == ParsedSigned(s, base)
  {
    var r: Word;
    if At(s, 0) == '-' {
      r, endp := SimpleStrtoul(s[1..], base);
      r, endp := Negate(r), endp + 1;
    } else {
      r, endp := SimpleStrtoul(s, base);
    }
    result := Signed(r);
  }

  // ---- reading back what `number` wrote ----

  lemma DigitCharAccepted(d: nat, small: bool, base: nat)
    requires d < base <= 16
    ensures Accepted(DigitChar(d, small), base) && DigitValue(DigitChar(d, small)) == d
  {
  }

  lemma {:induction false} DigitTextAccepted(n: nat, base: nat, small: bool)
    requires 2 <= base <= 16
    ensures AllAccepted(DigitText(n, base, small), base)
    ensures Horner(DigitText(n, base, small), base) == n
    decreases n
  {
    if n < base {
      DigitCharAccepted(n, small, base);
      HornerAppend([], DigitChar(n, small), base);
      assert [] + [DigitChar(n, small)] == [DigitChar(n, small)];
    } else {
      Quotient(n, base);
      DigitTextAccepted(n / base, base, small);
      AppendDigit(DigitText(n / base, base, small), n / base, n % base, n, base, small);
    }
  }

  lemma AppendDigit(t: Text, q: nat, r: nat, n: nat, base: nat, small: bool)
    requires r < base <= 16 && AllAccepted(t, base) && Horner(t, base) == q && n == base * q + r
    ensures AllAccepted(t + [DigitChar(r, small)], base) && Horner(t + [DigitChar(r, small)], base) == n
  {
    DigitCharAccepted(r, small, base);
    HornerAppend(t, DigitChar(r, small), base);
  }

  lemma HornerAppend(t: Text, c: char, base: nat)
    requires AllAccepted(t, base) && Accepted(c, base)
    ensures AllAccepted(t + [c], base) && Horner(t + [c], base) == Horner(t, base) * base + DigitValue(c)
  {
    var u := t + [c];
    assert u[..|u| - 1] == t && u[|u| - 1] == c;
  }

  lemma {:induction false} RepeatAt(c: char, n: nat, i: nat)
    requires i < n
    ensures Repeat(c, n)[i] == c
  {
    if i < n - 1 {
      RepeatAt(c, n - 1, i);
    }
  }

  lemma ZerosAccepted(k: nat, base: nat)
    requires base > 0
    ensures AllAccepted(Repeat('0', k), base)
  {
    forall i | 0 <= i < k
      ensures Repeat('0', k)[i] == '0'
    {
      RepeatAt('0', k, i);
    }
  }

  /** Leading zeros do not change the value. */
  lemma {:induction false} ZerosInFront(k: nat, t: Text, base: nat)
    requires base > 0 && AllAccepted(t, base)
    ensures AllAccepted(Repeat('0', k) + t, base)
    ensures Horner(Repeat('0', k) + t, base) == Horner(t, base)
    decreases |t|, k
  {
    ZerosAccepted(k, base);
    var u := Repeat('0', k) + t;
    if t != [] {
      ZerosInFront(k, t[..|t| - 1], base);
      assert u[..|u| - 1] == Repeat('0', k) + t[..|t| - 1];
    } else if k > 0 {
      ZerosInFront(k - 1, [], base);
      assert u[..|u| - 1] == Repeat('0', k - 1) + [];
      assert u[|u| - 1] == '0';
    } else {
      assert u == [];
    }
  }

  lemma DropZero(t: Text, base: nat)
    requires t != [] && t[0] == '0' && base > 0 && AllAccepted(t, base)
    ensures AllAccepted(t[1..], base) && Horner(t[1..], base) == Horner(t, base)
  {
    ZerosInFront(1, t[1..], base);
    assert Repeat('0', 1) == Repeat('0', 0) + ['0'] == "0";
    assert t == Repeat('0', 1) + t[1..];
  }

  lemma {:induction false} RunEndIs(s: Text, i: nat, e: nat, base: nat)
    requires i <= e <= |s|
    requires forall j :: i <= j < e ==> Accepted(s[j], base)
    requires e < |s| ==> !Accepted(s[e], base)
    ensures RunEnd(s, i, base) == e
    decreases e - i
  {
    if i < e {
      RunEndIs(s, i + 1, e, base);
    }
  }

  /** The digits of a number followed by something else are read back as that number, up to that
      something; one leading zero may already have been taken as a base marker. */
  lemma ReadDigits(before: Text, digits: Text, after: Text, base: nat, start: nat)
    requires base > 0 && AllAccepted(digits, base)
    requires after == [] || !Accepted(after[0], base)
    requires start == |before| || (start == |before| + 1 && digits != [] && digits[0] == '0')
    ensures var s := before + digits + after;
      && RunEnd(s, start, base) == |before| + |digits|
      && Horner(s[start..|before| + |digits|], base) == Horner(digits, base)
  {
    var s, e := before + digits + after, |before| + |digits|;
    forall j | start <= j < e
      ensures Accepted(s[j], base)
    {
      assert s[j] == digits[j - |before|];
    }
    assert e < |s| ==> s[e] == after[0];
    RunEndIs(s, start, e, base);
    if start == |before| {
      assert s[start..e] == digits;
    } else {
      DropZero(digits, base);
      assert s[start..e] == digits[1..];
    }
  }

  /** Which base arguments read a printed prefix back in the printed base. */
  predicate BaseArgument(b: nat, base: nat, prefix: Text, digits: Text)
  {
    || (prefix == "" && b == base)
    || (prefix == "" && b == 0 && base == 10 && (digits == "0" || (digits != [] && digits[0] != '0')))
    || (prefix == "0" && base == 8 && (b == 8 || b == 0))
    || (prefix == "0x" && base == 16)
  }

  /** Only a lone "0" can be mistaken for the start of "0x". */
  predicate LoneZeroTrap(prefix: Text, digits: Text, after: Text)
  {
    prefix == "" && digits == "0" && At(after, 0) == 'x' && IsXDigit(At(after, 1))
  }

  /** After a prefix the base is settled and the digits are read from there. */
  lemma ParsePrefixed(prefix: Text, digits: Text, after: Text, base: nat, b: nat)
    requires BaseArgument(b, base, prefix, digits) && prefix != ""
    requires digits != [] && AllAccepted(digits, base)
    requires after == [] || !Accepted(after[0], base)
    requires '\0' !in prefix + digits + after
    ensures Parsed(prefix + digits + after, b) == (Horner(digits, base), |prefix| + |digits|)
  {
    var s := prefix + digits + after;
    assert Accepted(digits[0], base);
    assert At(s, 0) == '0' && At(s, |prefix|) == digits[0];
    assert prefix == "0x" ==> At(s, 1) == 'x';
    assert ChosenBase(s, b) == (base, |prefix|);
    ReadDigits(prefix, digits, after, base, |prefix|);
  }

  /** Without one, a leading zero digit is taken as a marker but changes nothing. */
  lemma ParseBare(digits: Text, after: Text, base: nat, b: nat)
    requires (base == 8 || base == 10 || base == 16) && BaseArgument(b, base, "", digits)
    requires digits != [] && AllAccepted(digits, base)
    requires after == [] || !Accepted(after[0], base)
    requires !LoneZeroTrap("", digits, after)
    requires '\0' !in digits + after
    ensures Parsed(digits + after, b) == (Horner(digits, base), |digits|)
  {
    assert "" + digits + after == digits + after;
    BareMarker(digits, after, base, b);
    if digits[0] != '0' {
      ReadDigits("", digits, after, base, 0);
    } else if b == base {
      ReadDigits("", digits, after, base, 1);
    } else {
      LoneZero(digits, base);
      ReadDigits("", digits, after, 8, 1);
    }
  }

  lemma BareMarker(digits: Text, after: Text, base: nat, b: nat)
    requires digits != [] && AllAccepted(digits, base) && !LoneZeroTrap("", digits, after)
    ensures ChosenBase(digits + after, b) ==
              if digits[0] != '0' then (if b == 0 then 10 else b, 0) else (if b == 0 then 8 else b, 1)
  {
    var s := digits + after;
    assert At(s, 0) == digits[0];
    if |digits| > 1 {
      assert Accepted(digits[1], base) && At(s, 1) == digits[1];
    } else if digits[0] == '0' {
      assert digits == "0" && At(s, 1) == At(after, 0) && At(s, 2) == At(after, 1);
    }
  }

  /** Printed text reads back as its digits, under every base argument that fits the prefix. */
  lemma ParsePrinted(prefix: Text, digits: Text, after: Text, base: nat, b: nat)
    requires (base == 8 || base == 10 || base == 16) && BaseArgument(b, base, prefix, digits)
    requires digits != [] && AllAccepted(digits, base)
    requires after == [] || !Accepted(after[0], base)
    requires '\0' !in prefix + digits + after
    ensures !LoneZeroTrap(prefix, digits, after) ==>
      Parsed(prefix + digits + after, b) == (Horner(digits, base), |prefix| + |digits|)
    ensures LoneZeroTrap(prefix, digits, after) ==>
      Parsed(prefix + digits + after, b).1 > |prefix| + |digits|
  {
    if LoneZeroTrap(prefix, digits, after) {
      var s := prefix + digits + after;
      assert At(s, 0) == '0' && At(s, 1) == At(after, 0) && At(s, 2) == At(after, 1);
    } else if prefix == "" {
      assert prefix + digits == digits;
      ParseBare(digits, after, base, b);
    } else {
      ParsePrefixed(prefix, digits, after, base, b);
    }
  }

  lemma LoneZero(digits: Text, base: nat)
    requires digits == "0" && base > 0
    ensures AllAccepted(digits, 8) && AllAccepted(digits, base)
    ensures Horner(digits, 8) == 0 == Horner(digits, base)
  {
    assert digits[..0] == [];
  }
}
