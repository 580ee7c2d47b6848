/** 64-by-32-bit division: __div64_32 of arm/div64.c, and the do_div / lldiv wrappers of div64.h that
    take the 32-bit divider whenever the dividend fits in one register. */
module Div64 {
  import opened Bits
  import opened UnsignedDivide

  /** x doubled e times. */
  function Doubling(x: nat, e: nat): nat { if e == 0 then x else 2 * Doubling(x, e - 1) }

  lemma {:induction false} DoublingProduct(x: nat, e: nat)
    ensures Doubling(x, e) == x * Doubling(1, e) && Doubling(1, e) >= 1
  {
    if e > 0 {
      DoublingProduct(x, e - 1);
      assert 2 * (x * Doubling(1, e - 1)) == x * (2 * Doubling(1, e - 1));
    }
  }

  /** b and d are the base and the unit doubled together. */
  ghost predicate Doubled(base: int, b: DWord, d: DWord, e: nat)
  {
    base > 0 && d == Doubling(1, e) && b == Doubling(base, e)
  }

  lemma DoubledRange(base: int, b: DWord, d: DWord, e: nat)
    requires Doubled(base, b, d, e)
    ensures 0 < d <= b && b == base * d
  {
    DoublingProduct(base, e);
    MulMonotone(1, base, d);
  }

  lemma DoubledHalf(base: int, b: DWord, d: DWord, e: nat)
    requires Doubled(base, b, d, e)
    ensures e > 0 ==> Doubled(base, b / 2, d / 2, e - 1) && 2 * (b / 2) == b && d / 2 > 0
    ensures e == 0 ==> b == base && d / 2 == 0
  {
    DoublingProduct(base, e);
    if e > 0 {
      DoublingProduct(1, e - 1);
    }
  }

  /** The first reduction: the quotient's high word, by the 32-bit divider. */
  method HighWord(n: DWord, base: Word) returns (res: DWord, rem: DWord)
    requires base > 0
    ensures n == res * base + rem && rem < base * WORD
  {
    var high := n / WORD;
    HighParts(n, base, high);
    res, rem := 0, n;
    if high >= base {
      high := UDivSi3(high, base);
      res := high * WORD;
      rem := n - Wrap(high * base) * WORD; // high * base is a 32-bit multiply
    }
  }

  lemma HighParts(n: DWord, base: Word, high: int)
    requires base > 0 && high == n / WORD
    ensures high < base ==> n < base * WORD
    ensures var q := high / base;
      && 0 <= q && 0 <= q * base < WORD && q * WORD < DWORD
      && 0 <= n - q * base * WORD < base * WORD && n == (q * WORD) * base + (n - q * base * WORD)
  {
    var q, left := high / base, high % base;
    assert high == q * base + left;
    if q <= -1 {
      MulMonotone(q, -1, base);
    }
    MulMonotone(0, q, base);
    MulMonotone(1, base, q);
    assert (q * WORD) * base == q * base * WORD;
  }

  /** The doubling loop: neither b nor d can overflow, because b stays a signed positive number. */
  method Double(base: Word, rem: DWord) returns (b: DWord, d: DWord, ghost e: nat)
    requires base > 0
    ensures Doubled(base, b, d, e) && rem < 2 * b
  {
    b, d, e := base, 1, 0;
    // (int64_t) b > 0 asks for a clear sign bit
    while 0 < b < 0x8000_0000_0000_0000 && b < rem
      invariant Doubled(base, b, d, e)
      decreases DWORD - b
    {
      DoubledRange(base, b, d, e);
      b, d, e := b + b, d + d, e + 1;
    }
    DoubledRange(base, b, d, e);
  }

  lemma SubtractOnce(n: DWord, base: Word, res: DWord, rem: DWord, b: DWord, d: DWord, e: nat)
    requires Doubled(base, b, d, e) && n == res * base + rem && rem >= b
    ensures n == (res + d) * base + (rem - b) && res + d < DWORD
  {
    DoubledRange(base, b, d, e);
    assert (res + d) * base == res * base + base * d;
    MulMonotone(1, base, res + d);
  }

  /** The do-while loop: one trial subtraction for each doubling. */
  method HalveBack(n: DWord, base: Word, res0: DWord, rem0: DWord, b0: DWord, d0: DWord, ghost e0: nat)
    returns (res: DWord, rem: DWord)
    requires Doubled(base, b0, d0, e0) && n == res0 * base + rem0 && rem0 - b0 < b0
    ensures n == res * base + rem && rem < base
  {
    res, rem := res0, rem0;
    var b, d := b0, d0;
    ghost var e := e0;
    while true
      invariant Doubled(base, b, d, e)
      invariant n == res * base + rem && rem - b < b
      decreases d
    {
      DoubledHalf(base, b, d, e);
      if rem >= b {
        SubtractOnce(n, base, res, rem, b, d, e);
        rem, res := rem - b, res + d;
      }
      if d / 2 == 0 {
        break;
      }
      b, d, e := b / 2, d / 2, e - 1;
    }
  }

  /** __div64_32 */
  method Div64By32(n: DWord, base: Word) returns (quotient: DWord, remainder: Word)
    requires base > 0
    ensures n == quotient * base + remainder && remainder < base
  {
    var res, rem := HighWord(n, base);
    var b, d, e := Double(base, rem);
    quotient, rem := HalveBack(n, base, res, rem, b, d, e);
    remainder := rem;
  }

  /** do_div: the quotient replaces the dividend, the remainder is the value of the expression. */
  method DoDiv(n: DWord, base: Word) returns (n': DWord, rem: Word)
    requires base > 0
    ensures n == n' * base + rem && rem < base
  {
    if n / WORD == 0 {
      n', rem := AeabiUidivmod(n, base);
    } else {
      n', rem := Div64By32(n, base);
    }
  }

  /** lldiv */
  method LlDiv(dividend: DWord, divisor: Word) returns (res: DWord)
    requires divisor > 0
    ensures res == dividend / divisor
  {
    var rem;
    res, rem := DoDiv(dividend, divisor);
    DivModUnique(dividend, divisor, res, rem);
  }
}
