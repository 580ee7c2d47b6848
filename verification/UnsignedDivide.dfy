/** The unsigned shift-and-subtract divider of arm/_udivsi3.S, on 32-bit registers. */
module UnsignedDivide {
  import opened Bits

  /** Every quotient bit at position `e` or above has been decided: what is left of the dividend is
      below d * 2^e and the result is a multiple of 2^e.  Below position zero there is nothing left
      to decide, and only the result matters. */
  ghost predicate Settled(n: int, d: int, dividend: int, result: int, e: int)
    requires d > 0
  {
    if e >= 0 then
      && 0 <= dividend < d * Pow2(e)
      && result >= 0 && result % Pow2(e) == 0
      && n == result * d + dividend
    else
      result == n / d
  }

  /** The registers hold the divisor and the quotient bit moved to position `e`. */
  ghost predicate Aligned(d: int, divisor: Word, curbit: Word, e: nat)
  {
    d > 0 && curbit == Pow2(e) && divisor == d * Pow2(e)
  }

  /** Shifting right exactly undoes the alignment, or empties the quotient bit. */
  lemma AlignedShift(d: int, divisor: Word, curbit: Word, e: nat, k: nat)
    requires Aligned(d, divisor, curbit, e)
    ensures k <= e ==> Lsr(divisor, k) == d * Pow2(e - k) && Lsr(curbit, k) == Pow2(e - k)
    ensures k > e ==> Lsr(curbit, k) == 0
  {
    if k <= e {
      Pow2Add(e - k, k);
      MulAssociate(d, Pow2(e - k), Pow2(k));
      ExactDiv(divisor, d * Pow2(e - k), Pow2(k));
      ExactDiv(curbit, Pow2(e - k), Pow2(k));
    } else {
      Pow2Less(e, k);
      SmallDiv(curbit, Pow2(k));
    }
  }

  /** Aligned divisors below the dividend stay in range. */
  lemma AlignedRange(d: int, divisor: Word, curbit: Word, e: nat)
    requires Aligned(d, divisor, curbit, e)
    ensures curbit <= divisor && d <= divisor && e < 32
  {
    MulMonotone(1, d, Pow2(e));
    MulMonotone(1, Pow2(e), d);
    Pow2Word();
    if e > 32 {
      Pow2Less(32, e);
    }
  }

  lemma Align(d: int, divisor: Word, curbit: Word, e: nat, k: nat)
    requires Aligned(d, divisor, curbit, e)
    requires divisor * Pow2(k) < WORD
    ensures Aligned(d, Lsl(divisor, k), Lsl(curbit, k), e + k)
    ensures 0 < divisor && Lsl(divisor, k) == divisor * Pow2(k)
  {
    AlignedRange(d, divisor, curbit, e);
    MulMonotone(curbit, divisor, Pow2(k));
    MulMonotone(0, curbit, Pow2(k));
    Pow2Add(e, k);
    MulAssociate(d, Pow2(e), Pow2(k));
    LslExact(divisor, k);
    LslExact(curbit, k);
  }

  lemma LslExact(x: Word, k: nat)
    requires 0 <= x * Pow2(k) < WORD
    ensures Lsl(x, k) == x * Pow2(k)
  {
  }

  /** One compare / subtract / set-bit triple at shift `k`. */
  method Trial(dividend: Word, divisor: Word, result: Word, curbit: Word, k: nat,
               ghost n: Word, ghost d: int, ghost e: nat)
    returns (dividend': Word, result': Word)
    requires Aligned(d, divisor, curbit, e)
    requires Settled(n, d, dividend, result, e - k + 1)
    ensures Settled(n, d, dividend', result', e - k)
    ensures dividend' <= dividend
    ensures e - k >= 0 ==> dividend' < d * Pow2(e - k)
  {
    AlignedShift(d, divisor, curbit, e, k);
    TrialStep(n, d, dividend, result, e - k);
    dividend', result' := dividend, result;
    if dividend >= Lsr(divisor, k) {
      dividend' := dividend - Lsr(divisor, k);
      result' := Or(result, Lsr(curbit, k));
    }
  }

  lemma TrialStep(n: Word, d: int, dividend: Word, result: Word, e: int)
    requires d > 0 && Settled(n, d, dividend, result, e + 1)
    ensures e >= 0 && dividend >= d * Pow2(e) ==>
              Or(result, Pow2(e)) < WORD && Settled(n, d, dividend - d * Pow2(e), Or(result, Pow2(e)), e)
    ensures e >= 0 && dividend < d * Pow2(e) ==> Settled(n, d, dividend, result, e)
    ensures e < 0 ==> Settled(n, d, dividend, result, e) && Or(result, 0) == result
  {
    OrZero(result);
    if e < 0 {
      if e == -1 {
        DivModUnique(n, d, result, dividend);
      }
    } else {
      assert Pow2(e + 1) == 2 * Pow2(e);
      SetQuotientBit(n, d, dividend, result, Pow2(e));
      if dividend >= d * Pow2(e) {
        OrIsAdd(result, Pow2(e), e + 1);
      }
    }
  }

  lemma SetQuotientBit(n: Word, d: int, dividend: int, result: int, p: int)
    requires d > 0 && p > 0 && result >= 0
    requires 0 <= dividend < d * (2 * p) && result % (2 * p) == 0 && n == result * d + dividend
    ensures result % p == 0
    ensures dividend >= d * p ==>
              && 0 <= dividend - d * p < d * p && (result + p) % p == 0
              && n == (result + p) * d + (dividend - d * p) && result + p < WORD
  {
    var q := result / (2 * p);
    assert result == q * (2 * p) == (2 * q) * p;
    ExactDiv(result, 2 * q, p);
    if dividend >= d * p {
      assert result + p == (2 * q + 1) * p;
      ExactDiv(result + p, 2 * q + 1, p);
      MulMonotone(1, d, result + p);
    }
  }

  /** Loop3: four trials a pass, stopping early when nothing is left of the dividend.  The last pass
      may subtract divisor fractions that no quotient bit stands for; their bit is shifted out. */
  method DivisionLoop(n: Word, d: int, top: Word, bit: Word, ghost e0: nat) returns (result: Word)
    requires Aligned(d, top, bit, e0)
    requires n < 2 * top
    ensures result == n / d
  {
    var dividend, divisor, curbit := n, top, bit;
    result := 0;
    ghost var e := e0;
    assert d * Pow2(e + 1) == 2 * top;
    while true
      invariant Aligned(d, divisor, curbit, e)
      invariant Settled(n, d, dividend, result, e + 1)
      decreases e
    {
      dividend, result := Trial(dividend, divisor, result, curbit, 0, n, d, e);
      dividend, result := Trial(dividend, divisor, result, curbit, 1, n, d, e);
      dividend, result := Trial(dividend, divisor, result, curbit, 2, n, d, e);
      dividend, result := Trial(dividend, divisor, result, curbit, 3, n, d, e);
      AlignedShift(d, divisor, curbit, e, 4);
      if dividend == 0 || Lsr(curbit, 4) == 0 {
        if e >= 3 {
          assert Pow2(0) == 1;
          DivModUnique(n, d, result, dividend);
        }
        return;
      }
      curbit := Lsr(curbit, 4);
      divisor := Lsr(divisor, 4);
      e := e - 4;
    }
  }

  /** Loop1: move the divisor up four bits at a time while it is small and below the dividend. */
  method NibbleShift(dividend: Word, divisor0: Word, curbit0: Word, ghost d: int, ghost e0: nat)
    returns (divisor: Word, curbit: Word, ghost e: nat)
    requires Aligned(d, divisor0, curbit0, e0)
    ensures Aligned(d, divisor, curbit, e)
    ensures e0 <= e <= e0 + 28
    ensures divisor >= dividend || divisor >= 0x1000_0000
  {
    divisor, curbit, e := divisor0, curbit0, e0;
    ghost var passes: nat := 0;
    assert Pow2(4) == 16;
    while divisor < 0x1000_0000 && divisor < dividend
      invariant Aligned(d, divisor, curbit, e)
      invariant e == e0 + 4 * passes && passes <= 7
      decreases WORD - divisor
    {
      Align(d, divisor, curbit, e, 4);
      BelowNibble(d, divisor, curbit, e);
      divisor, curbit, e, passes := Lsl(divisor, 4), Lsl(curbit, 4), e + 4, passes + 1;
    }
  }

  /** Lbignum: then one bit at a time, or a very big divisor would overflow. */
  method BitShift(dividend: Word, divisor0: Word, curbit0: Word, ghost d: int, ghost e0: nat)
    returns (divisor: Word, curbit: Word, ghost e: nat)
    requires Aligned(d, divisor0, curbit0, e0)
    ensures Aligned(d, divisor, curbit, e)
    ensures divisor >= dividend || divisor >= 0x8000_0000
    ensures e0 <= e && (e0 < e ==> d * Pow2(e - 1) < dividend)
  {
    divisor, curbit, e := divisor0, curbit0, e0;
    assert Pow2(1) == 2;
    while divisor < 0x8000_0000 && divisor < dividend
      invariant Aligned(d, divisor, curbit, e)
      invariant e0 <= e && (e0 < e ==> d * Pow2(e - 1) < dividend)
      decreases WORD - divisor
    {
      Align(d, divisor, curbit, e, 1);
      divisor, curbit, e := Lsl(divisor, 1), Lsl(curbit, 1), e + 1;
    }
  }

  lemma BelowNibble(d: int, divisor: Word, curbit: Word, e: nat)
    requires Aligned(d, divisor, curbit, e) && divisor < 0x1000_0000
    ensures e < 28
  {
    AlignedRange(d, divisor, curbit, e);
    Pow2Word();
    if e > 28 {
      Pow2Less(28, e);
    }
  }

  /** __udivsi3 / __aeabi_uidiv.  Division by zero ends in __div0; if that returned, the routine
      would answer zero. */
  method UDivSi3(dividend: Word, divisor: Word) returns (quotient: Word)
    ensures divisor > 0 ==> quotient == dividend / divisor
    ensures divisor == 0 ==> quotient == 0
  {
    if divisor == 0 {
      return 0;
    }
    if dividend < divisor {
      SmallDiv(dividend, divisor);
      return 0;
    }
    assert Pow2(0) == 1;
    var top, curbit, e := NibbleShift(dividend, divisor, 1, divisor, 0);
    top, curbit, e := BitShift(dividend, top, curbit, divisor, e);
    quotient := DivisionLoop(dividend, divisor, top, curbit, e);
  }

  /** __aeabi_uidivmod: the remainder is rebuilt by a wrapping multiply and subtract. */
  method AeabiUidivmod(dividend: Word, divisor: Word) returns (quotient: Word, remainder: Word)
    requires divisor > 0
    ensures dividend == quotient * divisor + remainder && remainder < divisor
  {
    quotient := UDivSi3(dividend, divisor);
    remainder := Wrap(dividend - Wrap(quotient * divisor));
    MulMonotone(0, quotient, divisor);
    assert dividend == quotient * divisor + dividend % divisor;
  }
}
