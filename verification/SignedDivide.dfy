/** The signed routines of arm/_divsi3.S and arm/_modsi3.S, in both the leading-zero-count form used
    from ARMv5 on and the nibble-shifting form used before it. */
module SignedDivide {
  import opened Bits
  import opened UnsignedDivide
  import opened UnsignedRemainder

  // ---- the specification: C's division, which truncates toward zero ----

  function Abs(x: int): nat { if x < 0 then -x else x }

  function TruncDiv(a: int, b: int): int
    requires b != 0
  {
    if (a < 0) != (b < 0) then -(Abs(a) / Abs(b)) else Abs(a) / Abs(b)
  }

  function TruncMod(a: int, b: int): int
    requires b != 0
  {
    if a < 0 then -(Abs(a) % Abs(b)) else Abs(a) % Abs(b)
  }

  /** Quotient and remainder fit together; the remainder takes the dividend's sign. */
  lemma TruncDivMod(a: int, b: int)
    requires b != 0
    ensures a == TruncDiv(a, b) * b + TruncMod(a, b)
    ensures Abs(TruncMod(a, b)) < Abs(b)
    ensures TruncMod(a, b) == 0 || (TruncMod(a, b) < 0 <==> a < 0)
  {
    var x, y := Abs(a), Abs(b);
    Divides(x, y);
    SignCases(a, b, x, y, x / y, x % y);
  }

  lemma Divides(x: nat, y: nat)
    requires y > 0
    ensures x == x / y * y + x % y && 0 <= x % y < y
  {
  }

  lemma SignCases(a: int, b: int, x: int, y: int, q: int, r: int)
    requires x == q * y + r && x == (if a < 0 then -a else a) && y == if b < 0 then -b else b
    ensures a == (if (a < 0) != (b < 0) then -q else q) * b + if a < 0 then -r else r
  {
    SignRules(x, y, q, r);
  }

  lemma SignRules(x: int, y: int, q: int, r: int)
    requires x == q * y + r
    ensures -x == (-q) * y - r && x == (-q) * (-y) + r && -x == q * (-y) - r
  {
  }

  // ---- count leading zeros ----

  function Clz(x: Word): nat
    decreases WORD - x
  {
    if x >= 0x8000_0000 then 0 else if x == 0 then 32 else 1 + Clz(2 * x)
  }

  lemma {:induction false} ClzRange(x: Word)
    requires x > 0
    ensures Clz(x) < 32 && Pow2(31 - Clz(x)) <= x < Pow2(32 - Clz(x))
    decreases WORD - x
  {
    if x < 0x8000_0000 {
      ClzRange(2 * x);
      assert Pow2(32 - Clz(2 * x)) == 2 * Pow2(31 - Clz(2 * x));
    } else {
      Pow2Word();
    }
  }

  /** The difference of the leading zero counts lines the top bits up. */
  lemma ClzAligns(dividend: Word, divisor: Word)
    requires 0 < divisor < dividend
    ensures Clz(dividend) <= Clz(divisor) < 32
    ensures var s := Clz(divisor) - Clz(dividend); divisor * Pow2(s) < WORD && dividend < 2 * (divisor * Pow2(s))
  {
    ClzRange(dividend);
    ClzRange(divisor);
    var c, c' := Clz(dividend), Clz(divisor);
    if c' < c {
      Pow2Less(31 - c, 31 - c');
    }
    Scaled(dividend, divisor, 31 - c, 31 - c');
  }

  lemma Scaled(dividend: Word, divisor: Word, t: nat, t': nat)
    requires t' <= t < 32 && dividend < Pow2(t + 1) && Pow2(t') <= divisor < Pow2(t' + 1)
    ensures divisor * Pow2(t - t') < WORD && dividend < 2 * (divisor * Pow2(t - t'))
  {
    Pow2Add(t', t - t');
    Pow2Add(t' + 1, t - t');
    Pow2Word();
    if t < 31 {
      Pow2Less(t + 1, 32);
    }
    ScaledBounds(divisor, Pow2(t'), Pow2(t - t'));
  }

  lemma ScaledBounds(x: int, p: int, f: int)
    requires f > 0 && p <= x < 2 * p
    ensures p * f <= x * f < (2 * p) * f
  {
    MulMonotone(p, x, f);
    MulMonotone(x + 1, 2 * p, f);
  }

  /** ARM_DIV_BODY's first half from ARMv5 on. */
  method AlignByClz(dividend: Word, divisor0: Word)
    returns (divisor: Word, curbit: Word, ghost e: nat)
    requires 0 < divisor0 < dividend
    ensures Aligned(divisor0, divisor, curbit, e) && dividend < 2 * divisor
  {
    var shift := Clz(divisor0) - Clz(dividend);
    ClzAligns(dividend, divisor0);
    assert Pow2(0) == 1;
    Align(divisor0, divisor0, 1, 0, shift);
    divisor, curbit, e := Lsl(divisor0, shift), Lsl(1, shift), shift;
  }

  /** ARM_DIV_BODY's first half before ARMv5: three bits at once where they fit, then nibbles, then
      single bits. */
  method AlignByNibbles(dividend: Word, divisor0: Word)
    returns (divisor: Word, curbit: Word, ghost e: nat)
    requires 0 < divisor0 < dividend
    ensures Aligned(divisor0, divisor, curbit, e) && dividend < 2 * divisor
  {
    assert Pow2(0) == 1 && Pow2(3) == 8;
    divisor, curbit, e := divisor0, 1, 0;
    TopThreeTest(divisor0);
    if And(divisor0, TOP_THREE) == 0 {
      Align(divisor0, divisor0, 1, 0, 3);
      divisor, curbit, e := Lsl(divisor0, 3), 8, 3;
    }
    divisor, curbit, e := NibbleShift(dividend, divisor, curbit, divisor0, e);
    divisor, curbit, e := BitShift(dividend, divisor, curbit, divisor0, e);
  }

  lemma TopThreeTest(x: Word)
    ensures And(x, TOP_THREE) == 0 <==> x < 0x2000_0000
  {
    Pow2Word();
    AndHighMask(x, 29, 32);
  }

  /** ARM_DIV_BODY */
  method DivBody(dividend: Word, divisor: Word, armv5: bool) returns (result: Word)
    requires 0 < divisor < dividend
    ensures result == dividend / divisor
  {
    if armv5 {
      var top, curbit, e := AlignByClz(dividend, divisor);
      result := DivisionLoop(dividend, divisor, top, curbit, e);
    } else {
      var top, curbit, e := AlignByNibbles(dividend, divisor);
      result := DivisionLoop(dividend, divisor, top, curbit, e);
    }
  }

  // ---- powers of two ----

  /** x & (x - 1) == 0 singles out the powers of two. */
  lemma {:induction false} PowerOfTwoTest(x: nat) returns (k: nat)
    requires x > 0
    ensures And(x, x - 1) == 0 <==> x == Pow2(k)
  {
    if x % 2 == 1 {
      k := 0;
      AndSelf(x / 2);
    } else {
      k := PowerOfTwoTest(x / 2);
      k := k + 1;
      assert (x - 1) / 2 == x / 2 - 1;
    }
  }

  lemma {:induction false} AndSelf(x: nat)
    ensures And(x, x) == x
  {
    if x > 0 {
      AndSelf(x / 2);
    }
  }

  /** ARM_DIV2_ORDER from ARMv5 on: the logarithm of a power of two. */
  method Div2OrderByClz(divisor: Word, ghost k: nat) returns (order: nat)
    requires divisor == Pow2(k)
    ensures order == k
  {
    ClzRange(divisor);
    order := 31 - Clz(divisor);
    if order < k {
      Pow2Less(order, k);
    } else if k < order {
      Pow2Less(k, order);
    }
  }

  /** ARM_DIV2_ORDER before ARMv5: halving the exponent's range three times. */
  method Div2OrderByHalving(divisor0: Word, ghost k: nat) returns (order: nat)
    requires divisor0 == Pow2(k)
    ensures order == k
  {
    var divisor := divisor0;
    ghost var left := k;
    order := 0;
    SmallPowers();
    HalvePower(divisor, left, 32);
    HalvePower(divisor, left, 16);
    if divisor >= 0x1_0000 {
      divisor, order, left := Lsr(divisor, 16), 16, left - 16;
    }
    HalvePower(divisor, left, 8);
    if divisor >= 0x100 {
      divisor, order, left := Lsr(divisor, 8), order + 8, left - 8;
    }
    HalvePower(divisor, left, 4);
    if divisor >= 0x10 {
      divisor, order, left := Lsr(divisor, 4), order + 4, left - 4;
    }
    order := order + LastTwo(divisor, left);
  }

  /** cmp #4; addhi #3; addls divisor, lsr #1 */
  function LastTwo(divisor: Word, ghost k: nat): (r: nat)
    requires divisor == Pow2(k) && k < 4
    ensures r == k
  {
    assert k == 0 || k == 1 || k == 2 || k == 3;
    assert Pow2(0) == 1 && Pow2(1) == 2 && Pow2(2) == 4 && Pow2(3) == 8;
    if divisor > 4 then 3 else divisor / 2
  }

  lemma SmallPowers()
    ensures Pow2(16) == 0x1_0000 && Pow2(8) == 0x100 && Pow2(4) == 0x10 && Pow2(32) == WORD
  {
    assert Pow2(4) == 16;
    Pow2Add(4, 4);
    Pow2Add(8, 8);
    Pow2Word();
  }

  lemma HalvePower(x: Word, k: nat, s: nat)
    requires x == Pow2(k)
    ensures x >= Pow2(s) ==> k >= s && Lsr(x, s) == Pow2(k - s)
    ensures x < Pow2(s) ==> k < s
  {
    if k < s {
      Pow2Less(k, s);
    } else {
      Pow2Add(k - s, s);
      ExactDiv(x, Pow2(k - s), Pow2(s));
      MulMonotone(1, Pow2(k - s), Pow2(s));
    }
  }

  // ---- signs ----

  predicate Minus(x: Word) { x >= 0x8000_0000 }

  function XorWord(a: Word, b: Word): (r: Word)
    ensures Minus(r) <==> Minus(a) != Minus(b)
  {
    Pow2Word();
    XorBelow(a, b, 32);
    TopBit(a, 31);
    TopBit(b, 31);
    TopBit(Xor(a, b), 31);
    XorBit(a, b, 31);
    Xor(a, b)
  }

  lemma {:induction false} XorBelow(a: nat, b: nat, k: nat)
    requires a < Pow2(k) && b < Pow2(k)
    ensures Xor(a, b) < Pow2(k)
    decreases k
  {
    if k > 0 {
      XorBelow(a / 2, b / 2, k - 1);
    }
  }

  /** ip, asr #31 */
  function SignFill(x: Word): Word { if Minus(x) then 0xffff_ffff else 0 }

  lemma FillOne(x: Word)
    ensures Or(SignFill(x), 1) == if Minus(x) then 0xffff_ffff else 1
  {
    OrZero(0x7fff_ffff);
    OrZero(1);
    assert Or(0xffff_ffff, 1) == 1 + 2 * Or(0x7fff_ffff, 0);
    assert Or(0, 1) == 1;
  }

  /** rsbmi: the register then holds the magnitude, -2^31 included. */
  function Magnitude(x: Word): (m: Word)
    ensures m == Abs(Signed(x))
  {
    if Minus(x) then Negate(x) else x
  }

  /** The final conditional reverse-subtract turns magnitudes back into two's complement. */
  lemma QuotientSign(r0: Word, r1: Word, q: Word)
    requires r1 != 0 && q == Magnitude(r0) / Magnitude(r1)
    ensures Wrap(TruncDiv(Signed(r0), Signed(r1))) == if Minus(r0) != Minus(r1) then Negate(q) else q
  {
  }

  /** __divsi3 / __aeabi_idiv */
  method DivSi3(r0: Word, r1: Word, armv5: bool) returns (q: Word)
    ensures r1 == 0 ==> q == 0
    ensures r1 != 0 ==> q == Wrap(TruncDiv(Signed(r0), Signed(r1)))
  {
    if r1 == 0 {
      return 0;
    }
    var ip := XorWord(r0, r1);
    var dividend, divisor := Magnitude(r0), Magnitude(r1);
    if divisor == 1 {
      ExactDiv(dividend, dividend, 1);
      QuotientSign(r0, r1, dividend);
      q := if Minus(XorWord(ip, r0)) then Negate(r0) else r0;
      return;
    }
    if dividend < divisor {
      SmallDiv(dividend, divisor);
      QuotientSign(r0, r1, 0);
      return 0;
    }
    if dividend == divisor {
      ExactDiv(dividend, 1, divisor);
      QuotientSign(r0, r1, 1);
      FillOne(ip);
      return Or(SignFill(ip), 1);
    }
    q := MagnitudeQuotient(dividend, divisor, armv5);
    QuotientSign(r0, r1, q);
    if Minus(ip) {
      q := Negate(q);
    }
  }

  method MagnitudeQuotient(dividend: Word, divisor: Word, armv5: bool) returns (q: Word)
    requires 1 < divisor < dividend
    ensures q == dividend / divisor
  {
    ghost var k := PowerOfTwoTest(divisor);
    if And(divisor, divisor - 1) == 0 {
      var order: nat;
      if armv5 {
        order := Div2OrderByClz(divisor, k);
      } else {
        order := Div2OrderByHalving(divisor, k);
      }
      q := Lsr(dividend, order);
    } else {
      q := DivBody(dividend, divisor, armv5);
    }
  }

  // ---- the remainder ----

  /** ARM_MOD_BODY's normalisation before ARMv5: count the shift in `order`. */
  method OrderByNibbles(dividend: Word, divisor0: Word) returns (divisor: Word, order: nat, ghost curbit: Word)
    requires 0 < divisor0 < dividend
    ensures Aligned(divisor0, divisor, curbit, order) && dividend < 2 * divisor
  {
    divisor, order, curbit := divisor0, 0, 1;
    assert Pow2(0) == 1 && Pow2(1) == 2 && Pow2(4) == 16;
    while divisor < 0x1000_0000 && divisor < dividend
      invariant Aligned(divisor0, divisor, curbit, order)
      decreases WORD - divisor
    {
      Align(divisor0, divisor, curbit, order, 4);
      divisor, curbit, order := Lsl(divisor, 4), Lsl(curbit, 4), order + 4;
    }
    while divisor < 0x8000_0000 && divisor < dividend
      invariant Aligned(divisor0, divisor, curbit, order)
      decreases WORD - divisor
    {
      Align(divisor0, divisor, curbit, order, 1);
      divisor, curbit, order := Lsl(divisor, 1), Lsl(curbit, 1), order + 1;
    }
  }

  /** A batch of four leaves the remainder by a modulus four bits lower, small enough for the signed
      comparison that follows it. */
  lemma BatchOfFour(n: Word, d: int, dividend: Word, divisor: Word, curbit: Word, e: nat)
    requires Aligned(d, divisor, curbit, e) && dividend == n % (d * Pow2(e + 1)) && e >= 3
    ensures Left(dividend, divisor, 3) == n % (d * Pow2(e - 3)) < 0x8000_0000
    ensures Left(dividend, divisor, 3) == 0 ==> n % d == 0
    ensures e >= 4 ==> Aligned(d, Lsr(divisor, 4), Lsr(curbit, 4), e - 4)
  {
    LeftMod(n, d, dividend, divisor, curbit, e, 3);
    AlignedShift(d, divisor, curbit, e, 3);
    AlignedShift(d, divisor, curbit, e, 4);
    MulMonotone(1, d, Pow2(e - 3));
    EighthOf(divisor);
    if Left(dividend, divisor, 3) == 0 {
      ZeroByMultiple(n, d, Pow2(e - 3));
    }
  }

  lemma EighthOf(x: Word)
    ensures Lsr(x, 3) < 0x8000_0000
  {
    assert Pow2(3) == 8;
  }

  /** The batch loop and the leftover comparisons of ARM_MOD_BODY.  `order` starts three below the
      number of shifts, so its sign tells batches from leftovers. */
  method ReduceAll(n: Word, d: Word, top: Word, order0: nat, ghost bit: Word) returns (dividend: Word)
    requires Aligned(d, top, bit, order0) && n < 2 * top
    ensures dividend == n % d
  {
    var divisor, order: int := top, order0 - 3;
    ghost var curbit := bit;
    dividend := n;
    assert d * Pow2(order0 + 1) == 2 * top;
    SmallDiv(n, 2 * top);
    assert Pow2(0) == 1;
    if order >= 0 {
      while true
        invariant order >= 0 && Aligned(d, divisor, curbit, order + 3)
        invariant dividend == n % (d * Pow2(order + 4))
        decreases order
      {
        BatchOfFour(n, d, dividend, divisor, curbit, order + 3);
        dividend := Left(dividend, divisor, 3);
        divisor, curbit := Lsr(divisor, 4), Lsr(curbit, 4);
        if !(Signed(dividend) >= 1) {
          return;
        }
        order := order - 4;
        if order < 0 {
          break;
        }
      }
      // tst order, #3 on a two's complement register is a remainder by four
      if order % 4 == 0 || dividend == 0 {
        return;
      }
    }
    dividend := Leftover(n, d, dividend, divisor, order, curbit);
  }

  /** One, two or three comparisons, chosen by the negative `order`. */
  method Leftover(ghost n: Word, ghost d: int, dividend0: Word, divisor0: Word, order: int, ghost curbit: Word)
    returns (dividend: Word)
    requires -3 <= order <= -1 && Aligned(d, divisor0, curbit, order + 3)
    requires dividend0 == n % (d * Pow2(order + 4))
    ensures dividend == n % d
  {
    var divisor := divisor0;
    dividend := dividend0;
    assert Pow2(0) == 1 && Pow2(1) == 2;
    AlignedShift(d, divisor0, curbit, order + 3, 1);
    AlignedShift(d, divisor0, curbit, order + 3, 2);
    if order > -2 {
      ReduceAt(n, d, 2, dividend, divisor);
      dividend := Reduce(dividend, divisor);
      divisor := Lsr(divisor, 1);
    }
    if order >= -2 {
      ReduceAt(n, d, 1, dividend, divisor);
      dividend := Reduce(dividend, divisor);
      divisor := Lsr(divisor, 1);
    }
    ReduceAt(n, d, 0, dividend, divisor);
    dividend := Reduce(dividend, divisor);
  }

  /** ARM_MOD_BODY's normalisation from ARMv5 on. */
  method OrderByClz(dividend: Word, divisor0: Word) returns (divisor: Word, order: nat, ghost curbit: Word)
    requires 0 < divisor0 < dividend
    ensures Aligned(divisor0, divisor, curbit, order) && dividend < 2 * divisor
  {
    ClzAligns(dividend, divisor0);
    order := Clz(divisor0) - Clz(dividend);
    assert Pow2(0) == 1;
    Align(divisor0, divisor0, 1, 0, order);
    divisor, curbit := Lsl(divisor0, order), Lsl(1, order);
  }

  /** ARM_MOD_BODY */
  method ModBody(dividend: Word, divisor: Word, armv5: bool) returns (r: Word)
    requires 0 < divisor < dividend
    ensures r == dividend % divisor
  {
    if armv5 {
      var top, order, curbit := OrderByClz(dividend, divisor);
      r := ReduceAll(dividend, divisor, top, order, curbit);
    } else {
      var top, order, curbit := OrderByNibbles(dividend, divisor);
      r := ReduceAll(dividend, divisor, top, order, curbit);
    }
  }

  /** The leading-zero-count form and the nibble-shifting form agree on quotient and remainder. */
  method BothForms(dividend: Word, divisor: Word) returns (q: seq<Word>, r: seq<Word>)
    requires 0 < divisor < dividend
    ensures |q| == 2 == |r| && q[0] == q[1] && r[0] == r[1]
    ensures dividend == q[0] * divisor + r[0] && r[0] < divisor
  {
    var q5: Word := DivBody(dividend, divisor, true);
    var q4: Word := DivBody(dividend, divisor, false);
    var r5: Word := ModBody(dividend, divisor, true);
    var r4: Word := ModBody(dividend, divisor, false);
    q, r := [q4, q5], [r4, r5];
  }

  /** __modsi3 */
  method ModSi3(r0: Word, r1: Word, armv5: bool) returns (r: Word)
    ensures r1 == 0 ==> r == 0
    ensures r1 != 0 ==> Signed(r) == TruncMod(Signed(r0), Signed(r1))
  {
    if r1 == 0 {
      return 0;
    }
    var dividend, divisor := Magnitude(r0), Magnitude(r1);
    r := MagnitudeRemainder(dividend, divisor, armv5);
    if Minus(r0) {
      r := Negate(r);
    }
  }

  method MagnitudeRemainder(dividend: Word, divisor: Word, armv5: bool) returns (r: Word)
    requires divisor > 0
    ensures r == dividend % divisor
  {
    if divisor == 1 || dividend == divisor {
      ExactDiv(dividend, if divisor == 1 then dividend else 1, divisor);
      return 0;
    }
    if dividend < divisor {
      SmallDiv(dividend, divisor);
      return dividend;
    }
    ghost var k := PowerOfTwoTest(divisor);
    if And(divisor, divisor - 1) == 0 {
      AndLowMask(dividend, k);
      return And(dividend, divisor - 1);
    }
    r := ModBody(dividend, divisor, armv5);
  }

  /** Dividing and taking the remainder of the same registers: C's identity, with the one wrapping
      quotient, -2^31 / -1. */
  method DivModSi3(a: Word, b: Word, armv5: bool) returns (q: Word, r: Word)
    requires b != 0
    ensures Signed(a) == TruncDiv(Signed(a), Signed(b)) * Signed(b) + Signed(r)
    ensures Abs(Signed(r)) < Abs(Signed(b)) && (Signed(r) == 0 || (Signed(r) < 0 <==> Signed(a) < 0))
    ensures Signed(q) == TruncDiv(Signed(a), Signed(b)) <==> !(a == 0x8000_0000 && b == 0xffff_ffff)
    ensures a == 0x8000_0000 && b == 0xffff_ffff ==> q == 0x8000_0000 && r == 0
  {
    q := DivSi3(a, b, armv5);
    r := ModSi3(a, b, armv5);
    TruncDivMod(Signed(a), Signed(b));
    QuotientFits(Signed(a), Signed(b));
  }

  lemma QuotientFits(a: int, b: int)
    requires b != 0 && -0x8000_0000 <= a < 0x8000_0000
    ensures -0x8000_0000 <= TruncDiv(a, b) <= 0x8000_0000
    ensures TruncDiv(a, b) == 0x8000_0000 <==> a == -0x8000_0000 && b == -1
  {
    var x, y := Abs(a), Abs(b);
    ShiftBound(x, y);
    if y >= 2 && x > 0 {
      assert x == (x / y) * y + x % y;
      MulMonotone(2, y, x / y);
    } else {
      assert y == 1 ==> x / y == x;
    }
  }

  /** __aeabi_idivmod: the remainder rebuilt by a wrapping multiply and subtract is the true one. */
  method AeabiIdivmod(a: Word, b: Word, armv5: bool) returns (q: Word, r: Word)
    requires b != 0
    ensures q == Wrap(TruncDiv(Signed(a), Signed(b)))
    ensures Signed(r) == TruncMod(Signed(a), Signed(b))
  {
    q := DivSi3(a, b, armv5);
    r := Wrap(a - Wrap(q * b));
    RebuiltRemainder(a, b, q);
  }

  lemma RebuiltRemainder(a: Word, b: Word, q: Word)
    requires b != 0 && q == Wrap(TruncDiv(Signed(a), Signed(b)))
    ensures Signed(Wrap(a - Wrap(q * b))) == TruncMod(Signed(a), Signed(b))
  {
    TruncDivMod(Signed(a), Signed(b));
    WrapSigned(a);
    WrapSigned(b);
    RebuildFrom(a, b, q, Signed(a), Signed(b), TruncDiv(Signed(a), Signed(b)), TruncMod(Signed(a), Signed(b)));
  }

  lemma WrapSigned(a: Word)
    ensures a == Wrap(Signed(a)) && -0x8000_0000 <= Signed(a) < 0x8000_0000
  {
  }

  lemma RebuildFrom(a: Word, b: Word, q: Word, x: int, y: int, t: int, rest: int)
    requires a == Wrap(x) && b == Wrap(y) && q == Wrap(t)
    requires x == t * y + rest && Abs(rest) < Abs(y) && -0x8000_0000 <= y < 0x8000_0000
    ensures Signed(Wrap(a - Wrap(q * b))) == rest
  {
    WrapProduct(t, y, q, b);
    RebuildSum(a, Wrap(q * b), x, t * y, rest, y);
  }

  lemma RebuildSum(a: Word, m: Word, x: int, product: int, rest: int, y: int)
    requires a == Wrap(x) && m == Wrap(product)
    requires x == product + rest && Abs(rest) < Abs(y) && -0x8000_0000 <= y < 0x8000_0000
    ensures Signed(Wrap(a - m)) == rest
  {
    RestFits(x, product, rest, y);
    WrapDifference(a, m, x, product);
  }

  lemma RestFits(x: int, product: int, rest: int, y: int)
    requires x == product + rest && Abs(rest) < Abs(y) && -0x8000_0000 <= y < 0x8000_0000
    ensures x - product == rest && -0x8000_0000 <= rest < 0x8000_0000
  {
  }

  lemma WrapDifference(a: Word, m: Word, x: int, y: int)
    requires a == Wrap(x) && m == Wrap(y) && -0x8000_0000 <= x - y < 0x8000_0000
    ensures Signed(Wrap(a - m)) == x - y
  {
  }

  lemma WrapProduct(x: int, y: int, q: Word, b: Word)
    requires q == Wrap(x) && b == Wrap(y)
    ensures Wrap(q * b) == Wrap(x * y)
  {
    var i, j := x / WORD, y / WORD;
    assert x == i * WORD + q && y == j * WORD + b;
    assert x * y == (i * j * WORD + i * b + q * j) * WORD + q * b;
    WrapShift(q * b, i * j * WORD + i * b + q * j);
  }

  lemma WrapShift(z: int, t: int)
    ensures Wrap(t * WORD + z) == Wrap(z)
  {
  }
}
