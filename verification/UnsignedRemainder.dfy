/** The unsigned remainder routine of arm/_umodsi3.S.  Its last pass may subtract more than it should;
    the routine records each subtraction in `overdone` and afterwards adds back the ones that land in
    the top three bits. */
module UnsignedRemainder {
  import opened Bits
  import opened UnsignedDivide

  const TOP_THREE := 0xe000_0000

  /** cmp / subcs */
  function Reduce(x: Word, s: Word): Word { if x >= s then x - s else x }

  /** One conditional subtraction halves the modulus. */
  lemma ReduceHalves(n: nat, p: nat)
    requires p > 0
    ensures var x := n % (2 * p); (if x >= p then x - p else x) == n % p
  {
    var q, x := n / (2 * p), n % (2 * p);
    assert n == q * (2 * p) + x == (2 * q) * p + x;
    if x >= p {
      assert n == (2 * q + 1) * p + (x - p);
      DivModUnique(n, p, 2 * q + 1, x - p);
    } else {
      DivModUnique(n, p, 2 * q, x);
    }
  }

  lemma ReduceAt(n: nat, d: int, i: nat, x: Word, s: Word)
    requires d > 0 && x == n % (d * Pow2(i + 1)) && s == d * Pow2(i)
    ensures Reduce(x, s) == n % (d * Pow2(i))
  {
    MulMonotone(1, d, Pow2(i));
    assert d * Pow2(i + 1) == 2 * s;
    ReduceHalves(n, s);
  }

  /** A remainder by a multiple of d, when zero, says d divides n. */
  lemma ZeroByMultiple(n: nat, d: nat, p: nat)
    requires d > 0 && p > 0 && d * p > 0 && n % (d * p) == 0
    ensures n % d == 0
  {
    var q := n / (d * p);
    assert n == q * (d * p) == (q * p) * d;
    ExactDiv(n, q * p, d);
  }

  /** The position of the bit that subtraction `k` sets in `overdone`: `curbit ror #k`. */
  function Position(e: nat, k: nat): (p: nat)
    requires e < 32 && 1 <= k <= 3
  {
    if e >= k then e - k else e + 32 - k
  }

  lemma RorPosition(e: nat, k: nat)
    requires e < 32 && 1 <= k <= 3
    ensures Pow2(e) < WORD && Ror(Pow2(e), k) == Pow2(Position(e, k))
  {
    Pow2Word();
    Pow2Less(e, 32);
    if e >= k {
      Pow2Add(e - k, k);
      ExactDiv(Pow2(e), Pow2(e - k), Pow2(k));
    } else {
      Pow2Less(e, k);
      SmallDiv(Pow2(e), Pow2(k));
      Pow2Add(e, 32 - k);
    }
  }

  function Mark(overdone: nat, done: bool, e: nat, k: nat): (r: nat)
    requires e < 32 && 1 <= k <= 3
  {
    if done then Or(overdone, Pow2(Position(e, k))) else overdone
  }

  lemma MarkBit(overdone: nat, done: bool, e: nat, k: nat, i: nat)
    requires e < 32 && 1 <= k <= 3
    ensures Bit(Mark(overdone, done, e, k), i) <==> Bit(overdone, i) || (done && i == Position(e, k))
  {
    OrBit(overdone, Pow2(Position(e, k)), i);
    Pow2Bit(Position(e, k), i);
  }

  lemma {:induction false} ShiftedBit(x: nat, m: nat, i: nat)
    requires i >= m
    ensures Bit(x * Pow2(m), i) <==> Bit(x, i - m)
    decreases m
  {
    if m > 0 {
      MulAssociate(x, Pow2(m - 1), 2);
      ExactDiv(x * Pow2(m), x * Pow2(m - 1), 2);
      ShiftedBit(x, m - 1, i - 1);
    }
  }

  lemma {:induction false} ShiftedLowBit(x: nat, m: nat, i: nat)
    requires i < m
    ensures !Bit(x * Pow2(m), i)
    decreases m
  {
    MulAssociate(x, Pow2(m - 1), 2);
    ExactDiv(x * Pow2(m), x * Pow2(m - 1), 2);
    if i > 0 {
      ShiftedLowBit(x, m - 1, i - 1);
    }
  }

  lemma TopThreeBit(i: nat)
    requires i < 32
    ensures Bit(TOP_THREE, i) <==> i >= 29
  {
    Pow2Word();
    assert TOP_THREE == 7 * Pow2(29);
    if i >= 29 {
      ShiftedBit(7, 29, i);
      assert Bit(7, 0) && Bit(7, 1) && Bit(7, 2);
    } else {
      ShiftedLowBit(7, 29, i);
    }
  }

  /** What the three `tst` instructions see: subtraction `k` was made and its bit is one of the top
      three.  The preceding `ands` / `moveq` is then only a shortcut. */
  lemma FixupTest(overdone: Word, s1: bool, s2: bool, s3: bool, e: nat, k: nat)
    requires e < 32 && 1 <= k <= 3
    requires overdone == Mark(Mark(Mark(0, s1, e, 1), s2, e, 2), s3, e, 3)
    ensures And(And(overdone, TOP_THREE), Pow2(Position(e, k))) != 0 <==>
              Position(e, k) >= 29 && (if k == 1 then s1 else if k == 2 then s2 else s3)
  {
    var p := Position(e, k);
    AndOneBit(And(overdone, TOP_THREE), p);
    AndBit(overdone, TOP_THREE, p);
    TopThreeBit(p);
    ZeroBit(p);
    MarkBit(0, s1, e, 1, p);
    MarkBit(Mark(0, s1, e, 1), s2, e, 2, p);
    MarkBit(Mark(Mark(0, s1, e, 1), s2, e, 2), s3, e, 3, p);
  }

  // ---- the inputs on which the early exit goes wrong ----

  /** Where the divisor's unit bit ends up after normalisation, for d <= 3 and n > d * 2^29. */
  function TopUnit(n: Word, d: Word): nat { if d == 1 && n > 0x4000_0000 then 31 else 30 }

  /** The first pass leaves nothing, having used quotient bit 29 or 30 below its leading one: those
      two bits of `overdone` are then mistaken for surplus subtractions. */
  predicate Spoiled(n: Word, d: Word)
  {
    && 1 <= d <= 3
    && d * 0x2000_0000 < n
    && n % (d * Pow2(TopUnit(n, d) - 3)) == 0
    && n / d % Pow2(TopUnit(n, d)) >= 0x2000_0000
  }

  /** What a spoiled call returns: the divisor times the bits added back by mistake. */
  function Residue(n: Word, d: Word): int
    requires d > 0
  {
    if Spoiled(n, d) then d * (n / d % Pow2(TopUnit(n, d)) / 0x2000_0000 * 0x2000_0000) else 0
  }

  // ---- one pass of Loop3 ----

  /** The dividend after the compare / subtract pairs at shifts 0 to k. */
  function Left(dividend: Word, divisor: Word, k: nat): (r: Word)
    ensures r <= dividend
  {
    if k == 0 then Reduce(dividend, divisor)
    else Reduce(Left(dividend, divisor, k - 1), Lsr(divisor, k))
  }

  predicate Taken(dividend: Word, divisor: Word, k: nat)
    requires k >= 1
  {
    Left(dividend, divisor, k - 1) >= Lsr(divisor, k)
  }

  function AddedBack(dividend: Word, divisor: Word, e: nat, k: nat): Word
    requires e < 32 && 1 <= k <= 3
  {
    if Taken(dividend, divisor, k) && Position(e, k) >= 29 then Lsr(divisor, k) else 0
  }

  /** What a pass leaves, once the recorded surplus in the top three bits is added back. */
  function Repaired(dividend: Word, divisor: Word, e: nat): int
    requires e < 32
  {
    Left(dividend, divisor, 3) + AddedBack(dividend, divisor, e, 3)
    + AddedBack(dividend, divisor, e, 2) + AddedBack(dividend, divisor, e, 1)
  }

  lemma RepairedRange(dividend: Word, divisor: Word, e: nat)
    requires e < 32
    ensures Left(dividend, divisor, 3) <= Repaired(dividend, divisor, e) <= dividend
  {
    assert Left(dividend, divisor, 2) <= dividend;
  }

  /** The genuine subtractions: down to shift `e` they keep the dividend congruent to n. */
  lemma {:induction false} LeftMod(n: Word, d: int, dividend: Word, divisor: Word, curbit: Word, e: nat, k: nat)
    requires Aligned(d, divisor, curbit, e) && dividend == n % (d * Pow2(e + 1)) && k <= e
    ensures Left(dividend, divisor, k) == n % (d * Pow2(e - k))
  {
    AlignedShift(d, divisor, curbit, e, k);
    if k > 0 {
      LeftMod(n, d, dividend, divisor, curbit, e, k - 1);
      ReduceAt(n, d, e - k, Left(dividend, divisor, k - 1), Lsr(divisor, k));
    } else {
      ReduceAt(n, d, e, dividend, divisor);
    }
  }

  /** On the last pass the repair undoes exactly the subtractions below the unit position. */
  lemma LastPass(n: Word, d: int, dividend: Word, divisor: Word, curbit: Word, e: nat)
    requires Aligned(d, divisor, curbit, e) && dividend == n % (d * Pow2(e + 1)) && e <= 3
    ensures Repaired(dividend, divisor, e) == n % d
  {
    LeftMod(n, d, dividend, divisor, curbit, e, e);
    assert Pow2(0) == 1;
    LeftUnfolded(dividend, divisor);
  }

  /** A pass that leaves nothing well below the top bits records nothing there. */
  lemma EarlyExit(n: Word, d: int, dividend: Word, divisor: Word, curbit: Word, e: nat)
    requires Aligned(d, divisor, curbit, e) && dividend == n % (d * Pow2(e + 1)) && 4 <= e < 30
    requires Left(dividend, divisor, 3) == 0
    ensures Repaired(dividend, divisor, e) == 0 == n % d
  {
    LeftMod(n, d, dividend, divisor, curbit, e, 3);
    MulMonotone(1, d, Pow2(e - 3));
    ZeroByMultiple(n, d, Pow2(e - 3));
  }

  /** A first pass whose bit is at position 30 or 31 exhausts the dividend only for these multiples,
      and then the repair adds back genuine subtractions. */
  lemma HighPass(n: Word, d: Word, divisor: Word, curbit: Word, e: nat)
    requires Aligned(d, divisor, curbit, e) && 30 <= e < 32 && d <= 3
    requires TopUnit(n, d) == e && d * 0x2000_0000 < n < 2 * divisor
    ensures Left(n, divisor, 3) == 0 ==> Repaired(n, divisor, e) == n % d + Residue(n, d)
    ensures Left(n, divisor, 3) != 0 ==> !Spoiled(n, d)
  {
    assert d * Pow2(e + 1) == 2 * divisor;
    SmallDiv(n, 2 * divisor);
    LeftMod(n, d, n, divisor, curbit, e, 3);
    if Left(n, divisor, 3) == 0 {
      MulMonotone(1, d, Pow2(e - 3));
      ZeroByMultiple(n, d, Pow2(e - 3));
      Exhausted(n, d, divisor, curbit, e);
    }
  }

  lemma Exhausted(n: Word, d: Word, divisor: Word, curbit: Word, e: nat)
    requires Aligned(d, divisor, curbit, e) && 30 <= e < 32 && d <= 3
    requires TopUnit(n, d) == e && d * 0x2000_0000 < n < 2 * divisor
    requires Left(n, divisor, 3) == 0 && n % (d * Pow2(e - 3)) == 0
    ensures Repaired(n, divisor, e) == Residue(n, d)
  {
    var w := d * Pow2(e - 3);
    HighShifts(d, divisor, curbit, e);
    SubtractedSum(n, divisor);
    RepairedHigh(n, divisor, e);
    FourSteps(n, d, e, w, n >= divisor, Taken(n, divisor, 1), Taken(n, divisor, 2), Taken(n, divisor, 3));
  }

  lemma HighShifts(d: Word, divisor: Word, curbit: Word, e: nat)
    requires Aligned(d, divisor, curbit, e) && e >= 3
    ensures var w := d * Pow2(e - 3);
      divisor == 8 * w && Lsr(divisor, 1) == 4 * w && Lsr(divisor, 2) == 2 * w && Lsr(divisor, 3) == w
  {
    AlignedShift(d, divisor, curbit, e, 1);
    AlignedShift(d, divisor, curbit, e, 2);
    AlignedShift(d, divisor, curbit, e, 3);
    Multiples(d, e - 3);
  }

  lemma Multiples(d: int, i: nat)
    ensures var w := d * Pow2(i);
      d * Pow2(i + 1) == 2 * w && d * Pow2(i + 2) == 4 * w && d * Pow2(i + 3) == 8 * w
  {
    var p := Pow2(i);
    assert Pow2(i + 1) == 2 * p;
    assert Pow2(i + 2) == 2 * Pow2(i + 1);
    assert Pow2(i + 3) == 2 * Pow2(i + 2);
    assert d * (2 * p) == 2 * (d * p) && d * (4 * p) == 4 * (d * p) && d * (8 * p) == 8 * (d * p);
  }

  function Sum(taken: bool, part: int): int { if taken then part else 0 }

  lemma SubtractedSum(n: Word, divisor: Word)
    ensures n == Left(n, divisor, 3) + Sum(n >= divisor, divisor) + Sum(Taken(n, divisor, 1), Lsr(divisor, 1))
                 + Sum(Taken(n, divisor, 2), Lsr(divisor, 2)) + Sum(Taken(n, divisor, 3), Lsr(divisor, 3))
  {
    LeftUnfolded(n, divisor);
  }

  lemma RepairedHigh(n: Word, divisor: Word, e: nat)
    requires 30 <= e < 32
    ensures Repaired(n, divisor, e) == Left(n, divisor, 3) + Sum(Taken(n, divisor, 1), Lsr(divisor, 1))
                                       + Sum(e == 31 && Taken(n, divisor, 2), Lsr(divisor, 2))
  {
  }

  /** An exhausted dividend is the sum of what was subtracted, so its quotient can be read off the
      four subtractions. */
  lemma FourSteps(n: Word, d: Word, e: nat, w: int, s0: bool, s1: bool, s2: bool, s3: bool)
    requires 1 <= d <= 3 && 30 <= e < 32 && TopUnit(n, d) == e && d * 0x2000_0000 < n
    requires w == d * Pow2(e - 3) && n % w == 0
    requires n == Sum(s0, 8 * w) + Sum(s1, 4 * w) + Sum(s2, 2 * w) + Sum(s3, w)
    ensures Residue(n, d) == Sum(s1, 4 * w) + Sum(e == 31 && s2, 2 * w)
  {
    HighConstants(e);
    var u := Pow2(e - 3);
    HighQuotient(n, d, u, s0, s1, s2, s3);
    RoundDown(e, s1, s2, s3);
  }

  lemma RoundDown(e: nat, s1: bool, s2: bool, s3: bool)
    requires 30 <= e < 32
    ensures var u := if e == 30 then 0x800_0000 else 0x1000_0000;
      (Sum(s1, 4 * u) + Sum(s2, 2 * u) + Sum(s3, u)) / 0x2000_0000 * 0x2000_0000
      == Sum(s1, 4 * u) + Sum(e == 31 && s2, 2 * u)
  {
  }

  lemma HighQuotient(n: Word, d: Word, u: int, s0: bool, s1: bool, s2: bool, s3: bool)
    requires 1 <= d <= 3 && u > 0
    requires n == Sum(s0, 8 * (d * u)) + Sum(s1, 4 * (d * u)) + Sum(s2, 2 * (d * u)) + Sum(s3, d * u)
    ensures n / d % (8 * u) == Sum(s1, 4 * u) + Sum(s2, 2 * u) + Sum(s3, u)
  {
    var low := Sum(s1, 4 * u) + Sum(s2, 2 * u) + Sum(s3, u);
    assert n == (Sum(s0, 8 * u) + low) * d;
    ExactDiv(n, Sum(s0, 8 * u) + low, d);
    DivModUnique(n / d, 8 * u, if s0 then 1 else 0, low);
  }

  lemma HighConstants(e: nat)
    requires 30 <= e < 32
    ensures Pow2(1) == 2 && Pow2(2) == 4 && Pow2(3) == 8
    ensures Pow2(e) == (if e == 30 then 0x4000_0000 else 0x8000_0000)
    ensures Pow2(e - 3) == (if e == 30 then 0x800_0000 else 0x1000_0000)
  {
    Pow2Word();
    assert Pow2(28) == 2 * Pow2(27);
    assert Pow2(30) == 2 * Pow2(29);
  }

  lemma LeftUnfolded(dividend: Word, divisor: Word)
    ensures Left(dividend, divisor, 0) == Reduce(dividend, divisor)
    ensures Left(dividend, divisor, 1) == Reduce(Left(dividend, divisor, 0), Lsr(divisor, 1))
    ensures Left(dividend, divisor, 2) == Reduce(Left(dividend, divisor, 1), Lsr(divisor, 2))
    ensures Left(dividend, divisor, 3) == Reduce(Left(dividend, divisor, 2), Lsr(divisor, 3))
  {
  }

  /** The routine is exact except on the spoiled inputs, and every divisor above 3 is safe. */
  lemma ExactUnlessSpoiled(n: Word, d: Word)
    requires d > 0
    ensures n % d + Residue(n, d) == n % d <==> !Spoiled(n, d)
    ensures d >= 4 ==> !Spoiled(n, d)
  {
    if Spoiled(n, d) {
      var bits := n / d % Pow2(TopUnit(n, d)) / 0x2000_0000 * 0x2000_0000;
      assert bits >= 0x2000_0000;
      MulMonotone(1, bits, d);
    }
  }

  lemma SpoiledExample()
    ensures Spoiled(0xc000_0000, 1) && Residue(0xc000_0000, 1) == 0x4000_0000
  {
    Pow2Word();
    assert TopUnit(0xc000_0000, 1) == 31;
  }

  /** How the routine enters its main loop when the bit is at position 30 or 31. */
  ghost predicate HighStart(n: Word, d: Word, dividend: Word, divisor: Word, e: nat)
  {
    && e < 32 && d <= 3 && dividend == n
    && TopUnit(n, d) == e && d * 0x2000_0000 < n < 2 * divisor
  }

  lemma Normalised(n: Word, d: Word, divisor: Word, curbit: Word, e: nat)
    requires Aligned(d, divisor, curbit, e)
    requires divisor >= n || divisor >= 0x8000_0000
    requires e > 28 ==> d * Pow2(e - 1) < n
    ensures n == n % (d * Pow2(e + 1))
    ensures e >= 30 ==> HighStart(n, d, n, divisor, e)
    ensures e < 30 ==> !Spoiled(n, d)
  {
    AlignedRange(d, divisor, curbit, e);
    assert d * Pow2(e + 1) == 2 * divisor;
    SmallDiv(n, 2 * divisor);
    Pow2Word();
    assert Pow2(30) == 2 * Pow2(29);
    if e < 30 {
      if e < 29 {
        Pow2Less(e, 29);
      }
      MulMonotone(Pow2(e), Pow2(29), d);
    }
  }

  /** The four compare / subtract pairs of Loop3, with the record of the last three. */
  method Pass(dividend: Word, divisor: Word, curbit: Word, ghost e: nat)
    returns (left: Word, overdone: Word)
    requires e < 32 && curbit == Pow2(e)
    ensures left == Left(dividend, divisor, 3)
    ensures overdone == Recorded(dividend, divisor, e)
  {
    RorPosition(e, 1);
    RorPosition(e, 2);
    RorPosition(e, 3);
    left := Reduce(dividend, divisor);
    left, overdone := Subtract(left, 0, Lsr(divisor, 1), Ror(curbit, 1));
    left, overdone := Subtract(left, overdone, Lsr(divisor, 2), Ror(curbit, 2));
    left, overdone := Subtract(left, overdone, Lsr(divisor, 3), Ror(curbit, 3));
    LeftUnfolded(dividend, divisor);
  }

  /** cmp / subcs / orrcs */
  method Subtract(left: Word, overdone: Word, part: Word, mask: Word) returns (left': Word, overdone': Word)
    ensures left' == Reduce(left, part)
    ensures overdone' == if left >= part then Or(overdone, mask) else overdone
  {
    left', overdone' := left, overdone;
    if left >= part {
      left', overdone' := left - part, OrWord(overdone, mask);
    }
  }

  ghost function Recorded(dividend: Word, divisor: Word, e: nat): nat
    requires e < 32
  {
    Mark(Mark(Mark(0, Taken(dividend, divisor, 1), e, 1),
              Taken(dividend, divisor, 2), e, 2),
         Taken(dividend, divisor, 3), e, 3)
  }

  /** tst / addne: put back `part` if the mask is recorded among the top three bits. */
  function Fixup(part: Word, overdone: Word, mask: Word): Word
  {
    if And(And(overdone, TOP_THREE), mask) != 0 then part else 0
  }

  lemma FixupsRepair(dividend: Word, divisor: Word, overdone: Word, ip: Word, e: nat)
    requires e < 32 && ip == Pow2(e) && overdone == Recorded(dividend, divisor, e)
    ensures Left(dividend, divisor, 3)
            + Fixup(Lsr(divisor, 3), overdone, Ror(ip, 3))
            + Fixup(Lsr(divisor, 2), overdone, Ror(ip, 2))
            + Fixup(Lsr(divisor, 1), overdone, Ror(ip, 1)) == Repaired(dividend, divisor, e) < WORD
  {
    forall k | 1 <= k <= 3
      ensures Fixup(Lsr(divisor, k), overdone, Ror(ip, k)) == AddedBack(dividend, divisor, e, k)
    {
      RorPosition(e, k);
      FixupTest(overdone, Taken(dividend, divisor, 1), Taken(dividend, divisor, 2),
                Taken(dividend, divisor, 3), e, k);
    }
    RepairedRange(dividend, divisor, e);
  }

  /** The `ands` shortcut and the three fixups after the loop; `part` and `mask` are the shifted
      divisor and the rotated bit of each subtraction. */
  method AddBack(left: Word, overdone: Word, part3: Word, mask3: Word, part2: Word, mask2: Word,
                 part1: Word, mask1: Word)
    returns (r: Word)
    requires left + Fixup(part3, overdone, mask3) + Fixup(part2, overdone, mask2)
             + Fixup(part1, overdone, mask1) < WORD
    ensures r == left + Fixup(part3, overdone, mask3) + Fixup(part2, overdone, mask2)
                 + Fixup(part1, overdone, mask1)
  {
    r := left;
    var top := And(overdone, TOP_THREE);
    if top == 0 {
      ZeroFixups(part3, mask3, part2, mask2, part1, mask1, overdone);
      return;
    }
    r := AddWhere(r, part3, And(top, mask3));
    r := AddWhere(r, part2, And(top, mask2));
    r := AddWhere(r, part1, And(top, mask1));
  }

  /** tst; addne */
  method AddWhere(x: Word, part: Word, test: nat) returns (r: Word)
    requires test != 0 ==> x + part < WORD
    ensures r == if test != 0 then x + part else x
  {
    r := if test != 0 then Wrap(x + part) else x;
  }

  lemma ZeroFixups(part3: Word, mask3: Word, part2: Word, mask2: Word, part1: Word, mask1: Word, overdone: Word)
    requires And(overdone, TOP_THREE) == 0
    ensures Fixup(part3, overdone, mask3) == Fixup(part2, overdone, mask2) == Fixup(part1, overdone, mask1) == 0
  {
  }

  /** __umodsi3, with its exact answer for every dividend and divisor. */
  method UModSi3(dividend0: Word, divisor0: Word) returns (r: Word)
    ensures divisor0 == 0 ==> r == 0
    ensures divisor0 > 0 ==> r == dividend0 % divisor0 + Residue(dividend0, divisor0)
    ensures divisor0 > 0 ==> (r == dividend0 % divisor0 <==> !Spoiled(dividend0, divisor0))
    ensures divisor0 >= 4 ==> r == dividend0 % divisor0
  {
    if divisor0 == 0 {
      return 0;
    }
    ExactUnlessSpoiled(dividend0, divisor0);
    if dividend0 < divisor0 {
      SmallDiv(dividend0, divisor0);
      return dividend0;
    }
    var dividend := dividend0;
    assert Pow2(0) == 1;
    var divisor, curbit, e := NibbleShift(dividend, divisor0, 1, divisor0, 0);
    divisor, curbit, e := BitShift(dividend, divisor, curbit, divisor0, e);
    Normalised(dividend0, divisor0, divisor, curbit, e);
    while true
      invariant Aligned(divisor0, divisor, curbit, e)
      invariant dividend == dividend0 % (divisor0 * Pow2(e + 1))
      invariant e >= 30 ==> HighStart(dividend0, divisor0, dividend, divisor, e)
      invariant e < 30 ==> !Spoiled(dividend0, divisor0)
      decreases e
    {
      AlignedRange(divisor0, divisor, curbit, e);
      AlignedShift(divisor0, divisor, curbit, e, 4);
      PassOutcome(dividend0, divisor0, dividend, divisor, curbit, e);
      var left, overdone := Pass(dividend, divisor, curbit, e);
      var ip := curbit;
      if left == 0 || Lsr(curbit, 4) == 0 {
        FixupsRepair(dividend, divisor, overdone, ip, e);
        r := AddBack(left, overdone, Lsr(divisor, 3), Ror(ip, 3), Lsr(divisor, 2), Ror(ip, 2),
                     Lsr(divisor, 1), Ror(ip, 1));
        return;
      }
      dividend := left;
      curbit := Lsr(curbit, 4);
      divisor := Lsr(divisor, 4);
      e := e - 4;
    }
  }

  /** Either way out of the loop the repaired dividend is the answer; otherwise the pass went four
      bits further down and no spoiled input gets there. */
  lemma PassOutcome(n: Word, d: Word, dividend: Word, divisor: Word, curbit: Word, e: nat)
    requires Aligned(d, divisor, curbit, e) && e < 32
    requires dividend == n % (d * Pow2(e + 1))
    requires e >= 30 ==> HighStart(n, d, dividend, divisor, e)
    requires e < 30 ==> !Spoiled(n, d)
    ensures Left(dividend, divisor, 3) == 0 || e < 4 ==>
              Repaired(dividend, divisor, e) == n % d + Residue(n, d)
    ensures Left(dividend, divisor, 3) != 0 && e >= 4 ==>
              !Spoiled(n, d) && Left(dividend, divisor, 3) == n % (d * Pow2(e - 3))
  {
    if e < 4 {
      LastPass(n, d, dividend, divisor, curbit, e);
    } else {
      LeftMod(n, d, dividend, divisor, curbit, e, 3);
      if e >= 30 {
        HighPass(n, d, divisor, curbit, e);
      } else if Left(dividend, divisor, 3) == 0 {
        EarlyExit(n, d, dividend, divisor, curbit, e);
      }
    }
  }
}
