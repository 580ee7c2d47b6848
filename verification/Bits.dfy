/** Machine words as bounded integers, and the bitwise operations the ARM routines and the
    descriptor builders use on them.  Every operation is defined bit by bit; the lemmas say when
    it coincides with ordinary arithmetic. */
module Bits {

  const WORD := 0x1_0000_0000
  type Word = x: int | 0 <= x < WORD
  const DWORD := 0x1_0000_0000_0000_0000
  type DWord = x: int | 0 <= x < DWORD

  function Pow2(n: nat): (p: nat)
    ensures p >= 1
  {
    if n == 0 then 1 else 2 * Pow2(n - 1)
  }

  lemma {:induction false} Pow2Add(m: nat, n: nat)
    ensures Pow2(m + n) == Pow2(m) * Pow2(n)
  {
    if m == 0 {
    } else {
      Pow2Add(m - 1, n);
      assert Pow2(m + n) == 2 * Pow2(m - 1 + n);
      MulAssociate(2, Pow2(m - 1), Pow2(n));
    }
  }

  lemma Pow2Small()
    ensures Pow2(0) == 1 && Pow2(1) == 2 && Pow2(2) == 4 && Pow2(3) == 8 && Pow2(4) == 16
  {
  }

  lemma Pow2Byte()
    ensures Pow2(5) == 32 && Pow2(8) == 0x100
  {
    Pow2Small();
    Pow2Add(4, 1);
    Pow2Add(4, 4);
  }

  lemma Pow2Half()
    ensures Pow2(12) == 0x1000 && Pow2(16) == 0x1_0000
  {
    Pow2Byte();
    Pow2Small();
    Pow2Add(8, 4);
    Pow2Add(8, 8);
  }

  lemma Pow2Word()
    ensures Pow2(32) == WORD && Pow2(31) == 0x8000_0000 && Pow2(29) == 0x2000_0000 && Pow2(28) == 0x1000_0000
  {
    Pow2Half();
    Pow2Add(16, 12);
    Pow2Add(16, 16);
    assert Pow2(29) == 2 * Pow2(28);
    assert Pow2(32) == 2 * Pow2(31);
  }

  lemma {:induction false} Pow2Less(m: nat, n: nat)
    requires m < n
    ensures 2 * Pow2(m) <= Pow2(n)
  {
    if m + 1 < n {
      Pow2Less(m, n - 1);
    }
  }

  /** Bit number `i` of `x`. */
  predicate Bit(x: nat, i: nat)
    decreases i
  {
    if i == 0 then x % 2 == 1 else Bit(x / 2, i - 1)
  }

  function And(a: nat, b: nat): (r: nat)
    ensures r <= a && r <= b
    decreases a + b
  {
    if a == 0 || b == 0 then 0
    else (if a % 2 == 1 && b % 2 == 1 then 1 else 0) + 2 * And(a / 2, b / 2)
  }

  function Or(a: nat, b: nat): (r: nat)
    ensures a <= r && b <= r <= a + b
    decreases a + b
  {
    if a == 0 && b == 0 then 0
    else (if a % 2 == 1 || b % 2 == 1 then 1 else 0) + 2 * Or(a / 2, b / 2)
  }

  function Xor(a: nat, b: nat): (r: nat)
    ensures r <= a + b
    decreases a + b
  {
    if a == 0 && b == 0 then 0
    else (if a % 2 != b % 2 then 1 else 0) + 2 * Xor(a / 2, b / 2)
  }

  lemma {:induction false} ZeroBit(i: nat)
    ensures !Bit(0, i)
  {
    if i > 0 {
      ZeroBit(i - 1);
    }
  }

  lemma {:induction false} AndBit(a: nat, b: nat, i: nat)
    ensures Bit(And(a, b), i) <==> Bit(a, i) && Bit(b, i)
    decreases i
  {
    if a == 0 || b == 0 {
      ZeroBit(i);
    } else if i > 0 {
      AndBit(a / 2, b / 2, i - 1);
    }
  }

  lemma {:induction false} OrBit(a: nat, b: nat, i: nat)
    ensures Bit(Or(a, b), i) <==> Bit(a, i) || Bit(b, i)
    decreases i
  {
    if a == 0 && b == 0 {
      ZeroBit(i);
    } else if i > 0 {
      OrBit(a / 2, b / 2, i - 1);
    }
  }

  lemma {:induction false} XorBit(a: nat, b: nat, i: nat)
    ensures Bit(Xor(a, b), i) <==> Bit(a, i) != Bit(b, i)
    decreases i
  {
    if a == 0 && b == 0 {
      ZeroBit(i);
    } else if i > 0 {
      XorBit(a / 2, b / 2, i - 1);
    }
  }

  /** A power of two has exactly one bit. */
  lemma {:induction false} Pow2Bit(k: nat, i: nat)
    ensures Bit(Pow2(k), i) <==> i == k
    decreases i
  {
    if i > 0 {
      if k > 0 {
        assert Pow2(k) / 2 == Pow2(k - 1);
        Pow2Bit(k - 1, i - 1);
      } else {
        ZeroBit(i - 1);
      }
    }
  }

  /** The top bit of a word that fits in `k + 1` bits is a comparison. */
  lemma {:induction false} TopBit(x: nat, k: nat)
    requires x < Pow2(k + 1)
    ensures Bit(x, k) <==> x >= Pow2(k)
  {
    if k > 0 {
      TopBit(x / 2, k - 1);
    }
  }

  /** OR of numbers that share no bit is addition: `a` is a multiple of 2^k and `b` is below 2^k. */
  lemma {:induction false} OrIsAdd(a: nat, b: nat, k: nat)
    requires a % Pow2(k) == 0 && b < Pow2(k)
    ensures Or(a, b) == a + b
    decreases k
  {
    if k == 0 {
      OrZero(a);
    } else {
      var p := Pow2(k - 1);
      HalfMultiple(a, p);
      OrIsAdd(a / 2, b / 2, k - 1);
    }
  }

  lemma HalfMultiple(a: nat, p: nat)
    requires p > 0 && a % (2 * p) == 0
    ensures a % 2 == 0 && (a / 2) % p == 0
  {
    var q := a / (2 * p);
    assert a == 2 * (p * q);
    MultipleMod(q, p);
  }

  lemma MultipleMod(q: nat, p: nat)
    requires p > 0
    ensures (p * q) % p == 0 && (q * p) % p == 0 && (p * q) / p == q
  {
    DivModUnique(p * q, p, q, 0);
  }

  lemma ExactDiv(x: int, a: int, b: int)
    requires b > 0 && x == a * b
    ensures x / b == a && x % b == 0
  {
    DivModUnique(x, b, a, 0);
  }

  lemma SmallDiv(x: int, d: int)
    requires 0 <= x < d
    ensures x / d == 0 && x % d == x
  {
    DivModUnique(x, d, 0, x);
  }

  lemma MulAssociate(a: int, b: int, c: int)
    ensures (a * b) * c == a * (b * c)
  {
  }

  /** Quotient and remainder are determined by x == q * d + r with 0 <= r < d. */
  lemma DivModUnique(x: int, d: int, q: int, r: int)
    requires d > 0 && 0 <= r < d && x == q * d + r
    ensures x / d == q && x % d == r
  {
    var k := x / d - q;
    assert k * d == r - x % d;
    if k >= 1 {
      MulMonotone(1, k, d);
    } else if k <= -1 {
      MulMonotone(k, -1, d);
    }
  }

  lemma MulMonotone(a: int, b: int, c: int)
    requires a <= b && c >= 0
    ensures a * c <= b * c
  {
    assert (b - a) * c >= 0;
  }

  lemma {:induction false} OrZero(a: nat)
    ensures Or(a, 0) == a && Or(0, a) == a
  {
    if a > 0 {
      OrZero(a / 2);
    }
  }

  /** ANDing with the low mask 2^k - 1 is remainder by 2^k. */
  lemma {:induction false} AndLowMask(a: nat, k: nat)
    ensures And(a, Pow2(k) - 1) == a % Pow2(k)
    decreases k
  {
    if k > 0 {
      var p := Pow2(k - 1);
      AndLowMask(a / 2, k - 1);
      HalfMod(a, p);
      OddMask(a, p);
    }
  }

  lemma OddMask(a: nat, p: nat)
    requires p > 0
    ensures And(a, 2 * p - 1) == a % 2 + 2 * And(a / 2, p - 1)
  {
    DivModUnique(2 * p - 1, 2, p - 1, 1);
    var b := 2 * p - 1;
    assert And(a, b) == if a == 0 then 0 else a % 2 + 2 * And(a / 2, b / 2);
  }

  lemma HalfMod(a: nat, p: nat)
    requires p > 0
    ensures a % (2 * p) == a % 2 + 2 * ((a / 2) % p)
  {
    var q, r := (a / 2) / p, (a / 2) % p;
    assert a / 2 == q * p + r;
    assert a == q * (2 * p) + (2 * r + a % 2);
    DivModUnique(a, 2 * p, q, 2 * r + a % 2);
  }

  /** ANDing with a single bit tests that bit. */
  lemma {:induction false} AndOneBit(a: nat, k: nat)
    ensures And(a, Pow2(k)) == if Bit(a, k) then Pow2(k) else 0
    decreases k
  {
    if a == 0 {
      ZeroBit(k);
    } else if k == 0 {
    } else {
      AndOneBit(a / 2, k - 1);
    }
  }

  /** ANDing with the complement of a low mask clears the low bits. */
  lemma {:induction false} AndHighMask(a: nat, k: nat, w: nat)
    requires k <= w && a < Pow2(w)
    ensures Pow2(k) <= Pow2(w) && And(a, Pow2(w) - Pow2(k)) == a - a % Pow2(k)
    decreases k
  {
    if k == 0 {
      AndLowMask(a, w);
      SmallDiv(a, Pow2(w));
    } else {
      AndHighMask(a / 2, k - 1, w - 1);
      HalfMod(a, Pow2(k - 1));
      EvenMask(a, Pow2(w - 1) - Pow2(k - 1));
    }
  }

  lemma EvenMask(a: nat, m: nat)
    ensures And(a, 2 * m) == 2 * And(a / 2, m)
  {
    ExactDiv(2 * m, m, 2);
    var b := 2 * m;
    assert And(a, b) == if a == 0 || b == 0 then 0 else 2 * And(a / 2, b / 2);
  }

  lemma {:induction false} OrOneBit(a: nat, k: nat)
    ensures Or(a, Pow2(k)) == if Bit(a, k) then a else a + Pow2(k)
    decreases k
  {
    if k == 0 {
      OrZero(a / 2);
    } else {
      OrOneBit(a / 2, k - 1);
    }
  }

  lemma {:induction false} OrCommutes(a: nat, b: nat)
    ensures Or(a, b) == Or(b, a)
    decreases a + b
  {
    if a > 0 || b > 0 {
      OrCommutes(a / 2, b / 2);
    }
  }

  /** Bit i is what division by 2^i makes the lowest bit. */
  lemma {:induction false} BitIsQuotient(x: nat, i: nat)
    ensures Bit(x, i) <==> x / Pow2(i) % 2 == 1
  {
    if i > 0 {
      BitIsQuotient(x / 2, i - 1);
      DivideTwice(x, 2, Pow2(i - 1));
    }
  }

  lemma DivideTwice(x: nat, a: nat, b: nat)
    requires a > 0 && b > 0
    ensures a * b > 0 && x / a / b == x / (a * b)
  {
    var q, r := x / a, x % a;
    var q', r' := q / b, q % b;
    assert x == q * a + r && q == q' * b + r';
    assert x == q' * (a * b) + (r' * a + r);
    MulMonotone(r' + 1, b, a);
    MulMonotone(0, r', a);
    MulMonotone(1, a, b);
    DivModUnique(x, a * b, q', r' * a + r);
  }

  // ---- shifts on 32-bit registers ----

  function Lsl(x: Word, k: nat): Word { x * Pow2(k) % WORD }
  function Lsr(x: Word, k: nat): Word
  {
    ShiftBound(x, Pow2(k));
    x / Pow2(k)
  }

  /** Rotate right by 0 < k < 32. */
  function Ror(x: Word, k: nat): Word
    requires 0 < k < 32
  {
    RorBound(x, k);
    x / Pow2(k) + (x % Pow2(k)) * Pow2(32 - k)
  }

  lemma ShiftBound(x: nat, p: nat)
    requires p > 0
    ensures 0 <= x / p <= x
  {
    var q := x / p;
    assert x == q * p + x % p;
    if q <= -1 {
      MulMonotone(q, -1, p);
    } else {
      MulMonotone(1, p, q);
    }
  }

  lemma RorBound(x: Word, k: nat)
    requires 0 < k < 32
    ensures 0 <= x / Pow2(k) + (x % Pow2(k)) * Pow2(32 - k) < WORD
  {
    var p, r := Pow2(k), Pow2(32 - k);
    Pow2Product(k, p, r);
    Recombine(x, p, r);
  }

  lemma Pow2Product(k: nat, p: nat, r: nat)
    requires k < 32 && p == Pow2(k) && r == Pow2(32 - k)
    ensures p * r == WORD
  {
    Pow2Add(k, 32 - k);
    Pow2Word();
  }

  lemma Recombine(x: nat, p: nat, r: nat)
    requires p > 0 && x < p * r
    ensures 0 <= x / p + (x % p) * r < p * r
  {
    var q, m := x / p, x % p;
    assert x == q * p + m;
    if q >= r {
      MulMonotone(r, q, p);
    }
    MulMonotone(m, p - 1, r);
    MulMonotone(0, m, r);
    assert (p - 1) * r == p * r - r;
  }

  /** OR of two registers stays a register. */
  function OrWord(a: Word, b: Word): (r: Word)
    ensures r == Or(a, b)
  {
    Pow2Word();
    OrBelow(a, b, 32);
    Or(a, b)
  }

  lemma {:induction false} OrBelow(a: nat, b: nat, k: nat)
    requires a < Pow2(k) && b < Pow2(k)
    ensures Or(a, b) < Pow2(k)
    decreases k
  {
    if k > 0 {
      OrBelow(a / 2, b / 2, k - 1);
    }
  }

  /** Two's complement: the value of a register read as a signed number, and back. */
  function Signed(x: Word): int { if x < 0x8000_0000 then x else x - WORD }
  function Wrap(x: int): Word { x % WORD }
  function Negate(x: Word): Word { (WORD - x) % WORD }
}
