/** Integer to decimal text: put_dec_trunc, put_dec_full and put_dec of vsprintf.c.  Digits come out
    least significant first, and every division by ten is a multiplication by a reciprocal. */
module Decimal {
  import opened Bits
  import opened Div64

  // ---- digit sequences, least significant digit first ----

  /** The digits of n in the given base, without leading zeros (one zero for zero). */
  function Reversed(n: nat, base: nat): (ds: seq<nat>)
    requires base >= 2
    ensures |ds| >= 1
    decreases n
  {
    if n < base then [n] else Quotient(n, base); [n % base] + Reversed(n / base, base)
  }

  lemma Quotient(n: nat, base: nat)
    requires 2 <= base <= n
    ensures 1 <= n / base < n && 0 <= n % base < base && n == base * (n / base) + n % base
  {
    var q := n / base;
    assert n == q * base + n % base;
    if q <= 0 {
      MulMonotone(q, 0, base);
    }
    MulMonotone(2, base, q);
  }

  /** The number a digit sequence stands for. */
  function Value(ds: seq<nat>, base: nat): nat
  {
    if ds == [] then 0 else ds[0] + base * Value(ds[1..], base)
  }

  ghost predicate Canonical(ds: seq<nat>, base: nat)
  {
    && ds != []
    && (forall i :: 0 <= i < |ds| ==> ds[i] < base)
    && (|ds| > 1 ==> ds[|ds| - 1] != 0)
  }

  /** Reversed yields the canonical digits of n... */
  lemma {:induction false} ReversedCanonical(n: nat, base: nat)
    requires base >= 2
    ensures Canonical(Reversed(n, base), base) && Value(Reversed(n, base), base) == n
    decreases n
  {
    if n >= base {
      Quotient(n, base);
      ReversedCanonical(n / base, base);
      var rest := Reversed(n / base, base);
      assert Reversed(n, base) == [n % base] + rest;
      if |rest| == 1 {
        assert rest == [n / base];
      }
    } else {
      assert Value([n], base) == n + base * Value([], base);
    }
  }

  /** ... and a canonical sequence is determined by its value. */
  lemma {:induction false} CanonicalUnique(ds: seq<nat>, base: nat)
    requires base >= 2 && Canonical(ds, base)
    ensures ds == Reversed(Value(ds, base), base)
  {
    var rest := ds[1..];
    var n := Value(ds, base);
    DivModUnique(n, base, Value(rest, base), ds[0]);
    if rest == [] {
      assert n == ds[0];
    } else {
      assert rest[|rest| - 1] == ds[|ds| - 1];
      CanonicalUnique(rest, base);
      CanonicalPositive(rest, base);
      MulMonotone(1, Value(rest, base), base);
      assert ds == [ds[0]] + rest;
    }
  }

  lemma {:induction false} CanonicalPositive(ds: seq<nat>, base: nat)
    requires base >= 2 && ds != [] && ds[|ds| - 1] != 0
    ensures Value(ds, base) >= 1
  {
    if |ds| > 1 {
      CanonicalPositive(ds[1..], base);
      MulMonotone(1, Value(ds[1..], base), base);
    }
  }

  function DecChar(d: nat): char
    requires d < 10
  {
    '0' + d as char
  }

  function DecText(ds: seq<nat>): (t: seq<char>)
    requires forall i :: 0 <= i < |ds| ==> ds[i] < 10
    ensures |t| == |ds|
  {
    seq(|ds|, i requires 0 <= i < |ds| => DecChar(ds[i]))
  }

  function DecReversed(n: nat): (t: seq<char>)
    ensures |t| >= 1
  {
    ReversedCanonical(n, 10);
    DecText(Reversed(n, 10))
  }

  lemma DecReversedStep(n: nat)
    ensures n < 10 ==> DecReversed(n) == [DecChar(n)]
    ensures n >= 10 ==> DecReversed(n) == [DecChar(n % 10)] + DecReversed(n / 10)
  {
    ReversedCanonical(n, 10);
    ReversedCanonical(n / 10, 10);
  }

  // ---- the reciprocals ----

  /** x * 0xcd >> 11 is x / 10 on the sums that arise. */
  lemma By205(x: nat)
    requires x <= 339
    ensures x * 0xcd / 2048 == x / 10
  {
  }

  /** x * 0xd >> 7 is x / 10 only up to 68. */
  lemma By13(x: nat)
    requires x <= 68
    ensures x * 0xd / 128 == x / 10
  {
  }

  lemma By13Fails()
    ensures 69 * 0xd / 128 != 69 / 10
  {
  }

  /** The hexadecimal digits of a number below 100000; the top one holds up to 24. */
  datatype Hex = Hex(d3: nat, d2: nat, d1: nat, d0: nat) {
    predicate Of(q: nat)
    {
      d3 <= 24 && d2 <= 15 && d1 <= 15 && d0 <= 15 && q == 4096 * d3 + 256 * d2 + 16 * d1 + d0
    }
  }

  method Nibbles(q: Word) returns (h: Hex)
    requires q < 100000
    ensures h.Of(q)
  {
    assert Pow2(4) == 16;
    AndLowMask(q, 4);
    AndLowMask(q / 16, 4);
    AndLowMask(q / 256, 4);
    assert q / 256 == q / 16 / 16 && q / 4096 == q / 256 / 16;
    h := Hex(q / 4096, And(q / 256, 0xf), And(q / 16, 0xf), And(q, 0xf));
  }

  /** The lowest sum, and the next one with the carry. */
  function Sum0(h: Hex): nat { 6 * (h.d3 + h.d2 + h.d1) + h.d0 }
  function Sum1(h: Hex): nat { Sum0(h) / 10 + 9 * h.d3 + 5 * h.d2 + h.d1 }

  /** Both stay below 340; the first gives the last digit and the second carries the rest. */
  lemma Sums(h: Hex, q: nat)
    requires h.Of(q) && q < 100000
    ensures Sum0(h) <= 339 && Sum1(h) <= 339
    ensures q % 10 == Sum0(h) % 10 && q / 10 == Sum1(h) + 10 * (40 * h.d3 + 2 * h.d2) < 10000
    ensures Sum1(h) == 0 <==> q / 10 == 0
  {
    Carry(q, Sum0(h), 409 * h.d3 + 25 * h.d2 + h.d1);
  }

  lemma Carry(q: nat, s: nat, m: nat)
    requires q == s + 10 * m
    ensures q % 10 == s % 10 && q / 10 == s / 10 + m
  {
    DivModUnique(q, 10, s / 10 + m, s % 10);
  }

  /** The k lowest decimal digits of q, zeros included. */
  function Fixed(q: nat, k: nat): (t: seq<char>)
    ensures |t| == k
  {
    if k == 0 then [] else [DecChar(q % 10)] + Fixed(q / 10, k - 1)
  }

  // ---- output ----

  /** *buf++ = c */
  method Put(buf: array<char>, at: nat, c: char) returns (next: nat)
    requires at < buf.Length
    modifies buf
    ensures next == at + 1
    ensures buf[..next] == old(buf[..at]) + [c]
    ensures forall k :: next <= k < buf.Length ==> buf[k] == old(buf[k])
  {
    buf[at] := c;
    next := at + 1;
  }

  /** q = (x * 0xcd) >> 11; x = x - 10 * q; *buf++ = x + '0' */
  method PutDigit(buf: array<char>, at: nat, x: nat) returns (next: nat, q: nat)
    requires at < buf.Length && x <= 339
    modifies buf
    ensures next == at + 1 && q == x / 10
    ensures buf[..next] == old(buf[..at]) + [DecChar(x % 10)]
    ensures forall k :: next <= k < buf.Length ==> buf[k] == old(buf[k])
  {
    By205(x);
    q := x * 0xcd / 2048;
    next := Put(buf, at, DecChar(x - 10 * q));
  }

  /** q = (x * 0xd) >> 7; x = x - 10 * q; *buf++ = x + '0' */
  method PutDigitShort(buf: array<char>, at: nat, x: nat) returns (next: nat, q: nat)
    requires at < buf.Length && x <= 68
    modifies buf
    ensures next == at + 1 && q == x / 10
    ensures buf[..next] == old(buf[..at]) + [DecChar(x % 10)]
    ensures forall k :: next <= k < buf.Length ==> buf[k] == old(buf[k])
  {
    By13(x);
    q := x * 0xd / 128;
    next := Put(buf, at, DecChar(x - 10 * q));
  }

  // put_dec_full and put_dec_trunc compute the same sums (Jones's method): each digit's sum is the
  // carry from the digit below plus small multiples of the hexadecimal digits.  They are followed
  // here level by level; `n` is the number whose decimal digits remain to be written.

  /** put_dec_full from its fourth digit on. */
  method FullThousands(buf: array<char>, at: nat, d3: nat) returns (end: nat)
    requires d3 < 100 && at + 2 <= buf.Length
    modifies buf
    ensures end == at + 2
    ensures buf[..end] == old(buf[..at]) + Fixed(d3, 2)
    ensures forall k :: end <= k < buf.Length ==> buf[k] == old(buf[k])
  {
    var q;
    end, q := PutDigit(buf, at, d3);
    end := Put(buf, end, DecChar(q));
    assert Fixed(d3, 2) == [DecChar(d3 % 10)] + Fixed(q, 1);
    assert Fixed(q, 1) == [DecChar(q)];
  }

  /** put_dec_full from its third digit on. */
  method FullHundreds(buf: array<char>, at: nat, d3: nat, d2: nat, ghost n: nat) returns (end: nat)
    requires d2 <= 63 && n == d2 + 10 * (4 * d3) && n < 1000 && at + 3 <= buf.Length
    modifies buf
    ensures end == at + 3
    ensures buf[..end] == old(buf[..at]) + Fixed(n, 3)
    ensures forall k :: end <= k < buf.Length ==> buf[k] == old(buf[k])
  {
    var q;
    Carry(n, d2, 4 * d3);
    end, q := PutDigitShort(buf, at, d2);
    end := FullThousands(buf, end, q + 4 * d3);
  }

  /** put_dec_full from its second digit on. */
  method FullTens(buf: array<char>, at: nat, d3: nat, d2: nat, d1: nat, ghost n: nat) returns (end: nat)
    requires d1 <= 339 && d2 <= 15 && n == d1 + 10 * (40 * d3 + 2 * d2) && n < 10000 && at + 4 <= buf.Length
    modifies buf
    ensures end == at + 4
    ensures buf[..end] == old(buf[..at]) + Fixed(n, 4)
    ensures forall k :: end <= k < buf.Length ==> buf[k] == old(buf[k])
  {
    var q;
    Carry(n, d1, 40 * d3 + 2 * d2);
    end, q := PutDigit(buf, at, d1);
    end := FullHundreds(buf, end, d3, q + 2 * d2, n / 10);
  }

  /** put_dec_full: always five digits. */
  method PutDecFull(buf: array<char>, at: nat, q0: Word) returns (end: nat)
    requires q0 < 100000 && at + 5 <= buf.Length
    modifies buf
    ensures end == at + 5
    ensures buf[..end] == old(buf[..at]) + Fixed(q0, 5)
    ensures forall k :: end <= k < buf.Length ==> buf[k] == old(buf[k])
  {
    var h := Nibbles(q0);
    var d0 := 6 * (h.d3 + h.d2 + h.d1) + h.d0;
    Sums(h, q0);
    end := FullUnits(buf, at, h, d0, q0);
  }

  /** put_dec_full from its first digit on. */
  method FullUnits(buf: array<char>, at: nat, h: Hex, d0: nat, ghost n: nat) returns (end: nat)
    requires h.Of(n) && d0 == Sum0(h) <= 339 && Sum1(h) <= 339 && at + 5 <= buf.Length
    requires n % 10 == d0 % 10 && n / 10 == Sum1(h) + 10 * (40 * h.d3 + 2 * h.d2) < 10000
    modifies buf
    ensures end == at + 5
    ensures buf[..end] == old(buf[..at]) + Fixed(n, 5)
    ensures forall k :: end <= k < buf.Length ==> buf[k] == old(buf[k])
  {
    var q;
    end, q := PutDigit(buf, at, d0);
    end := FullTens(buf, end, h.d3, h.d2, q + 9 * h.d3 + 5 * h.d2 + h.d1, n / 10);
  }

  /** put_dec_trunc from its fourth digit on. */
  method TruncThousands(buf: array<char>, at: nat, d3: nat) returns (end: nat)
    requires 0 < d3 < 100 && at + |DecReversed(d3)| <= buf.Length
    modifies buf
    ensures end == at + |DecReversed(d3)|
    ensures buf[..end] == old(buf[..at]) + DecReversed(d3)
    ensures forall k :: end <= k < buf.Length ==> buf[k] == old(buf[k])
  {
    var q;
    DecReversedStep(d3);
    DecReversedStep(d3 / 10);
    end, q := PutDigit(buf, at, d3);
    if q != 0 {
      end := Put(buf, end, DecChar(q));
    }
  }

  /** put_dec_trunc from its third digit on. */
  method TruncHundreds(buf: array<char>, at: nat, d3: nat, d2: nat, ghost n: nat) returns (end: nat)
    requires d2 <= 63 && n == d2 + 10 * (4 * d3) && 0 < n < 1000 && at + |DecReversed(n)| <= buf.Length
    modifies buf
    ensures end == at + |DecReversed(n)|
    ensures buf[..end] == old(buf[..at]) + DecReversed(n)
    ensures forall k :: end <= k < buf.Length ==> buf[k] == old(buf[k])
  {
    var q;
    Carry(n, d2, 4 * d3);
    DecReversedStep(n);
    end, q := PutDigitShort(buf, at, d2);
    if q + 4 * d3 != 0 {
      end := TruncThousands(buf, end, q + 4 * d3);
    }
  }

  /** put_dec_trunc from its second digit on. */
  method TruncTens(buf: array<char>, at: nat, d3: nat, d2: nat, d1: nat, ghost n: nat) returns (end: nat)
    requires d1 <= 339 && d2 <= 15 && n == d1 + 10 * (40 * d3 + 2 * d2) && 0 < n < 10000
    requires at + |DecReversed(n)| <= buf.Length
    modifies buf
    ensures end == at + |DecReversed(n)|
    ensures buf[..end] == old(buf[..at]) + DecReversed(n)
    ensures forall k :: end <= k < buf.Length ==> buf[k] == old(buf[k])
  {
    var q;
    Carry(n, d1, 40 * d3 + 2 * d2);
    DecReversedStep(n);
    end, q := PutDigit(buf, at, d1);
    var d2 := q + 2 * d2;
    if d2 != 0 || d3 != 0 {
      end := TruncHundreds(buf, end, d3, d2, n / 10);
    }
  }

  /** put_dec_trunc: the same sums, stopping where only zeros are left. */
  method PutDecTrunc(buf: array<char>, at: nat, q0: Word) returns (end: nat)
    requires q0 < 100000 && at + |DecReversed(q0)| <= buf.Length
    modifies buf
    ensures end == at + |DecReversed(q0)|
    ensures buf[..end] == old(buf[..at]) + DecReversed(q0)
    ensures forall k :: end <= k < buf.Length ==> buf[k] == old(buf[k])
  {
    var h := Nibbles(q0);
    var d0 := 6 * (h.d3 + h.d2 + h.d1) + h.d0;
    Sums(h, q0);
    end := TruncUnits(buf, at, h, d0, q0);
  }

  /** put_dec_trunc from its first digit on. */
  method TruncUnits(buf: array<char>, at: nat, h: Hex, d0: nat, ghost n: nat) returns (end: nat)
    requires h.Of(n) && d0 == Sum0(h) <= 339 && Sum1(h) <= 339 && at + |DecReversed(n)| <= buf.Length
    requires n % 10 == d0 % 10 && n / 10 == Sum1(h) + 10 * (40 * h.d3 + 2 * h.d2) < 10000
    requires Sum1(h) == 0 <==> n / 10 == 0
    modifies buf
    ensures end == at + |DecReversed(n)|
    ensures buf[..end] == old(buf[..at]) + DecReversed(n)
    ensures forall k :: end <= k < buf.Length ==> buf[k] == old(buf[k])
  {
    var q;
    DecReversedStep(n);
    end, q := PutDigit(buf, at, d0);
    var d1 := q + 9 * h.d3 + 5 * h.d2 + h.d1;
    if d1 != 0 {
      end := TruncTens(buf, end, h.d3, h.d2, d1, n / 10);
    }
  }

  /** A chunk of k digits splits off the text of a number that has more. */
  lemma {:induction false} ChunkOff(n: nat, p: nat, m: nat, r: nat, k: nat)
    requires p == Pow10(k) && n == p * m + r && m > 0 && r < p
    ensures DecReversed(n) == Fixed(r, k) + DecReversed(m)
    decreases k
  {
    if k == 0 {
      assert DecReversed(n) == [] + DecReversed(m);
    } else {
      var p' := Pow10(k - 1);
      assert p * m == 10 * (p' * m);
      Carry(n, r, p' * m);
      MulMonotone(1, m, p);
      MulMonotone(1, m, p');
      ChunkOff(n / 10, p', m, r / 10, k - 1);
      if k == 1 { assert p == 10; }
      DecReversedStep(n);
      assert [DecChar(r % 10)] + (Fixed(r / 10, k - 1) + DecReversed(m))
          == [DecChar(r % 10)] + Fixed(r / 10, k - 1) + DecReversed(m);
    }
  }

  /** rem = do_div(num, 100000) */
  method TakeFive(num: DWord) returns (num': DWord, rem: Word)
    requires num >= 100000
    ensures num' < num && rem < 100000
    ensures DecReversed(num) == Fixed(rem, 5) + DecReversed(num')
  {
    num', rem := DoDiv(num, 100000);
    assert Pow10(5) == 100000;
    ChunkOff(num, 100000, num', rem, 5);
  }

  function Pow10(k: nat): (p: nat) ensures p >= 1 { if k == 0 then 1 else 10 * Pow10(k - 1) }

  /** put_dec */
  method PutDec(buf: array<char>, at: nat, num0: DWord) returns (end: nat)
    requires at + |DecReversed(num0)| <= buf.Length
    modifies buf
    ensures end == at + |DecReversed(num0)|
    ensures buf[..end] == old(buf[..at]) + DecReversed(num0)
    ensures forall k :: end <= k < buf.Length ==> buf[k] == old(buf[k])
  {
    var num: DWord := num0;
    end := at;
    ghost var before, done: seq<char> := buf[..at], [];
    while num >= 100000
      invariant DecReversed(num0) == done + DecReversed(num)
      invariant end == at + |done|
      invariant buf[..end] == before + done
      invariant forall k :: end <= k < buf.Length ==> buf[k] == old(buf[k])
      decreases num
    {
      var rem;
      num, rem := TakeFive(num);
      Regroup(done, Fixed(rem, 5), DecReversed(num));
      Regroup(before, done, Fixed(rem, 5));
      end := PutDecFull(buf, end, rem);
      done := done + Fixed(rem, 5);
    }
    Regroup(before, done, DecReversed(num));
    end := PutDecTrunc(buf, end, num);
  }

  lemma Regroup(a: seq<char>, b: seq<char>, c: seq<char>)
    ensures a + (b + c) == (a + b) + c
  {
  }
}
