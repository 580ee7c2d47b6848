/** memmove, memcpy and memset of string.c, over a byte-addressed memory whose index is the address.
    A machine word is four bytes, least significant first. */
module Memory {
  import opened Bits

  type Byte = x: int | 0 <= x < 0x100

  const WORD_SIZE := 4

  // ---- words in memory ----

  function Pack(b0: Byte, b1: Byte, b2: Byte, b3: Byte): Word
  {
    b0 + 0x100 * b1 + 0x1_0000 * b2 + 0x100_0000 * b3
  }

  function ByteOf(w: Word, i: nat): Byte
    requires i < WORD_SIZE
  {
    if i == 0 then w % 0x100
    else if i == 1 then w / 0x100 % 0x100
    else if i == 2 then w / 0x1_0000 % 0x100
    else w / 0x100_0000
  }

  lemma Unpack(b0: Byte, b1: Byte, b2: Byte, b3: Byte)
    ensures var w := Pack(b0, b1, b2, b3);
      ByteOf(w, 0) == b0 && ByteOf(w, 1) == b1 && ByteOf(w, 2) == b2 && ByteOf(w, 3) == b3
  {
    var w := Pack(b0, b1, b2, b3);
    DivModUnique(w, 0x100, b1 + 0x100 * b2 + 0x1_0000 * b3, b0);
    DivModUnique(w, 0x1_0000, b2 + 0x100 * b3, b0 + 0x100 * b1);
    DivModUnique(w, 0x100_0000, b3, b0 + 0x100 * b1 + 0x1_0000 * b2);
  }

  function Load(mem: array<Byte>, a: nat): Word
    requires a + WORD_SIZE <= mem.Length && a % WORD_SIZE == 0
    reads mem
  {
    Pack(mem[a], mem[a + 1], mem[a + 2], mem[a + 3])
  }

  method Store(mem: array<Byte>, a: nat, w: Word)
    requires a + WORD_SIZE <= mem.Length && a % WORD_SIZE == 0
    modifies mem
    ensures mem[a] == ByteOf(w, 0) && mem[a + 1] == ByteOf(w, 1)
    ensures mem[a + 2] == ByteOf(w, 2) && mem[a + 3] == ByteOf(w, 3)
    ensures forall k :: 0 <= k < mem.Length && !(a <= k < a + WORD_SIZE) ==> mem[k] == old(mem[k])
  {
    mem[a] := ByteOf(w, 0);
    mem[a + 1] := ByteOf(w, 1);
    mem[a + 2] := ByteOf(w, 2);
    mem[a + 3] := ByteOf(w, 3);
  }

  /** *dl = *sl on aligned addresses copies four bytes, all read before any is written. */
  method CopyWord(mem: array<Byte>, dl: nat, sl: nat)
    requires dl + WORD_SIZE <= mem.Length && sl + WORD_SIZE <= mem.Length
    requires dl % WORD_SIZE == 0 && sl % WORD_SIZE == 0
    modifies mem
    ensures forall k :: dl <= k < dl + WORD_SIZE ==> mem[k] == old(mem[k - dl + sl])
    ensures forall k :: 0 <= k < mem.Length && !(dl <= k < dl + WORD_SIZE) ==> mem[k] == old(mem[k])
  {
    Unpack(mem[sl], mem[sl + 1], mem[sl + 2], mem[sl + 3]);
    Store(mem, dl, Load(mem, sl));
  }

  // ---- the routines ----

  /** memmove: the destination receives the old source, whatever the overlap. */
  method MemMove(mem: array<Byte>, dest: nat, src: nat, count: nat)
    requires dest + count <= mem.Length && src + count <= mem.Length
    modifies mem
    ensures mem[dest..dest + count] == old(mem[src..src + count])
    ensures forall k :: 0 <= k < mem.Length && !(dest <= k < dest + count) ==> mem[k] == old(mem[k])
  {
    ghost var was := mem[..];
    if dest <= src {
      var tmp, s, left := dest, src, count;
      while left > 0
        invariant 0 <= left <= count && tmp == dest + (count - left) && s == src + (count - left)
        invariant Moved(was, mem[..], dest, src, dest, tmp)
      {
        mem[tmp] := mem[s];
        tmp, s, left := tmp + 1, s + 1, left - 1;
      }
    } else {
      var tmp, s, left := dest + count, src + count, count;
      while left > 0
        invariant 0 <= left <= count && tmp == dest + left && s == src + left
        invariant Moved(was, mem[..], dest, src, tmp, dest + count)
      {
        tmp, s, left := tmp - 1, s - 1, left - 1;
        mem[tmp] := mem[s];
      }
    }
    MovedAll(was, mem[..], dest, src, count);
  }

  /** Exactly the bytes from lo to hi have received what lay at the same offset from src. */
  ghost predicate Moved(was: seq<Byte>, now: seq<Byte>, dest: nat, src: nat, lo: int, hi: int)
    requires dest <= lo && hi - dest + src <= |was|
  {
    && |now| == |was|
    && (forall k :: lo <= k < hi && k < |now| ==> now[k] == was[k - dest + src])
    && (forall k :: 0 <= k < |now| && !(lo <= k < hi) ==> now[k] == was[k])
  }

  lemma MovedAll(was: seq<Byte>, now: seq<Byte>, dest: nat, src: nat, count: nat)
    requires dest + count <= |was| && src + count <= |was| && Moved(was, now, dest, src, dest, dest + count)
    ensures now[dest..dest + count] == was[src..src + count]
  {
  }

  /** memcpy: whole words while both ends are aligned, then bytes.  Like the byte loop it agrees with,
      it is right whenever the regions do not overlap, and also when the destination comes first. */
  method MemCpy(mem: array<Byte>, dest: nat, src: nat, count0: nat)
    requires dest + count0 <= mem.Length && src + count0 <= mem.Length
    requires dest <= src || src + count0 <= dest
    modifies mem
    ensures mem[dest..dest + count0] == old(mem[src..src + count0])
    ensures forall k :: 0 <= k < mem.Length && !(dest <= k < dest + count0) ==> mem[k] == old(mem[k])
  {
    var dl, sl, count := dest, src, count0;
    ghost var was := mem[..];
    var aligned := AlignedAddresses(dest, src);
    if aligned {
      dl, sl, count := CopyWords(mem, dest, src, count);
    }
    while count > 0
      invariant 0 <= count <= count0 && dl == dest + (count0 - count) && sl == src + (count0 - count)
      invariant Moved(was, mem[..], dest, src, dest, dl)
    {
      mem[dl] := mem[sl];
      dl, sl, count := dl + 1, sl + 1, count - 1;
    }
    MovedAll(was, mem[..], dest, src, count0);
  }

  /** (a & (sizeof(word) - 1)) == 0 */
  method AlignedAddress(a: nat) returns (aligned: bool)
    ensures aligned <==> a % WORD_SIZE == 0
  {
    Pow2Small();
    AndLowMask(a, 2);
    aligned := And(a, WORD_SIZE - 1) == 0;
  }

  /** The word loop of memcpy. */
  method CopyWords(mem: array<Byte>, dest: nat, src: nat, count0: nat) returns (dl: nat, sl: nat, count: nat)
    requires dest + count0 <= mem.Length && src + count0 <= mem.Length
    requires dest <= src || src + count0 <= dest
    requires dest % WORD_SIZE == 0 && src % WORD_SIZE == 0
    modifies mem
    ensures count <= count0 && dl == dest + (count0 - count) && sl == src + (count0 - count)
    ensures Moved(old(mem[..]), mem[..], dest, src, dest, dl)
  {
    dl, sl, count := dest, src, count0;
    while count >= WORD_SIZE
      invariant count <= count0 && dl == dest + (count0 - count) && sl == src + (count0 - count)
      invariant dl % WORD_SIZE == 0 && sl % WORD_SIZE == 0
      invariant Moved(old(mem[..]), mem[..], dest, src, dest, dl)
    {
      CopyWord(mem, dl, sl);
      dl, sl, count := dl + WORD_SIZE, sl + WORD_SIZE, count - WORD_SIZE;
    }
  }

  /** ((dest | src) & (sizeof(word) - 1)) == 0 */
  method AlignedAddresses(dest: nat, src: nat) returns (aligned: bool)
    ensures aligned <==> dest % WORD_SIZE == 0 && src % WORD_SIZE == 0
  {
    BothAligned(dest, src);
    aligned := AlignedAddress(Or(dest, src));
  }

  /** The OR of two addresses is a multiple of four only if both are. */
  lemma BothAligned(a: nat, b: nat)
    ensures Or(a, b) % WORD_SIZE == 0 <==> a % WORD_SIZE == 0 && b % WORD_SIZE == 0
  {
    LowBit(a, b);
    LowBit(a / 2, b / 2);
    var o, h := Or(a, b), Or(a / 2, b / 2);
    assert o / 2 == h;
    Quarter(o);
    Quarter(a);
    Quarter(b);
  }

  lemma Quarter(a: nat)
    ensures a % 4 == 0 <==> a % 2 == 0 && a / 2 % 2 == 0
  {
  }

  lemma LowBit(a: nat, b: nat)
    ensures Or(a, b) % 2 == 0 <==> a % 2 == 0 && b % 2 == 0
    ensures Or(a, b) / 2 == Or(a / 2, b / 2)
  {
    if a == 0 && b == 0 {
    } else {
      var h := Or(a / 2, b / 2);
      DivModUnique(Or(a, b), 2, h, if a % 2 == 1 || b % 2 == 1 then 1 else 0);
    }
  }

  /** The fill word of memset: the low byte of c four times over. */
  method FillWord(c: Word) returns (cl: Word)
    ensures cl == Pack(c % 0x100, c % 0x100, c % 0x100, c % 0x100)
  {
    cl := 0;
    for i := 0 to WORD_SIZE
      invariant cl == Filled(c % 0x100, i)
    {
      cl := ShiftIn(cl, c);
    }
  }

  /** i copies of a byte. */
  function Filled(b: Byte, i: nat): (v: Word)
    requires i <= WORD_SIZE
    ensures i < WORD_SIZE ==> v < 0x100_0000
    ensures i == WORD_SIZE ==> v == Pack(b, b, b, b)
  {
    if i == 0 then 0 else if i == 1 then b else if i == 2 then 0x101 * b else if i == 3 then 0x1_0101 * b
    else 0x101_0101 * b
  }

  /** cl <<= 8; cl |= c & 0xff; */
  method ShiftIn(cl: Word, c: Word) returns (r: Word)
    requires cl < 0x100_0000
    ensures r == 0x100 * cl + c % 0x100
  {
    var low := LowByte(c);
    var high: Word := 0x100 * cl;
    assert high % WORD == high;
    ByteJoin(cl, low);
    r := OrWord(high, low);
  }

  method LowByte(c: Word) returns (b: Byte)
    ensures b == c % 0x100
  {
    Pow2Byte();
    AndLowMask(c, 8);
    b := And(c, 0xff);
  }

  lemma ByteJoin(v: nat, b: Byte)
    ensures Or(0x100 * v, b) == 0x100 * v + b
  {
    Pow2Byte();
    ExactDiv(0x100 * v, v, 0x100);
    OrIsAdd(0x100 * v, b, 8);
  }

  /** memset: whole words if the start is aligned, then bytes. */
  method MemSet(mem: array<Byte>, s: nat, c: Word, count0: nat)
    requires s + count0 <= mem.Length
    modifies mem
    ensures forall k :: s <= k < s + count0 ==> mem[k] == c % 0x100
    ensures forall k :: 0 <= k < mem.Length && !(s <= k < s + count0) ==> mem[k] == old(mem[k])
  {
    var sl, count := s, count0;
    var aligned := AlignedAddress(s);
    if aligned {
      var cl := FillWord(c);
      sl, count := FillWords(mem, s, cl, c % 0x100, count);
    }
    while count > 0
      invariant 0 <= count <= count0 && sl == s + (count0 - count)
      invariant forall k :: s <= k < sl ==> mem[k] == c % 0x100
      invariant forall k :: 0 <= k < mem.Length && !(s <= k < sl) ==> mem[k] == old(mem[k])
    {
      mem[sl] := c % 0x100;
      sl, count := sl + 1, count - 1;
    }
  }

  /** The word loop of memset. */
  method FillWords(mem: array<Byte>, s: nat, cl: Word, b: Byte, count0: nat) returns (sl: nat, count: nat)
    requires s + count0 <= mem.Length && s % WORD_SIZE == 0 && cl == Pack(b, b, b, b)
    modifies mem
    ensures count <= count0 && sl == s + (count0 - count)
    ensures forall k :: s <= k < sl ==> mem[k] == b
    ensures forall k :: 0 <= k < mem.Length && !(s <= k < sl) ==> mem[k] == old(mem[k])
  {
    sl, count := s, count0;
    while count >= WORD_SIZE
      invariant count <= count0 && sl == s + (count0 - count) && sl % WORD_SIZE == 0
      invariant forall k :: s <= k < sl ==> mem[k] == b
      invariant forall k :: 0 <= k < mem.Length && !(s <= k < sl) ==> mem[k] == old(mem[k])
    {
      FillOne(mem, sl, cl, b);
      sl, count := sl + WORD_SIZE, count - WORD_SIZE;
    }
  }

  /** *sl = cl */
  method FillOne(mem: array<Byte>, a: nat, cl: Word, b: Byte)
    requires a + WORD_SIZE <= mem.Length && a % WORD_SIZE == 0 && cl == Pack(b, b, b, b)
    modifies mem
    ensures forall k :: a <= k < a + WORD_SIZE ==> mem[k] == b
    ensures forall k :: 0 <= k < mem.Length && !(a <= k < a + WORD_SIZE) ==> mem[k] == old(mem[k])
  {
    Unpack(b, b, b, b);
    Store(mem, a, cl);
  }
}
