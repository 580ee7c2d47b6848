/** ehci_td_buffer of ehci-hcd.c: splitting a buffer over the five page pointers of a transfer
    descriptor (section 3.5 of EHCI 1.0).  Addresses are 32-bit and wrap. */
module TransferBuffer {
  import opened Bits

  const PAGE := 4096
  const POINTERS := 5

  /** What the five pointers can reach from this address: 20480 less the offset into the page. */
  predicate Fits(buf: Word, sz: Word) { sz <= POINTERS * PAGE - buf % PAGE }

  /** Pointer j: the address itself, then the following pages. */
  function PagePointer(buf: Word, j: nat): (p: Word)
    ensures j > 0 ==> p % PAGE == 0
  {
    if j == 0 then buf else PageAligned(buf, j); Wrap(buf - buf % PAGE + PAGE * j)
  }

  lemma PageAligned(buf: Word, j: nat)
    ensures Wrap(buf - buf % PAGE + PAGE * j) % PAGE == 0
  {
    var pages := buf / PAGE + j;
    assert buf - buf % PAGE + PAGE * j == PAGE * pages;
    DivModUnique(PAGE * pages, WORD, pages / 0x10_0000, PAGE * (pages % 0x10_0000));
  }

  /** The number of the last pointer in use. */
  function LastPointer(buf: Word, sz: Word): nat { if sz == 0 then 0 else (buf % PAGE + sz - 1) / PAGE }

  /** next = (addr + 4096) & ~4095; delta = next - addr */
  method NextPage(addr: Word) returns (next: Word, delta: Word)
    ensures next == Wrap(addr - addr % PAGE + PAGE) && delta == PAGE - addr % PAGE
  {
    var sum := Wrap(addr + PAGE);
    Pow2Word();
    Pow2Half();
    AndHighMask(sum, 12, 32);
    next := And(sum, 0xffff_f000);
    PageBelow(addr, sum);
    delta := Wrap(next - addr);
  }

  lemma PageBelow(addr: Word, sum: Word)
    requires sum == Wrap(addr + PAGE)
    ensures sum - sum % PAGE == Wrap(addr - addr % PAGE + PAGE)
    ensures Wrap(sum - sum % PAGE - addr) == PAGE - addr % PAGE
  {
  }

  /** ehci_td_buffer: succeeds exactly when the buffer fits, and then fills the pointers up to the last
      one it needs; the others keep what they held. */
  method TdBuffer(pointers: seq<Word>, buf: Word, sz0: Word) returns (ok: bool, filled: seq<Word>)
    requires |pointers| == 5
    ensures ok <==> sz0 <= 20480 - buf % 4096
    ensures |filled| == 5
    ensures ok ==> LastPointer(buf, sz0) < POINTERS
    ensures ok ==> forall j :: 0 <= j < POINTERS ==>
      filled[j] == if j <= LastPointer(buf, sz0) then PagePointer(buf, j) else pointers[j]
  {
    var addr, sz, idx := buf, sz0, 0;
    filled := pointers;
    while idx < POINTERS
      invariant 0 <= idx <= POINTERS && |filled| == POINTERS && sz >= 0
      invariant idx < POINTERS ==> addr == PagePointer(buf, idx)
      invariant idx > 0 ==> sz == sz0 - (PAGE * idx - buf % PAGE) && sz > 0
      invariant idx == 0 ==> sz == sz0
      invariant forall j :: 0 <= j < POINTERS ==> filled[j] == if j < idx then PagePointer(buf, j) else pointers[j]
    {
      filled := filled[idx := addr];
      var next, delta := NextPage(addr);
      if delta >= sz {
        LastIs(buf, sz0, idx);
        break;
      }
      sz := sz - delta;
      NextPointer(buf, idx);
      addr := next;
      idx := idx + 1;
    }
    ok := idx != POINTERS;
  }

  lemma NextPointer(buf: Word, j: nat)
    ensures var addr := PagePointer(buf, j); Wrap(addr - addr % PAGE + PAGE) == PagePointer(buf, j + 1)
    ensures j > 0 ==> PagePointer(buf, j) % PAGE == 0
  {
    if j > 0 {
      var x := buf - buf % PAGE + PAGE * j;
      PageAligned(buf, j);
      WrapAdd(x, PAGE);
    }
  }

  lemma WrapAdd(x: int, y: int)
    ensures Wrap(Wrap(x) + y) == Wrap(x + y)
  {
  }

  lemma LastIs(buf: Word, sz: Word, idx: nat)
    requires idx > 0 ==> sz > PAGE * idx - buf % PAGE
    requires sz <= PAGE * (idx + 1) - buf % PAGE
    ensures LastPointer(buf, sz) == idx
  {
    if sz > 0 {
      DivModUnique(buf % PAGE + sz - 1, PAGE, idx, buf % PAGE + sz - 1 - PAGE * idx);
    }
  }

  /** The pointers tile the buffer: byte k of it lies in the page of pointer (offset + k) / 4096, which
      is in use, at the offset the controller computes. */
  lemma PointersTile(buf: Word, sz: Word, k: nat)
    requires Fits(buf, sz) && k < sz
    ensures var j := (buf % PAGE + k) / PAGE;
      && j <= LastPointer(buf, sz) < POINTERS
      && Wrap(buf + k) == Wrap(PagePointer(buf, j) - PagePointer(buf, j) % PAGE + (buf % PAGE + k) % PAGE)
  {
    var off := buf % PAGE;
    var j := (off + k) / PAGE;
    QuotientMonotone(off + k, off + sz - 1, PAGE);
    assert off + k == PAGE * j + (off + k) % PAGE;
    if j > 0 {
      PageAligned(buf, j);
      WrapAdd(buf - off + PAGE * j, (off + k) % PAGE);
    }
  }

  lemma QuotientMonotone(x: nat, y: nat, d: nat)
    requires d > 0 && x <= y
    ensures x / d <= y / d
  {
    if x / d > y / d {
      MulMonotone(y / d + 1, x / d, d);
    }
  }
}
