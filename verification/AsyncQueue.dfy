/** The asynchronous schedule of ehci-hcd.c: the fixed descriptor pool, the chain built in it through a
    tail pointer, and ehci_submit_async around them. */
module AsyncQueue {
  import opened Options
  import opened Bits
  import opened TransferBuffer
  import opened UsbPipe
  import opened TransferChain

  // ---- polling a register ----

  const STS_FATAL: Word := 0x10
  const ALL_ONES: Word := WORD - 1

  predicate Alive(x: Word) { x != ALL_ONES && And(x, STS_FATAL) == 0 }
  predicate Reached(x: Word, mask: Word, done: Word) { Alive(x) && And(x, mask) == done }

  /** Some poll within the limit (the first is always made) sees the wanted bits, and every poll before it
      a live controller. */
  ghost predicate Answers(polls: seq<Word>, mask: Word, done: Word, limit: int)
  {
    exists k :: 0 <= k < |polls| && (k == 0 || k < limit) && Reached(polls[k], mask, done)
                && forall j :: 0 <= j < k ==> Alive(polls[j])
  }

  /** Polling ends at this value, every poll before it alive and short of the wanted bits. */
  ghost predicate Ends(polls: seq<Word>, mask: Word, done: Word, limit: int, x: Word)
  {
    exists k :: 0 <= k < |polls| && (k == 0 || k < limit) && polls[k] == x
                && forall j :: 0 <= j < k ==> Alive(polls[j]) && !Reached(polls[j], mask, done)
  }

  /** handshake: zero exactly when the register answers; -2 when it stays alive but never does. */
  method Handshake(polls: seq<Word>, mask: Word, done: Word, limit: int) returns (ret: int)
    requires |polls| >= 1 && |polls| >= limit
    ensures ret == 0 || ret == -1 || ret == -2 || ret == -16
    ensures ret == 0 <==> Answers(polls, mask, done, limit)
    ensures ret == -1 ==> Ends(polls, mask, done, limit, ALL_ONES)
    ensures ret == -16 ==> exists x: Word :: And(x, STS_FATAL) != 0 && Ends(polls, mask, done, limit, x)
    ensures ret == -2 ==> forall j :: 0 <= j < limit ==> Alive(polls[j]) && !Reached(polls[j], mask, done)
  {
    var usec, i := limit, 0;
    while true
      invariant 0 <= i < |polls| && usec == limit - i && (i == 0 || usec > 0)
      invariant forall j :: 0 <= j < i ==> Alive(polls[j]) && !Reached(polls[j], mask, done)
      decreases usec
    {
      var result := polls[i];
      if result == ALL_ONES {
        assert Ends(polls, mask, done, limit, polls[i]);
        return -1;
      }
      if And(result, STS_FATAL) != 0 {
        assert Ends(polls, mask, done, limit, polls[i]);
        return -16;
      }
      if And(result, mask) == done {
        assert Reached(polls[i], mask, done);
        return 0;
      }
      usec := usec - 1;
      if usec <= 0 {
        return -2;
      }
      i := i + 1;
    }
  }

  // ---- the links of a chain ----

  /** From this link the descriptors first, ..., first + n - 1 follow each other, then the end. */
  ghost predicate Linked(td: seq<Qtd>, link: TdLink, first: nat, n: nat)
    decreases n
  {
    if n == 0 then link == Terminate
    else link == ToTd(first) && first < |td| && Linked(td, td[first].next, first + 1, n - 1)
  }

  lemma {:induction false} ChainLinks(td: seq<Qtd>, link: TdLink, first: nat, stages: seq<Stage>)
    requires Chain(td, link, first, stages)
    ensures Linked(td, link, first, |stages|)
    decreases |stages|
  {
    if stages != [] {
      ChainLinks(td, td[first].next, first + 1, stages[1..]);
    }
  }

  /** The controller may stop anywhere along the chain: what is left is a chain, whatever it wrote into
      the tokens. */
  lemma {:induction false} LinkedSuffix(td: seq<Qtd>, now: seq<Qtd>, link: TdLink, first: nat, n: nat, k: nat)
    requires |now| == |td| && (forall i :: 0 <= i < |td| ==> now[i].next == td[i].next)
    requires Linked(td, link, first, n) && k <= n
    ensures Linked(now, if k == n then Terminate else ToTd(first + k), first + k, n - k)
    decreases n
  {
    if n > 0 {
      LinkedSuffix(td, now, td[first].next, first + 1, n - 1, if k == 0 then 0 else k - 1);
    }
  }

  /** Where the tail pointer tdp points: the link to fill in next. */
  datatype Tail = OverlayNext | NextOf(index: nat)

  /** Linking the next descriptor of the pool at the tail appends its stage to the chain. */
  lemma {:induction false} ChainGrows(td: seq<Qtd>, link: TdLink, now: seq<Qtd>, nowLink: TdLink, first: nat,
                                      stages: seq<Stage>, stage: Stage)
    requires Chain(td, link, first, stages) && first + |stages| < |td| == |now|
    requires var n := first + |stages|;
      && now[n] == Qtd(Terminate, Terminate, stage.token, stage.buffer)
      && (forall i :: first <= i < n - 1 ==> now[i] == td[i])
      && (if stages == [] then nowLink == ToTd(n)
          else nowLink == link && now[n - 1] == td[n - 1].(next := ToTd(n)))
    ensures Chain(now, nowLink, first, stages + [stage])
    decreases |stages|
  {
    if stages == [] {
      assert ([] + [stage])[1..] == [];
    } else {
      assert (stages + [stage])[1..] == stages[1..] + [stage];
      ChainGrows(td, td[first].next, now, now[first].next, first + 1, stages[1..], stage);
    }
  }

  // ---- the driver's static state ----

  const STD_ASS: Word := 0x8000
  const POLL_LIMIT := 100000

  const USB_ST_STALLED := 0x2
  const USB_ST_BUF_ERR := 0x4
  const USB_ST_BABBLE_DET := 0x8
  const USB_ST_CRC_ERR := 0x20
  const USB_ST_NOT_PROC := 0x8000_0000

  /** What the status word tells of the token's error bits: zero is success, the other four name an error. */
  predicate Tells(status: Word, token: Word)
  {
    var error := And(token, 0xfc);
    && (status == 0 <==> error == 0)
    && (status == 2 <==> error == 0x40)
    && (status == 4 <==> error == 0xa0 || error == 0x20)
    && (status == 8 <==> error == 0x50 || error == 0x10)
    && (status == 0x20 <==> error !in {0, 0x40, 0xa0, 0x20, 0x50, 0x10})
  }

  /** The masks as bits: 0xfc is bits 2 to 7, and 0x80 bit 7. */
  lemma ErrorBits(token: Word)
    ensures And(token, 0xfc) == token / 4 % 0x40 * 4
    ensures And(token, 0x80) == token / 0x80 % 2 * 0x80
    ensures And(token, 0xfc) == 0 ==> And(token, 0x80) == 0
  {
    SixBits(token, token / 2, token / 4);
    Powers();
    AndOneBit(token, 7);
    BitIsQuotient(token, 7);
  }

  lemma SixBits(x: nat, half: nat, quarter: nat)
    requires half == x / 2 && quarter == x / 4
    ensures And(x, 0xfc) == quarter % 0x40 * 4
  {
    EvenMask(x, 0x7e);
    EvenMask(half, 0x3f);
    assert half / 2 == quarter;
    SixLow(quarter);
  }

  lemma SixLow(x: nat)
    ensures And(x, 0x3f) == x % 0x40
  {
    Pow2Byte();
    assert Pow2(6) == 2 * Pow2(5);
    AndLowMask(x, 6);
  }

  /** switch (token & 0xfc) */
  function StatusOf(token: Word): (status: Word)
    ensures Tells(status, token)
  {
    var error := And(token, 0xfc);
    if error == 0 then 0
    else if error == 0x40 then USB_ST_STALLED
    else if error == 0xa0 || error == 0x20 then USB_ST_BUF_ERR
    else if error == 0x50 || error == 0x10 then USB_ST_BABBLE_DET
    else USB_ST_CRC_ERR
  }

  /** What the controller does with one transfer: the status reads while the schedule is switched on and
      off, how far the queue head moves along the chain, the tokens it writes back and the overlay's. */
  datatype Controller = Controller(enabling: seq<Word>, disabling: seq<Word>, advance: nat, written: seq<nat>,
                                   overlay: Word)
  {
    predicate Valid() { |enabling| >= POLL_LIMIT && |disabling| >= POLL_LIMIT && |written| == POOL }

    ghost predicate SwitchesOn() { Answers(enabling, 0x8000, 0x8000, 100000) }
    ghost predicate SwitchesOff() { Answers(disabling, 0x8000, 0, 100000) }
  }

  /** The parts of a usb_device a transfer reads and writes; toggle[0] is IN, toggle[1] OUT. */
  class Device {
    var toggle: seq<Word>
    var status: Word
    var actLen: int

    constructor ()
      ensures toggle == [0, 0]
    {
      toggle, status, actLen := [0, 0], 0, 0;
    }

    ghost predicate Valid()
      reads this
    {
      |toggle| == 2
    }
  }

  /** Where the list head and the queue head lead. */
  datatype Links = Links(listLink: QhLink, qhLink: QhLink)
  {
    /** At most two hops lead from the list head back to itself. */
    predicate Closed() { listLink == ToList || (listLink == ToQh && qhLink == ToList) }
  }

  /** The memory a controller on the asynchronous schedule reaches. */
  datatype Snapshot = Snapshot(td: seq<Qtd>, overlayNext: TdLink, listLink: QhLink, qhLink: QhLink)
  {
    predicate Ring() { Links(listLink, qhLink).Closed() }
  }

  /** The list leads to the queue head and back, and the queue head to exactly the request's stages, which
      the controller reads as its transactions: those of the standard unless it is an empty control IN. */
  ghost predicate Shows(shown: Snapshot, r: Request)
    requires r.Valid()
  {
    && shown.listLink == ToQh && shown.qhLink == ToList
    && r.Buildable() && Chain(shown.td, shown.overlayNext, 0, Stages(r))
    && Walk(shown.td, shown.overlayNext, POOL) == Transactions(r)
    && (Walk(shown.td, shown.overlayNext, POOL) == Required(r) <==> !EmptyControlIn(r))
  }

  lemma ChainShows(shown: Snapshot, r: Request)
    requires r.Valid() && r.Buildable() && Chain(shown.td, shown.overlayNext, 0, Stages(r))
    requires shown.listLink == ToQh && shown.qhLink == ToList
    ensures Shows(shown, r)
    ensures Linked(shown.td, shown.overlayNext, 0, |Stages(r)|)
  {
    LinkedTransactions(r, shown.td, shown.overlayNext);
    ChainLinks(shown.td, shown.overlayNext, 0, Stages(r));
  }

  /** One call of ehci_submit_async and what the controller does with it. */
  datatype Submission = Submission(pipe: nat, setup: Option<DevRequest>, buffer: Word, length: int, hw: Controller)
  {
    predicate Valid()
    {
      hw.Valid() && -0x8000_0000 <= length < 0x8000_0000 && (setup.Some? ==> setup.value.Valid())
    }

    ghost function Asks(toggle: seq<Word>): (r: Request)
      requires |toggle| == 2 && Valid()
      ensures r.Valid()
    {
      PipeBounds(pipe);
      var out := 1 - PipeIn(pipe);
      ToggleIsBit(toggle[out], PipeEndpoint(pipe));
      Request(setup, PipeIn(pipe) == 1, buffer, length, GetToggle(toggle[out], PipeEndpoint(pipe)))
    }

    predicate Fits() { (length > 0 || setup.None?) ==> TransferBuffer.Fits(buffer, Wrap(length)) }

    /** The transfer is built, and the schedule goes on and off. */
    ghost predicate Completes() { Fits() && hw.SwitchesOn() && hw.SwitchesOff() }

    ghost predicate Succeeds() { Completes() && And(hw.overlay, 0x80) == 0 }

    /** And no error is in its token, neither the active bit. */
    ghost predicate Clean() { Completes() && And(hw.overlay, 0xfc) == 0 }

    /** The bytes asked for less those the token says are left. */
    function Moved(): int { length - hw.overlay / 0x1_0000 % 0x8000 }

    /** A handshake fails: the schedule may stay on, and the list head stays linked to the queue head. */
    ghost predicate LeavesOn() { Fits() && !Completes() }
  }

  /** This is what the controller finds for that submission, from some state of its device's toggles. */
  ghost predicate ShowsFor(shown: Snapshot, s: Submission)
    requires s.Valid()
  {
    exists toggle: seq<Word> :: |toggle| == 2 && Shows(shown, s.Asks(toggle))
  }

  /** A message is sent to a device. */
  datatype Message = Message(dev: Device, s: Submission)

  /** The submissions that get as far as the controller, in order. */
  ghost function Fitting(messages: seq<Message>): (f: seq<Submission>)
    ensures (forall m :: m in messages ==> m.s.Valid()) ==> forall s :: s in f ==> s.Valid()
  {
    if messages == [] then []
    else
      var m := messages[|messages| - 1];
      Fitting(messages[..|messages| - 1]) + (if m.s.Fits() then [m.s] else [])
  }

  class Ehci {
    var td: seq<Qtd>
    var ntds: nat
    var qhLink: QhLink // where the transfer queue head leads
    var overlayNext: TdLink
    var overlayToken: Word
    var listLink: QhLink // where the static list head leads
    ghost var seen: seq<Snapshot> // what the controller found, each time it ran
    ghost var returned: seq<Snapshot> // what was left behind, at every return
    ghost var links: seq<Links> // the ring after every store to it
    ghost var running: bool // the schedule was switched on and has not confirmed to be off

    ghost function Now(): Snapshot
      reads this
    {
      Snapshot(td, overlayNext, listLink, qhLink)
    }

    ghost predicate Valid()
      reads this
    {
      |td| == POOL && ntds <= POOL && Now().Ring() && (running <==> listLink == ToQh)
    }

    /** ehci_init leaves the list head linked to itself. */
    constructor ()
      ensures Valid() && listLink == ToList && seen == [] && returned == [] && links == [] && !running
      ensures |td| == 3
    {
      seen, returned, links, running := [], [], [], false;
      td, ntds := [ZERO_QTD, ZERO_QTD, ZERO_QTD], 0;
      qhLink, overlayNext, overlayToken := NoLink, Null, 0;
      listLink := ToList;
    }

    /** ehci_alloc for the queue head: the only one, cleared, and the descriptor count starts over. */
    method AllocQh()
      modifies this`ntds, this`qhLink, this`overlayNext, this`overlayToken, this`links
      ensures td == old(td) && listLink == old(listLink)
      ensures ntds == 0 && qhLink == NoLink && overlayNext == Null && overlayToken == 0
      ensures links == old(links) + [Links(listLink, NoLink)]
    {
      ntds, qhLink, overlayNext, overlayToken := 0, NoLink, Null, 0;
      links := links + [Links(listLink, qhLink)];
    }

    /** ehci_alloc for a descriptor: the next of the three, cleared; none when all are taken. */
    method AllocTd() returns (p: Option<nat>)
      requires |td| == POOL && ntds <= POOL
      modifies this`td, this`ntds
      ensures |td| == POOL && ntds <= POOL
      ensures old(ntds) == POOL ==> p == None && td == old(td) && ntds == old(ntds)
      ensures old(ntds) < POOL ==> p == Some(old(ntds)) && ntds == old(ntds) + 1 && td == old(td)[ntds - 1 := ZERO_QTD]
    {
      if ntds == POOL {
        return None;
      }
      td, ntds := td[ntds := ZERO_QTD], ntds + 1;
      return Some(ntds - 1);
    }

    /** Taking a descriptor and filling it for one stage; fails on an empty pool or a buffer over five
        pages.  A stage without a buffer skips ehci_td_buffer. */
    method NewTd(token: nat, buffer: Option<Word>, size: Word) returns (p: Option<nat>)
      requires |td| == POOL && ntds <= POOL
      modifies this`td, this`ntds
      ensures |td| == POOL && ntds <= POOL
      ensures p.Some? <==> old(ntds) < POOL && (buffer.Some? ==> Fits(buffer.value, size))
      ensures p.Some? ==> p == Some(old(ntds)) && ntds == old(ntds) + 1
      ensures p.Some? ==> td == old(td)[p.value := Qtd(Terminate, Terminate, token, PointersOf(buffer, size))]
      ensures forall i :: 0 <= i < POOL && i != old(ntds) ==> td[i] == old(td)[i]
    {
      p := AllocTd();
      if p.None? {
        return;
      }
      var i := p.value;
      td := td[i := td[i].(next := Terminate, altnext := Terminate, token := token)];
      if buffer.Some? {
        var ok, filled := TdBuffer(td[i].buffer, buffer.value, size);
        td := td[i := td[i].(buffer := filled)];
        if !ok {
          return None;
        }
        assert filled == PointersOf(buffer, size);
      }
    }

    /** *tdp = td; tdp = &td->qt_next */
    method Append(tdp: Tail, i: nat) returns (next: Tail)
      requires i < |td| && (tdp.NextOf? ==> tdp.index < |td|)
      modifies this`td, this`overlayNext
      ensures next == NextOf(i)
      ensures tdp.OverlayNext? ==> overlayNext == ToTd(i) && td == old(td)
      ensures tdp.NextOf? ==> overlayNext == old(overlayNext)
                              && td == old(td)[tdp.index := old(td)[tdp.index].(next := ToTd(i))]
    {
      if tdp.OverlayNext? {
        overlayNext := ToTd(i);
      } else {
        td := td[tdp.index := td[tdp.index].(next := ToTd(i))];
      }
      next := NextOf(i);
    }

    /** The chain so far and its tail. */
    ghost predicate Building(stages: seq<Stage>, tdp: Tail)
      reads this
    {
      && |td| == POOL && ntds == |stages| <= POOL
      && Chain(td, overlayNext, 0, stages)
      && tdp == (if stages == [] then OverlayNext else NextOf(|stages| - 1))
    }

    /** One stage more, or a failure that leaves the chain as it was. */
    method AddStage(ghost stages: seq<Stage>, tdp: Tail, f: Fields, buffer: Option<Word>, size: Word)
      returns (ok: bool, next: Tail)
      requires Building(stages, tdp) && f.Valid()
      modifies this`td, this`ntds, this`overlayNext
      ensures ok <==> |stages| < POOL && (buffer.Some? ==> Fits(buffer.value, size))
      ensures ok ==> Building(stages + [StageOf(f, PointersOf(buffer, size))], next)
      ensures !ok ==> |td| == POOL && ntds <= POOL && Chain(td, overlayNext, 0, stages)
    {
      ghost var was, link := td, overlayNext;
      next := tdp;
      var p := NewTd(TokenOf(f), buffer, size);
      if p.None? {
        ChainFrame(was, td, link, 0, stages);
        return false, next;
      }
      next := Append(tdp, p.value);
      ChainGrows(was, link, td, overlayNext, 0, stages, StageOf(f, PointersOf(buffer, size)));
      ok := true;
    }

    /** The SETUP stage, if there is a request. */
    method AddSetup(r: Request) returns (tdp: Tail, toggle: nat)
      requires Building([], OverlayNext) && r.Valid()
      modifies this`td, this`ntds, this`overlayNext
      ensures Building(Begun(r), tdp)
      ensures toggle == if r.setup.Some? then 1 else r.toggle
    {
      tdp, toggle := OverlayNext, r.toggle;
      if r.setup.Some? {
        var s := r.setup.value;
        EightFit(s.address);
        var ok;
        ok, tdp := AddStage([], tdp, Fields(PID_SETUP, 0, |s.bytes|, false), Some(s.address), |s.bytes|);
        toggle := 1;
        assert [] + [SetupStage(s)] == Begun(r);
      }
    }

    /** The data stage; failure leaves the chain before it linked. */
    method AddData(r: Request, tail: Tail, toggle: nat) returns (ok: bool, tdp: Tail)
      requires r.Valid() && Building(Begun(r), tail) && toggle == if r.setup.Some? then 1 else r.toggle
      modifies this`td, this`ntds, this`overlayNext
      ensures ok <==> r.Buildable()
      ensures ok ==> Building(WithData(r), tdp)
      ensures !ok ==> |td| == POOL && ntds <= POOL && Linked(td, overlayNext, 0, |Begun(r)|)
    {
      ok, tdp := true, tail;
      if r.length > 0 || r.setup.None? {
        ok, tdp := AddStage(Begun(r), tail, Fields(DataPid(r), toggle, r.length, r.setup.None?), Some(r.buffer),
                            Wrap(r.length));
        if !ok {
          ChainLinks(td, overlayNext, 0, Begun(r));
        }
      }
    }

    /** The status stage, if there is a request. */
    method AddStatus(r: Request, tail: Tail, toggle: nat) returns (tdp: Tail)
      requires r.Valid() && r.Buildable() && Building(WithData(r), tail)
      requires r.setup.Some? ==> toggle == 1
      modifies this`td, this`ntds, this`overlayNext
      ensures Building(Stages(r), tdp)
    {
      tdp := tail;
      if r.setup.Some? {
        var ok;
        ok, tdp := AddStage(WithData(r), tdp, Fields(StatusPid(r), toggle, 0, true), None, 0);
      }
    }

    /** The SETUP, data and status stages of a request.  Of the three places where the pool could run dry
        none is ever reached: building fails on the data buffer only.  `last` is the descriptor whose token
        is polled. */
    method BuildChain(r: Request) returns (ok: bool, last: nat)
      requires Building([], OverlayNext) && r.Valid()
      modifies this`td, this`ntds, this`overlayNext
      ensures |td| == POOL && ntds <= POOL
      ensures ok <==> r.Buildable()
      ensures ok ==> Chain(td, overlayNext, 0, Stages(r)) && last == |Stages(r)| - 1 < POOL
      ensures !ok ==> Linked(td, overlayNext, 0, |Begun(r)|)
    {
      last := 0;
      var tdp, toggle := AddSetup(r);
      ok, tdp := AddData(r, tdp, toggle);
      if !ok {
        return;
      }
      tdp := AddStatus(r, tdp, toggle);
      last := tdp.index;
    }

    /** The fail path: walking the chain off the queue head. */
    method Unlink(ghost first: nat, ghost n: nat)
      requires Linked(td, overlayNext, first, n)
      modifies this`overlayNext
      ensures overlayNext == Terminate
    {
      ghost var k := 0;
      while overlayNext != Terminate
        invariant k <= n && Linked(td, overlayNext, first + k, n - k)
        decreases n - k
      {
        overlayNext := td[overlayNext.index].next;
        k := k + 1;
      }
    }

    /** The controller's part once the schedule is on: it finds the memory as it is, moves along the chain
        and writes tokens. */
    method Run(hw: Controller, ghost n: nat) returns (ghost left: nat)
      requires hw.Valid() && |td| == POOL && Linked(td, overlayNext, 0, n)
      requires listLink == ToQh && qhLink == ToList
      modifies this`td, this`overlayNext, this`overlayToken, this`seen
      ensures seen == old(seen) + [old(Now())]
      ensures |td| == POOL && left <= n && Linked(td, overlayNext, n - left, left)
      ensures overlayToken == hw.overlay
    {
      seen := seen + [Now()];
      var was, k := td, 0;
      while k < hw.advance && overlayNext.ToTd?
        invariant td == was && k <= n && Linked(td, overlayNext, k, n - k) && seen == old(seen) + [old(Now())]
      {
        overlayNext := td[overlayNext.index].next;
        k := k + 1;
      }
      td := seq(POOL, i requires 0 <= i < POOL => was[i].(token := hw.written[i]));
      overlayToken := hw.overlay;
      left := n - k;
      LinkedSuffix(was, td, overlayNext, k, left, 0);
    }

    /** What the device record says after a transfer the controller let go of. */
    method Settle(dev: Device, pipe: nat, length: int)
      requires dev.Valid()
      modifies dev
      ensures dev.Valid()
      ensures Settled(old(dev.toggle), old(dev.status), dev.toggle, dev.status, dev.actLen, pipe, length, overlayToken)
    {
      var token := overlayToken;
      PipeBounds(pipe);
      if And(token, ACTIVE) == 0 {
        if And(token, 0xfc) == 0 {
          var ep, out := PipeEndpoint(pipe), 1 - PipeIn(pipe);
          OneToggle(dev.toggle, out, ep, TokenToggle(token));
          dev.toggle := dev.toggle[out := SetToggle(dev.toggle[out], ep, TokenToggle(token))];
        }
        dev.status := StatusOf(token);
        dev.actLen := length - token / 0x1_0000 % 0x8000;
      } else {
        dev.actLen := 0;
      }
    }

    /** The cleared queue head, linked back to the list, with the request's chain under it; a chain that
        cannot be completed is unlinked. */
    method Prepare(r: Request) returns (ok: bool, last: nat)
      requires Valid() && r.Valid()
      modifies this`td, this`ntds, this`qhLink, this`overlayNext, this`overlayToken, this`links
      ensures links == old(links) + [Links(listLink, NoLink), Links(listLink, ToList)]
      ensures |td| == POOL && ntds <= POOL && qhLink == ToList && listLink == old(listLink)
      ensures ok <==> r.Buildable()
      ensures ok ==> Chain(td, overlayNext, 0, Stages(r)) && last == |Stages(r)| - 1 < POOL
      ensures !ok ==> overlayNext == Terminate
    {
      AllocQh();
      qhLink := ToList;
      links := links + [Links(listLink, qhLink)];
      overlayNext := Terminate;
      ok, last := BuildChain(r);
      if !ok {
        Unlink(0, |Begun(r)|);
      }
    }

    /** Switching the schedule on and off again around the controller's work. */
    method Transfer(hw: Controller, ghost n: nat) returns (ok: bool)
      requires hw.Valid() && |td| == POOL && ntds <= POOL && qhLink == ToList && Linked(td, overlayNext, 0, n)
      modifies this`td, this`overlayNext, this`overlayToken, this`listLink, this`seen, this`links, this`running
      ensures Valid()
      ensures running == !ok
      ensures links == old(links) + [Links(ToQh, ToList)] + if ok then [Links(ToList, ToList)] else []
      ensures seen == old(seen) + [old(Now()).(listLink := ToQh)]
      ensures ok <==> hw.SwitchesOn() && hw.SwitchesOff()
      ensures ok ==> listLink == ToList && overlayToken == hw.overlay
      ensures !ok ==> overlayNext == Terminate
    {
      listLink := ToQh;
      links, running := links + [Links(listLink, qhLink)], true;
      ghost var left := Run(hw, n);
      var ret := Handshake(hw.enabling, STD_ASS, STD_ASS, POLL_LIMIT);
      if ret < 0 {
        Unlink(n - left, left);
        return false;
      }
      ret := Handshake(hw.disabling, STD_ASS, 0, POLL_LIMIT);
      if ret < 0 {
        Unlink(n - left, left);
        return false;
      }
      running := false;
      listLink := ToList;
      links := links + [Links(listLink, qhLink)];
      return true;
    }

    /** The direction and the toggle, from the pipe and the device record. */
    method ReadRequest(dev: Device, s: Submission) returns (r: Request)
      requires dev.Valid() && s.Valid()
      ensures r == s.Asks(dev.toggle) && (r.Buildable() <==> s.Fits())
    {
      PipeBounds(s.pipe);
      var in_, ep := PipeIn(s.pipe), PipeEndpoint(s.pipe);
      ToggleIsBit(dev.toggle[1 - in_], ep);
      r := Request(s.setup, in_ == 1, s.buffer, s.length, GetToggle(dev.toggle[1 - in_], ep));
    }

    /** Building the chain and running it. */
    method Execute(r: Request, s: Submission) returns (ok: bool)
      requires Valid() && r.Valid() && s.Valid() && (r.Buildable() <==> s.Fits())
      modifies this`td, this`ntds, this`qhLink, this`overlayNext, this`overlayToken, this`listLink, this`seen
      modifies this`links, this`running
      ensures Valid() && (ok <==> s.Completes())
      ensures links == old(links) + LinksOf(old(listLink), s)
      ensures running == if s.Fits() then s.LeavesOn() else old(running)
      ensures listLink == if s.Fits() then if ok then ToList else ToQh else old(listLink)
      ensures !s.Fits() ==> seen == old(seen)
      ensures s.Fits() ==> |seen| == |old(seen)| + 1 && old(seen) <= seen && Shows(seen[|old(seen)|], r)
      ensures ok ==> overlayToken == s.hw.overlay
      ensures !ok ==> overlayNext == Terminate
    {
      var last;
      ok, last := Prepare(r);
      if ok {
        ChainShows(Now().(listLink := ToQh), r);
        ok := Transfer(s.hw, |Stages(r)|);
      }
    }

    /** ehci_submit_async: what it leaves behind, which stores it makes to the ring, and, if the schedule was
        off, what the controller is shown if it runs at all. */
    method SubmitAsync(dev: Device, s: Submission) returns (ret: int)
      requires Valid() && dev.Valid() && s.Valid()
      modifies this, dev
      ensures Valid() && dev.Valid()
      ensures returned == old(returned) + [Now()]
      ensures links == old(links) + LinksOf(old(listLink), s)
      ensures running == if s.Fits() then s.LeavesOn() else old(running)
      ensures !s.Fits() ==> listLink == old(listLink)
      ensures !old(running) && !s.Fits() ==> seen == old(seen)
      ensures !old(running) && s.Fits() ==> |seen| == |old(seen)| + 1 && old(seen) <= seen
      ensures !old(running) && s.Fits() ==> Shows(seen[|old(seen)|], s.Asks(old(dev.toggle)))
      ensures s.Completes() ==> listLink == ToList && ret == (if dev.status != 0x8000_0000 then 0 else -1)
      ensures s.Completes() ==>
        Settled(old(dev.toggle), old(dev.status), dev.toggle, dev.status, dev.actLen, s.pipe, s.length, s.hw.overlay)
      ensures !s.Completes() ==> ret == -1 && overlayNext == Terminate
      ensures !s.Completes() ==>
        dev.toggle == old(dev.toggle) && dev.status == old(dev.status) && dev.actLen == old(dev.actLen)
      ensures old(dev.status) == 0x8000_0000 ==> (ret == 0 <==> s.Succeeds())
    {
      var r := ReadRequest(dev, s);
      var ok := Execute(r, s);
      returned := returned + [Now()];
      if !ok {
        return -1;
      }
      Settle(dev, s.pipe, s.length);
      ret := if dev.status != USB_ST_NOT_PROC then 0 else -1;
    }

    // ---- usb_control_msg and usb_bulk_msg ----

    /** The result of a message marked as not yet processed, and the record it leaves. */
    ghost predicate Ended(dev: Device, s: Submission, ret: int)
      reads dev
    {
      && (ret == 0 || ret == -1) && (ret == 0 <==> s.Succeeds())
      && (s.Succeeds() ==> Tells(dev.status, s.hw.overlay) && dev.actLen == s.Moved())
    }

    /** submit_control_msg to a device other than the root hub, and submit_bulk_msg: the type of the pipe is
        looked at first. */
    method SubmitTyped(dev: Device, kind: nat, s: Submission) returns (ret: int)
      requires Valid() && dev.Valid() && s.Valid() && dev.status == USB_ST_NOT_PROC
      modifies this, dev
      ensures Valid() && dev.Valid()
      ensures PipeType(s.pipe) != kind ==> ret == -1
      ensures PipeType(s.pipe) == kind ==> Ended(dev, s, ret)
    {
      if PipeType(s.pipe) != kind {
        return -1;
      }
      ret := SubmitAsync(dev, s);
    }

    /** The loop that waits for the status to change.  A negative timeout would never run out, but the
        status has changed by then. */
    method Wait(dev: Device, timeout: int)
      requires timeout >= 0 || And(dev.status, USB_ST_NOT_PROC) == 0
    {
      var left := timeout;
      while left != 0
        invariant left >= 0 || And(dev.status, USB_ST_NOT_PROC) == 0
        decreases if left >= 0 then left else 0
      {
        left := left - 1;
        if And(dev.status, USB_ST_NOT_PROC) == 0 {
          break;
        }
      }
    }

    /** usb_control_msg to a device other than the root hub.  It returns the bytes moved exactly when the
        transfer is completed without an error, and -1 otherwise; without a timeout it does not look at the
        outcome, and returns the size. */
    method ControlMsg(dev: Device, s: Submission, timeout: int, asynchAllowed: bool) returns (ret: int)
      requires Valid() && dev.Valid() && s.Valid() && s.setup.Some? && 0 <= s.length < 0x1_0000
      modifies this, dev
      ensures Valid() && dev.Valid()
      ensures timeout != 0 ==> ret == (if PipeType(s.pipe) == 2 && s.Clean() then s.Moved() else -1)
      ensures timeout == 0 ==>
        ret == (if asynchAllowed && PipeType(s.pipe) == 2 && s.Succeeds() then s.length else -1)
      ensures timeout == 0 && !asynchAllowed ==>
        dev.status == old(dev.status) && dev.actLen == old(dev.actLen) && dev.toggle == old(dev.toggle)
    {
      if timeout == 0 && !asynchAllowed {
        return -1;
      }
      dev.status := USB_ST_NOT_PROC;
      ret := SubmitTyped(dev, PIPE_CONTROL, s);
      ErrorBits(s.hw.overlay);
      if ret < 0 {
        return;
      }
      if timeout == 0 {
        return s.length;
      }
      NotPending(dev.status, s.hw.overlay);
      Wait(dev, timeout);
      if dev.status != 0 {
        return -1;
      }
      ret := dev.actLen;
    }

    /** usb_bulk_msg.  Its status test is the wrong way round: it returns zero exactly when the transfer is
        completed with an error, and -1 after a clean one. */
    method BulkMsg(dev: Device, s: Submission, timeout: int) returns (ret: int, actualLength: Option<int>)
      requires Valid() && dev.Valid() && s.Valid() && s.setup.None?
      modifies this, dev
      ensures Valid() && dev.Valid()
      ensures ret == 0 || ret == -1
      ensures ret == 0 <==> s.length >= 0 && PipeType(s.pipe) == 3 && s.Succeeds() && !s.Clean()
      ensures actualLength == if s.length >= 0 && PipeType(s.pipe) == 3 && s.Succeeds() then Some(s.Moved()) else None
    {
      if s.length < 0 {
        return -1, None;
      }
      dev.status := USB_ST_NOT_PROC;
      ret := SubmitTyped(dev, PIPE_BULK, s);
      if ret < 0 {
        return ret, None;
      }
      NotPending(dev.status, s.hw.overlay);
      Wait(dev, timeout);
      actualLength := Some(dev.actLen);
      ret := if dev.status == 0 then -1 else 0;
    }

    /** The histories and results after these messages. */
    ghost predicate SoFar(was: Histories, done: seq<Message>, rets: seq<int>, quiet: bool)
      reads this
    {
      && listLink == After(was.listLink, done) && links == was.links + LinksAll(was.listLink, done)
      && (quiet ==> ShowsAll(was.seen, seen, Fitting(done))) && RingsAfter(was.returned, returned, |done|)
      && |rets| == |done| && forall k :: 0 <= k < |done| ==> (rets[k] == 0 <==> done[k].s.Succeeds())
    }

    ghost function History(): Histories
      reads this
    {
      Histories(listLink, links, seen, returned)
    }

    method SubmitOne(m: Message, ghost was: Histories, ghost done: seq<Message>, rets0: seq<int>, ghost quiet: bool)
      returns (rets: seq<int>)
      requires Valid() && m.s.Valid() && m.dev.Valid() && SoFar(was, done, rets0, quiet) && (quiet ==> !running)
      modifies this, m.dev
      ensures Valid() && m.dev.Valid() && SoFar(was, done + [m], rets, quiet)
    {
      m.dev.status := USB_ST_NOT_PROC;
      ghost var before, toggle := seen, m.dev.toggle;
      var ret := SubmitAsync(m.dev, m.s);
      if quiet {
        ShowsMore(was.seen, before, seen, done, m, toggle);
      }
      LinksMore(was.listLink, done, m);
      assert was.links + LinksAll(was.listLink, done) + LinksOf(After(was.listLink, done), m.s)
          == was.links + (LinksAll(was.listLink, done) + LinksOf(After(was.listLink, done), m.s));
      rets := rets0 + [ret];
    }

    /** Any sequence of messages to any devices, each marked as not yet processed first, as usb_control_msg
        and usb_bulk_msg do: every call returns zero exactly when its own buffer fits and the controller
        starts, stops and lets go of the transfer.  After every call the ring is closed.  It is closed after
        every single store exactly when the sequence is undisturbed: no handshake fails before the last
        message.  Then the controller finds exactly the transfers that fit, in order. */
    method SubmitAll(messages: seq<Message>) returns (rets: seq<int>)
      requires Valid() && forall m :: m in messages ==> m.s.Valid() && m.dev.Valid()
      modifies this, set m | m in messages :: m.dev
      ensures Valid() && |rets| == |messages|
      ensures forall i :: 0 <= i < |messages| ==> (rets[i] == 0 <==> messages[i].s.Succeeds())
      ensures RingsAfter(old(returned), returned, |messages|)
      ensures old(links) <= links
      ensures (forall k :: |old(links)| <= k < |links| ==> links[k].Closed()) <==> Undisturbed(old(listLink), messages)
      ensures Undisturbed(old(listLink), messages) ==> ShowsAll(old(seen), seen, Fitting(messages))
    {
      rets := [];
      ghost var done: seq<Message>, was, quiet := [], History(), Undisturbed(listLink, messages);
      for i := 0 to |messages|
        invariant Valid() && (forall m :: m in messages ==> m.dev.Valid())
        invariant done == messages[..i] && SoFar(was, done, rets, quiet)
      {
        var m := messages[i];
        assert m in messages;
        if quiet {
          StaysOff(was.listLink, messages, i);
        }
        rets := SubmitOne(m, was, done, rets, quiet);
        done := done + [m];
      }
      assert done == messages;
      ClosedThroughout(was.listLink, messages);
      LinksClosed(was.links, LinksAll(was.listLink, messages), links);
    }
  }

  /** No status that tells of a token has the bit that marks a message as not processed. */
  lemma NotPending(status: Word, token: Word)
    requires Tells(status, token)
    ensures And(status, USB_ST_NOT_PROC) == 0
  {
    Pow2Word();
    AndOneBit(status, 31);
    TopBit(status, 31);
  }

  /** What SubmitAll's claims start from. */
  datatype Histories = Histories(listLink: QhLink, links: seq<Links>, seen: seq<Snapshot>, returned: seq<Snapshot>)

  // ---- the ring, store by store ----

  /** The stores of one call: the queue head is cleared, linked back to the list, and only then entered into
      the list, and taken off it at the end. */
  ghost function LinksOf(list: QhLink, s: Submission): seq<Links>
  {
    [Links(list, NoLink), Links(list, ToList)]
    + (if s.Fits() then [Links(ToQh, ToList)] + (if s.Completes() then [Links(ToList, ToList)] else []) else [])
  }

  /** Where the list head leads after these messages. */
  ghost function After(list: QhLink, messages: seq<Message>): QhLink
  {
    if messages == [] then list
    else
      var s := messages[|messages| - 1].s;
      if s.Fits() then if s.Completes() then ToList else ToQh
      else After(list, messages[..|messages| - 1])
  }

  ghost function LinksAll(list: QhLink, messages: seq<Message>): seq<Links>
  {
    if messages == [] then []
    else
      var most := messages[..|messages| - 1];
      LinksAll(list, most) + LinksOf(After(list, most), messages[|messages| - 1].s)
  }

  /** The schedule is off when the messages begin, and no handshake fails before the last of them. */
  ghost predicate Undisturbed(list: QhLink, messages: seq<Message>)
  {
    messages != [] ==> list == ToList && forall i :: 0 <= i < |messages| - 1 ==> !messages[i].s.LeavesOn()
  }

  predicate AllClosed(links: seq<Links>) { forall k :: 0 <= k < |links| ==> links[k].Closed() }

  lemma LinksMore(list: QhLink, done: seq<Message>, m: Message)
    ensures LinksAll(list, done + [m]) == LinksAll(list, done) + LinksOf(After(list, done), m.s)
    ensures After(list, done + [m])
            == if m.s.Fits() then if m.s.Completes() then ToList else ToQh else After(list, done)
  {
    assert (done + [m])[..|done|] == done;
  }

  lemma {:induction false} StaysOff(list: QhLink, messages: seq<Message>, n: nat)
    requires Undisturbed(list, messages) && n < |messages|
    ensures After(list, messages[..n]) == ToList
    decreases n
  {
    if n > 0 {
      StaysOff(list, messages, n - 1);
      assert messages[..n][..n - 1] == messages[..n - 1];
      assert !messages[n - 1].s.LeavesOn();
    }
  }

  /** One call keeps the ring closed throughout exactly when it starts with the list linked to itself: else
      clearing the queue head breaks it. */
  lemma ClosedOnce(list: QhLink, s: Submission)
    requires list == ToList || list == ToQh
    ensures AllClosed(LinksOf(list, s)) <==> list == ToList
  {
    if list == ToQh {
      assert !LinksOf(list, s)[0].Closed();
    }
  }

  lemma ClosedJoin(a: seq<Links>, b: seq<Links>)
    ensures AllClosed(a + b) <==> AllClosed(a) && AllClosed(b)
  {
    if AllClosed(a + b) {
      assert forall k :: 0 <= k < |a| ==> (a + b)[k] == a[k];
      assert forall k :: 0 <= k < |b| ==> (a + b)[|a| + k] == b[k];
    }
  }

  lemma LinksClosed(was: seq<Links>, more: seq<Links>, now: seq<Links>)
    requires now == was + more
    ensures was <= now
    ensures (forall k :: |was| <= k < |now| ==> now[k].Closed()) <==> AllClosed(more)
  {
    if forall k :: |was| <= k < |now| ==> now[k].Closed() {
      assert forall k :: 0 <= k < |more| ==> now[|was| + k] == more[k];
    }
  }

  /** And a sequence exactly when it is undisturbed. */
  lemma {:induction false} ClosedThroughout(list: QhLink, messages: seq<Message>)
    requires list == ToList || list == ToQh
    ensures AllClosed(LinksAll(list, messages)) <==> Undisturbed(list, messages)
    ensures After(list, messages) == ToList || After(list, messages) == ToQh
    decreases |messages|
  {
    if messages != [] {
      var most, m := messages[..|messages| - 1], messages[|messages| - 1];
      ClosedThroughout(list, most);
      ClosedJoin(LinksAll(list, most), LinksOf(After(list, most), m.s));
      ClosedOnce(After(list, most), m.s);
      assert forall i :: 0 <= i < |most| ==> most[i] == messages[i];
      if Undisturbed(list, messages) {
        StaysOff(list, messages, |messages| - 1);
      }
    }
  }

  /** Since this history one entry has come for each of these, related to it. */
  ghost predicate Since<A, B>(related: (A, B) -> bool, was: seq<A>, now: seq<A>, list: seq<B>)
  {
    was <= now && |now| == |was| + |list| && forall j :: 0 <= j < |list| ==> related(now[|was| + j], list[j])
  }

  lemma SinceAppend<A, B>(related: (A, B) -> bool, was: seq<A>, before: seq<A>, now: seq<A>, list: seq<B>, b: B)
    requires Since(related, was, before, list)
    requires |now| == |before| + 1 && before <= now && related(now[|before|], b)
    ensures Since(related, was, now, list + [b])
  {
    var all := list + [b];
    forall j | 0 <= j < |all|
      ensures related(now[|was| + j], all[j])
    {
      if j < |list| {
        assert all[j] == list[j] && now[|was| + j] == before[|was| + j];
      }
    }
  }

  /** Since this history the controller found one snapshot for each of these submissions. */
  ghost predicate ShowsAll(was: seq<Snapshot>, now: seq<Snapshot>, fitting: seq<Submission>)
  {
    Since(Showing(), was, now, fitting)
  }

  ghost function Showing(): (Snapshot, Submission) -> bool
  {
    (shown: Snapshot, s: Submission) => s.Valid() && ShowsFor(shown, s)
  }

  ghost predicate RingsAfter(was: seq<Snapshot>, now: seq<Snapshot>, n: nat)
  {
    was <= now && |now| == |was| + n && forall j :: |was| <= j < |now| ==> now[j].Ring()
  }

  lemma FittingStep(done: seq<Message>, m: Message)
    ensures Fitting(done + [m]) == Fitting(done) + if m.s.Fits() then [m.s] else []
  {
    assert (done + [m])[..|done|] == done;
  }

  lemma ShowsMore(was: seq<Snapshot>, before: seq<Snapshot>, now: seq<Snapshot>, done: seq<Message>, m: Message,
                  toggle: seq<Word>)
    requires ShowsAll(was, before, Fitting(done)) && m.s.Valid() && |toggle| == 2
    requires !m.s.Fits() ==> now == before
    requires m.s.Fits() ==> |now| == |before| + 1 && before <= now && Shows(now[|before|], m.s.Asks(toggle))
    ensures ShowsAll(was, now, Fitting(done + [m]))
  {
    FittingStep(done, m);
    if m.s.Fits() {
      ShowsOne(now[|before|], m.s, toggle);
      SinceAppend(Showing(), was, before, now, Fitting(done), m.s);
    } else {
      assert Fitting(done) + [] == Fitting(done);
    }
  }

  lemma ShowsOne(shown: Snapshot, s: Submission, toggle: seq<Word>)
    requires s.Valid() && |toggle| == 2 && Shows(shown, s.Asks(toggle))
    ensures Showing()(shown, s)
  {
    assert ShowsFor(shown, s);
  }

  // ---- a failed handshake, and what the next call does ----

  /** A controller whose status register always reads as zero: it never confirms that the schedule is on. */
  function SilentController(): Controller
  {
    var zeros: seq<Word> := seq(POLL_LIMIT, k => 0);
    Controller(zeros, zeros, 0, [0, 0, 0], 0)
  }

  lemma SilentNeverOn()
    ensures SilentController().Valid() && !SilentController().SwitchesOn()
  {
    AndZero(STD_ASS);
  }

  lemma AndZero(mask: nat)
    ensures And(0, mask) == 0
  {
  }

  /** Two empty control transfers, the first to a silent controller: clearing the queue head for the second
      breaks the ring. */
  method BrokenRing(bytes: seq<nat>) returns (e: Ehci, ghost k: nat)
    requires |bytes| == 8
    ensures k < |e.links| && e.links[k] == Links(ToQh, NoLink) && !e.links[k].Closed()
  {
    SilentNeverOn();
    e := new Ehci();
    var dev := new Device();
    var s := Submission(0, Some(DevRequest(0, bytes)), 0, 0, SilentController());
    var ret := e.SubmitAsync(dev, s);
    k := |e.links|;
    ret := e.SubmitAsync(dev, s);
  }

  /** The device record after the transfer, from the token left in the overlay.  The toggle follows the
      controller's for the endpoint used and no other, and only after an error-free transfer. */
  ghost predicate Settled(toggle: seq<Word>, status: Word, toggle': seq<Word>, status': Word, actLen: int, pipe: nat,
                          length: int, token: Word)
  {
    && |toggle| == 2 == |toggle'|
    && (if And(token, 0x80) == 0 then Tells(status', token) && actLen == length - token / 0x1_0000 % 0x8000
        else status' == status && actLen == 0)
    && (if And(token, 0x80) == 0 && And(token, 0xfc) == 0
        then OnlyToggle(toggle, toggle', 1 - PipeIn(pipe), PipeEndpoint(pipe), token / 0x8000_0000)
        else toggle' == toggle)
  }

  /** One endpoint's toggle in one direction now has this value; all others are as before. */
  ghost predicate OnlyToggle(toggle: seq<Word>, toggle': seq<Word>, out: int, ep: nat, bit: nat)
  {
    && |toggle| == 2 == |toggle'| && 0 <= out < 2
    && toggle'[1 - out] == toggle[1 - out]
    && GetToggle(toggle'[out], ep) == bit
    && forall e :: 0 <= e < 16 && e != ep ==> GetToggle(toggle'[out], e) == GetToggle(toggle[out], e)
  }

  lemma OneToggle(toggle: seq<Word>, out: nat, ep: nat, bit: nat)
    requires |toggle| == 2 && out < 2 && ep < 16 && bit < 2
    ensures SetToggle(toggle[out], ep, bit) < WORD
    ensures OnlyToggle(toggle, toggle[out := SetToggle(toggle[out], ep, bit)], out, ep, bit)
  {
    SetThenGet(toggle[out], ep, bit, ep);
    forall e | 0 <= e < 16 && e != ep
      ensures GetToggle(SetToggle(toggle[out], ep, bit), e) == GetToggle(toggle[out], e)
    {
      SetThenGet(toggle[out], ep, bit, e);
    }
  }

  lemma PipeBounds(pipe: nat)
    ensures PipeIn(pipe) < 2 && PipeEndpoint(pipe) < 16
  {
    Powers();
    AndLowMask(pipe / 0x80, 1);
    AndLowMask(pipe / 0x8000, 4);
  }

  /** A chain depends on its own descriptors only. */
  lemma {:induction false} ChainFrame(td: seq<Qtd>, now: seq<Qtd>, link: TdLink, first: nat, stages: seq<Stage>)
    requires |now| == |td| && (forall i :: first <= i < first + |stages| && i < |td| ==> now[i] == td[i])
    requires Chain(td, link, first, stages)
    ensures Chain(now, link, first, stages)
    decreases |stages|
  {
    if stages != [] {
      ChainFrame(td, now, td[first].next, first + 1, stages[1..]);
    }
  }
}
