/** The transfer chains of ehci_submit_async (ehci-hcd.c): tokens, descriptors and the stages one
    request turns into. */
module TransferChain {
  import opened Options
  import opened Bits
  import opened TransferBuffer

  // ---- tokens (section 3.5.3 of EHCI 1.0) ----

  const PID_OUT := 0
  const PID_IN := 1
  const PID_SETUP := 2
  const ACTIVE := 0x80

  /** (toggle << 31) | (length << 16) | (ioc << 15) | (0 << 12) | (3 << 10) | (pid << 8) | 0x80 */
  function Token(toggle: nat, length: int, ioc: nat, pid: nat): nat
    requires toggle < 2 && ioc < 2 && pid < 4
  {
    OrAll([toggle * 0x8000_0000, Wrap(length * 0x1_0000), ioc * 0x8000, 3 * 0x400, pid * 0x100, ACTIVE])
  }

  /** a | b | ... from the left */
  function OrAll(parts: seq<nat>): nat
  {
    if parts == [] then 0 else Or(OrAll(parts[..|parts| - 1]), parts[|parts| - 1])
  }

  lemma OrAllOne(a: nat)
    ensures OrAll([a]) == a
  {
    assert [a][..0] == [];
  }

  lemma OrAllLast(parts: seq<nat>, last: nat)
    ensures OrAll(parts + [last]) == Or(OrAll(parts), last)
  {
    assert (parts + [last])[..|parts|] == parts;
  }

  // How the controller reads a token.

  function TokenToggle(token: nat): nat { token / 0x8000_0000 }
  function TokenBytes(token: nat): nat { token / 0x1_0000 % 0x8000 }
  function TokenIoc(token: nat): nat { token / 0x8000 % 2 }
  function TokenErrorCount(token: nat): nat { token / 0x400 % 4 }
  function TokenPid(token: nat): nat { token / 0x100 % 4 }
  function TokenStatus(token: nat): nat { token % 0x100 }

  lemma TokenPowers()
    ensures Pow2(31) == 0x8000_0000 && Pow2(16) == 0x1_0000 && Pow2(15) == 0x8000 && Pow2(12) == 0x1000
    ensures Pow2(10) == 0x400 && Pow2(8) == 0x100
  {
    Pow2Word();
    Pow2Half();
    Pow2Byte();
    Pow2Small();
    Pow2Add(8, 7);
    Pow2Add(8, 2);
    Pow2Add(4, 3);
  }

  /** With a length below 2^15 the fields do not touch and the token is their sum. */
  lemma TokenIsSum(toggle: nat, length: nat, ioc: nat, pid: nat)
    requires toggle < 2 && ioc < 2 && pid < 4 && length < 0x8000
    ensures Token(toggle, length, ioc, pid)
            == toggle * 0x8000_0000 + length * 0x1_0000 + ioc * 0x8000 + 0xc00 + pid * 0x100 + ACTIVE
  {
    WrapSmall(length * 0x1_0000);
    PartsSum(toggle, length, ioc, pid, toggle * 0x8000_0000, length * 0x1_0000, ioc * 0x8000, pid * 0x100);
  }

  lemma PartsSum(toggle: nat, length: nat, ioc: nat, pid: nat, t: nat, l: nat, i: nat, p: nat)
    requires toggle < 2 && ioc < 2 && pid < 4 && length < 0x8000
    requires t == toggle * 0x8000_0000 && l == length * 0x1_0000 && i == ioc * 0x8000 && p == pid * 0x100
    ensures OrAll([t, l, i, 3 * 0x400, p, ACTIVE]) == t + l + i + 0xc00 + p + ACTIVE
  {
    HighParts(toggle, length, ioc, t, l, i);
    var high, h := [t] + [l] + [i], t + l + i;
    var q := toggle * 0x8_0000 + length * 0x10 + ioc * 8;
    assert h == q * 0x1000;
    LowParts(high, h, q, pid, p);
    assert high + [0xc00] + [p] + [ACTIVE] == [t, l, i, 3 * 0x400, p, ACTIVE];
  }

  lemma HighParts(toggle: nat, length: nat, ioc: nat, t: nat, l: nat, i: nat)
    requires toggle < 2 && ioc < 2 && length < 0x8000
    requires t == toggle * 0x8000_0000 && l == length * 0x1_0000 && i == ioc * 0x8000
    ensures OrAll([t] + [l] + [i]) == t + l + i
  {
    TokenPowers();
    OrAllOne(t);
    OrAllNext([t], t, 31, toggle, l);
    OrAllNext([t] + [l], t + l, 16, toggle * 0x8000 + length, i);
  }

  lemma LowParts(high: seq<nat>, h: nat, q: nat, pid: nat, p: nat)
    requires OrAll(high) == h == q * 0x1000 && pid < 4 && p == pid * 0x100
    ensures OrAll(high + [0xc00] + [p] + [ACTIVE]) == h + 0xc00 + p + ACTIVE
  {
    TokenPowers();
    OrAllNext(high, h, 12, q, 0xc00);
    OrAllNext(high + [0xc00], h + 0xc00, 10, 4 * q + 3, p);
    OrAllNext(high + [0xc00] + [p], h + 0xc00 + p, 8, 16 * q + 12 + pid, ACTIVE);
  }

  /** A part below everything so far is added. */
  lemma OrAllNext(parts: seq<nat>, h: nat, k: nat, q: nat, x: nat)
    requires OrAll(parts) == h == q * Pow2(k) && x < Pow2(k)
    ensures OrAll(parts + [x]) == h + x
  {
    OrAllLast(parts, x);
    ExactDiv(h, q, Pow2(k));
    OrIsAdd(h, x, k);
  }

  lemma WrapSmall(x: nat)
    requires x < WORD
    ensures Wrap(x) == x
  {
  }

  /** Then the controller reads back every field. */
  lemma TokenFields(toggle: nat, length: nat, ioc: nat, pid: nat)
    requires toggle < 2 && ioc < 2 && pid < 4 && length < 0x8000
    ensures var token := Token(toggle, length, ioc, pid);
      && TokenToggle(token) == toggle && TokenBytes(token) == length && TokenIoc(token) == ioc
      && TokenErrorCount(token) == 3 && TokenPid(token) == pid && TokenStatus(token) == ACTIVE
  {
    TokenIsSum(toggle, length, ioc, pid);
    SumFields(Token(toggle, length, ioc, pid), toggle, length, ioc, pid);
  }

  lemma SumFields(token: nat, toggle: nat, length: nat, ioc: nat, pid: nat)
    requires toggle < 2 && ioc < 2 && pid < 4 && length < 0x8000
    requires token == toggle * 0x8000_0000 + length * 0x1_0000 + ioc * 0x8000 + 0xc00 + pid * 0x100 + ACTIVE
    ensures TokenToggle(token) == toggle && TokenBytes(token) == length && TokenIoc(token) == ioc
    ensures TokenErrorCount(token) == 3 && TokenPid(token) == pid && TokenStatus(token) == ACTIVE
  {
    HighFieldsRead(token, toggle, length, ioc, 0xc00 + pid * 0x100 + ACTIVE);
    LowFieldsRead(token, toggle * 0x10_0000 + length * 0x20 + ioc * 0x10 + 1, pid);
  }

  lemma HighFieldsRead(token: nat, toggle: nat, length: nat, ioc: nat, low: nat)
    requires toggle < 2 && ioc < 2 && length < 0x8000 && low < 0x8000
    requires token == toggle * 0x8000_0000 + length * 0x1_0000 + ioc * 0x8000 + low
    ensures TokenToggle(token) == toggle && TokenBytes(token) == length && TokenIoc(token) == ioc
  {
    DivModUnique(token, 0x8000_0000, toggle, length * 0x1_0000 + ioc * 0x8000 + low);
    DivModUnique(token, 0x1_0000, toggle * 0x8000 + length, ioc * 0x8000 + low);
    DivModUnique(toggle * 0x8000 + length, 0x8000, toggle, length);
    DivModUnique(token, 0x8000, toggle * 0x1_0000 + length * 2 + ioc, low);
    DivModUnique(toggle * 0x1_0000 + length * 2 + ioc, 2, toggle * 0x8000 + length, ioc);
  }

  lemma LowFieldsRead(token: nat, high: nat, pid: nat)
    requires pid < 4 && token == high * 0x800 + 0x400 + pid * 0x100 + ACTIVE && high % 2 == 1
    ensures TokenErrorCount(token) == 3 && TokenPid(token) == pid && TokenStatus(token) == ACTIVE
  {
    DivModUnique(token, 0x400, 2 * high + 1, pid * 0x100 + ACTIVE);
    DivModUnique(2 * high + 1, 4, high / 2, 3);
    DivModUnique(token, 0x100, 8 * high + 4 + pid, ACTIVE);
    DivModUnique(8 * high + 4 + pid, 4, 2 * high + 1, pid);
  }

  /** What a token says: the transaction, its data toggle, how many bytes, whether to interrupt. */
  datatype Fields = Fields(pid: nat, toggle: nat, bytes: int, interrupt: bool)
  {
    predicate Valid() { pid < 4 && toggle < 2 }
  }

  function TokenOf(f: Fields): nat
    requires f.Valid()
  {
    Token(f.toggle, f.bytes, if f.interrupt then 1 else 0, f.pid)
  }

  function Read(token: nat): Fields
  {
    Fields(TokenPid(token), TokenToggle(token), TokenBytes(token), TokenIoc(token) == 1)
  }

  /** Fields whose length stays below the toggle bit read back, from an active token with three retries. */
  lemma FieldsReadBack(f: Fields)
    requires f.Valid() && 0 <= f.bytes < 0x8000
    ensures Read(TokenOf(f)) == f && TokenErrorCount(TokenOf(f)) == 3 && TokenStatus(TokenOf(f)) == ACTIVE
  {
    TokenFields(f.toggle, f.bytes, if f.interrupt then 1 else 0, f.pid);
  }

  // ---- descriptors ----

  /** A horizontal link of a queue head; both targets carry the queue head type bits. */
  datatype QhLink = NoLink | ToList | ToQh

  /** qt_next: cleared memory, QT_NEXT_TERMINATE or another descriptor of the pool. */
  datatype TdLink = Null | Terminate | ToTd(index: nat)

  datatype Qtd = Qtd(next: TdLink, altnext: TdLink, token: nat, buffer: seq<Word>)

  const POOL := 3
  const ZERO_POINTERS: seq<Word> := [0, 0, 0, 0, 0]
  const ZERO_QTD := Qtd(Null, Null, 0, ZERO_POINTERS)

  /** One stage of a transfer: what it says, the token that says it, and its page pointers. */
  datatype Stage = Stage(fields: Fields, token: nat, buffer: seq<Word>)

  function StageOf(f: Fields, buffer: seq<Word>): Stage
    requires f.Valid()
  {
    Stage(f, TokenOf(f), buffer)
  }

  /** From this link on, the descriptors first, first + 1, ... carry exactly these stages, and then the
      chain ends. */
  ghost predicate Chain(td: seq<Qtd>, link: TdLink, first: nat, stages: seq<Stage>)
    decreases |stages|
  {
    if stages == [] then link == Terminate
    else
      && link == ToTd(first) && first < |td|
      && td[first].altnext == Terminate
      && td[first].token == stages[0].token && td[first].buffer == stages[0].buffer
      && Chain(td, td[first].next, first + 1, stages[1..])
  }

  /** What a controller following the links reads, one descriptor after the other. */
  function Walk(td: seq<Qtd>, link: TdLink, limit: nat): seq<Fields>
    decreases limit
  {
    if limit == 0 || !link.ToTd? || link.index >= |td| then []
    else [Read(td[link.index].token)] + Walk(td, td[link.index].next, limit - 1)
  }

  /** The page pointers of a freshly cleared descriptor for this buffer; all zero without one. */
  function PointersOf(buffer: Option<Word>, size: Word): (p: seq<Word>)
    requires buffer.Some? ==> Fits(buffer.value, size)
    ensures |p| == POINTERS
  {
    if buffer.Some? then
      seq(POINTERS, j requires 0 <= j < POINTERS =>
        if j <= LastPointer(buffer.value, size) then PagePointer(buffer.value, j) else 0)
    else ZERO_POINTERS
  }

  // ---- requests ----

  /** The eight bytes of a control transfer's request and where they are. */
  datatype DevRequest = DevRequest(address: Word, bytes: seq<nat>)
  {
    predicate Valid() { |bytes| == 8 }
  }

  /** One transfer request; bulk transfers have no setup. */
  datatype Request = Request(setup: Option<DevRequest>, in_: bool, buffer: Word, length: int, toggle: nat)
  {
    predicate Valid()
    {
      toggle < 2 && -0x8000_0000 <= length < 0x8000_0000 && (setup.Some? ==> setup.value.Valid())
    }

    predicate HasData() { length > 0 || setup.None? }

    /** The only way building can fail: the data does not fit five pages (a negative length is a huge
        size_t). */
    predicate Buildable() { HasData() ==> Fits(buffer, Wrap(length)) }
  }

  function DataPid(r: Request): nat { if r.in_ then PID_IN else PID_OUT }
  function StatusPid(r: Request): nat { if r.in_ then PID_OUT else PID_IN }

  function SetupFields(s: DevRequest): Fields { Fields(PID_SETUP, 0, |s.bytes|, false) }
  function DataFields(r: Request): Fields
  {
    Fields(DataPid(r), if r.setup.Some? then 1 else r.toggle, r.length, r.setup.None?)
  }
  function StatusFields(r: Request): Fields { Fields(StatusPid(r), 1, 0, true) }

  /** What the driver asks for: SETUP, the data if there are any, and a status stage the other way round;
      a bulk transfer is one stage with the endpoint's own toggle. */
  function Transactions(r: Request): seq<Fields>
    requires r.Valid()
  {
    if r.setup.None? then [DataFields(r)]
    else if r.length > 0 then [SetupFields(r.setup.value), DataFields(r), StatusFields(r)]
    else [SetupFields(r.setup.value), StatusFields(r)]
  }

  // ---- the standard ----

  datatype Direction = HostToDevice | DeviceToHost

  function PidOf(d: Direction): nat
  {
    match d
    case HostToDevice => 0
    case DeviceToHost => 1
  }

  function Opposite(d: Direction): Direction { if d.HostToDevice? then DeviceToHost else HostToDevice }

  /** The data stage of a control transfer, if it has one. */
  function DataDirection(r: Request): Option<Direction>
  {
    if r.length <= 0 then None else if r.in_ then Some(DeviceToHost) else Some(HostToDevice)
  }

  /** The status stage turns around: opposite to the data, and toward the host when there are none. */
  function StatusDirection(data: Option<Direction>): Direction
  {
    match data
    case None => DeviceToHost
    case Some(d) => Opposite(d)
  }

  /** Section 8.5.3 of USB 2.0: SETUP with DATA0 and eight bytes, data with DATA1, an empty status stage
      with DATA1.  Section 8.5.2: bulk data go on with the endpoint's toggle.  Only the end is reported. */
  function Required(r: Request): seq<Fields>
  {
    if r.setup.None? then [Fields(PidOf(if r.in_ then DeviceToHost else HostToDevice), r.toggle, r.length, true)]
    else
      var data := DataDirection(r);
      [Fields(2, 0, 8, false)]
      + (if data.Some? then [Fields(PidOf(data.value), 1, r.length, false)] else [])
      + [Fields(PidOf(StatusDirection(data)), 1, 0, true)]
  }

  /** A control transfer with the IN direction and no data. */
  predicate EmptyControlIn(r: Request) { r.setup.Some? && r.in_ && r.length <= 0 }

  /** The driver meets the standard except on those. */
  lemma ConformsUnlessEmptyIn(r: Request)
    requires r.Valid()
    ensures Transactions(r) == Required(r) <==> !EmptyControlIn(r)
  {
    if EmptyControlIn(r) {
      assert Transactions(r)[1].pid == PID_OUT && Required(r)[1].pid == PID_IN;
    }
  }

  /** A GET_DESCRIPTOR for no bytes gets its status stage the wrong way round. */
  lemma EmptyInExample(address: Word, bytes: seq<nat>)
    requires |bytes| == 8
    ensures var r := Request(Some(DevRequest(address, bytes)), true, 0, 0, 0);
      && r.Valid() && r.Buildable()
      && Transactions(r) == [Fields(PID_SETUP, 0, 8, false), Fields(PID_OUT, 1, 0, true)]
      && Required(r) == [Fields(PID_SETUP, 0, 8, false), Fields(PID_IN, 1, 0, true)]
  {
  }

  lemma EightFit(a: Word)
    ensures Fits(a, 8)
  {
  }

  // The stages in the order they are built.

  function SetupStage(s: DevRequest): Stage
    requires s.Valid()
  {
    EightFit(s.address);
    StageOf(SetupFields(s), PointersOf(Some(s.address), |s.bytes|))
  }

  function DataStage(r: Request): Stage
    requires r.Valid() && r.HasData() && r.Buildable()
  {
    StageOf(DataFields(r), PointersOf(Some(r.buffer), Wrap(r.length)))
  }

  function StatusStage(r: Request): Stage { StageOf(StatusFields(r), PointersOf(None, 0)) }

  function Begun(r: Request): seq<Stage>
    requires r.Valid()
  {
    if r.setup.Some? then [SetupStage(r.setup.value)] else []
  }

  function WithData(r: Request): seq<Stage>
    requires r.Valid() && r.Buildable()
  {
    if r.HasData() then Begun(r) + [DataStage(r)] else Begun(r)
  }

  function Stages(r: Request): seq<Stage>
    requires r.Valid() && r.Buildable()
  {
    if r.setup.Some? then WithData(r) + [StatusStage(r)] else WithData(r)
  }

  lemma DataLength(r: Request)
    requires r.Valid() && r.HasData() && r.Buildable()
    ensures 0 <= r.length <= 20480
  {
  }

  /** Every token reads back as the fields it was built from. */
  predicate ReadBack(stages: seq<Stage>, fields: seq<Fields>)
  {
    |stages| == |fields|
    && forall k :: 0 <= k < |stages| ==> stages[k].fields == fields[k] == Read(stages[k].token)
  }

  lemma ReadBackJoin(a: seq<Stage>, f: seq<Fields>, s: Stage)
    requires ReadBack(a, f) && s.fields == Read(s.token)
    ensures ReadBack(a + [s], f + [s.fields])
  {
  }

  lemma StageReadsBack(f: Fields, buffer: seq<Word>)
    requires f.Valid() && 0 <= f.bytes < 0x8000
    ensures StageOf(f, buffer).fields == f == Read(StageOf(f, buffer).token)
  {
    FieldsReadBack(f);
  }

  lemma BegunReadsBack(r: Request)
    requires r.Valid()
    ensures ReadBack(Begun(r), if r.setup.Some? then [SetupFields(r.setup.value)] else [])
  {
    if r.setup.Some? {
      var s := r.setup.value;
      EightFit(s.address);
      StageReadsBack(SetupFields(s), PointersOf(Some(s.address), |s.bytes|));
    }
  }

  lemma StagesReadBack(r: Request)
    requires r.Valid() && r.Buildable()
    ensures ReadBack(Stages(r), Transactions(r))
  {
    BegunReadsBack(r);
    if r.HasData() {
      DataLength(r);
      StageReadsBack(DataFields(r), PointersOf(Some(r.buffer), Wrap(r.length)));
      ReadBackJoin(Begun(r), if r.setup.Some? then [SetupFields(r.setup.value)] else [], DataStage(r));
    }
    if r.setup.Some? {
      StageReadsBack(StatusFields(r), PointersOf(None, 0));
      ReadBackJoin(WithData(r), if r.HasData() then [SetupFields(r.setup.value), DataFields(r)]
                                else [SetupFields(r.setup.value)], StatusStage(r));
    }
  }

  /** Following a chain whose tokens read back, the controller reads the stages' fields. */
  lemma {:induction false} ChainWalk(td: seq<Qtd>, link: TdLink, first: nat, stages: seq<Stage>, fields: seq<Fields>,
                                     limit: nat)
    requires Chain(td, link, first, stages) && ReadBack(stages, fields) && |stages| <= limit
    ensures Walk(td, link, limit) == fields
    decreases |stages|
  {
    if stages != [] {
      ChainWalk(td, td[first].next, first + 1, stages[1..], fields[1..], limit - 1);
    }
  }

  /** A controller following the linked chain reads exactly the transactions asked for, which are those of
      the standard unless the transfer is an empty control IN; no length reaches the toggle bit. */
  lemma LinkedTransactions(r: Request, td: seq<Qtd>, link: TdLink)
    requires r.Valid() && r.Buildable() && Chain(td, link, 0, Stages(r))
    ensures Walk(td, link, POOL) == Transactions(r)
    ensures Walk(td, link, POOL) == Required(r) <==> !EmptyControlIn(r)
    ensures r.HasData() ==> 0 <= r.length <= 20480
  {
    if r.HasData() {
      DataLength(r);
    }
    ConformsUnlessEmptyIn(r);
    StagesReadBack(r);
    ChainWalk(td, link, 0, Stages(r), Transactions(r), POOL);
  }

  /** A length that does not fit would spill: 2^15 bytes with toggle 0 is the token of no bytes with
      toggle 1. */
  lemma LengthSpills(ioc: nat, pid: nat)
    requires ioc < 2 && pid < 4
    ensures Token(0, 0x8000, ioc, pid) == Token(1, 0, ioc, pid)
    ensures TokenToggle(Token(0, 0x8000, ioc, pid)) == 1 && TokenBytes(Token(0, 0x8000, ioc, pid)) == 0
  {
    var t, rest := 0x8000_0000, [ioc * 0x8000, 3 * 0x400, pid * 0x100, ACTIVE];
    OrAllSwap(t, rest);
    assert [0, t] + rest == [0, t, ioc * 0x8000, 3 * 0x400, pid * 0x100, ACTIVE];
    assert [t, 0] + rest == [t, 0, ioc * 0x8000, 3 * 0x400, pid * 0x100, ACTIVE];
    TokenFields(1, 0, ioc, pid);
  }

  lemma {:induction false} OrAllSwap(t: nat, rest: seq<nat>)
    ensures OrAll([0, t] + rest) == OrAll([t, 0] + rest)
  {
    if rest == [] {
      assert [0, t] + [] == [0] + [t] && [t, 0] + [] == [t] + [0];
      OrAllOne(0);
      OrAllOne(t);
      OrAllLast([0], t);
      OrAllLast([t], 0);
      OrCommutes(t, 0);
    } else {
      var most, last := rest[..|rest| - 1], rest[|rest| - 1];
      OrAllSwap(t, most);
      assert [0, t] + rest == ([0, t] + most) + [last] && [t, 0] + rest == ([t, 0] + most) + [last];
      OrAllLast([0, t] + most, last);
      OrAllLast([t, 0] + most, last);
    }
  }
}
