/** The virtual root hub of ehci-hcd.c: hub class requests answered from the port status and control
    registers, whose change bits are cleared by writing a one (section 2.3.9 of EHCI 1.0).  A register
    is the set of its one bits, so masks are sets and "and not" is set difference. */
module RootHub {
  import opened Options
  import opened Bits
  import AsyncQueue

  type Reg = set<nat>

  // ---- port status and control register ----

  const PS_CS := 0 // read-only, connected
  const PS_CSC := 1 // write one to clear
  const PS_PE := 2
  const PS_PEC := 3 // write one to clear
  const PS_OCA := 4 // read-only
  const PS_OCC := 5 // write one to clear
  const PS_SUSP := 7
  const PS_PR := 8
  const PS_PP := 12
  const PS_PO := 13
  const PS_LS: Reg := {10, 11} // read-only, line status
  const PS_CLEAR: Reg := {PS_OCC, PS_PEC, PS_CSC}
  const PS_READ_ONLY: Reg := {PS_CS, PS_OCA, 10, 11}

  const RESET_MASK: Word := 0x100
  const RESET_POLLS := 2000
  const PORTS := 2

  predicate IsLowSpeed(reg: Reg) { reg * PS_LS == {10} }

  // Register 0 is CONFIGFLAG, which stands in front of the ports: a port request with index 0 reaches it.

  /** What a register does by itself between two accesses. */
  function DriftOf(port: nat, v: Reg, news: Reg): Reg { if port == 0 then news else Drift(v, news) }

  /** And when it is written. */
  function WrittenOf(port: nat, v: Reg, w: Reg): Reg { if port == 0 then w else Written(v, w) }

  /** What the port does by itself between two accesses: anything, except that a change bit once latched
      stays. */
  function Drift(v: Reg, news: Reg): Reg { news + (v * PS_CLEAR) }

  /** The register after a write: ones clear change bits, read-only bits stay, the rest is taken. */
  function Written(v: Reg, w: Reg): Reg { (w - PS_CLEAR - PS_READ_ONLY) + (v * PS_READ_ONLY) + (v * PS_CLEAR - w) }

  function Latched(v: Reg): Reg { v * PS_CLEAR }

  // ---- requests ----

  const FEAT_ENABLE := 1
  const FEAT_OVER_CURRENT := 3
  const FEAT_RESET := 4
  const FEAT_POWER := 8
  const FEAT_C_CONNECTION := 16
  const FEAT_C_ENABLE := 17
  const FEAT_C_RESET := 20

  // requesttype << 8 | request
  const GET_DESCRIPTOR := 0x8006
  const GET_HUB_DESCRIPTOR := 0xa006
  const SET_ADDRESS := 0x0005
  const SET_CONFIGURATION := 0x0009
  const GET_HUB_STATUS := 0xa000
  const GET_PORT_STATUS := 0xa300
  const SET_PORT_FEATURE := 0x2303
  const CLEAR_PORT_FEATURE := 0x2301

  /** A devrequest, its two first bytes taken together. */
  datatype HubRequest = HubRequest(typeReq: nat, value: nat, index: nat, length: nat)

  /** What the hardware does during one request: how the port moves before each access, the reset polls,
      and whether it has port power control. */
  datatype Hardware = Hardware(drift: seq<Reg>, polls: seq<Word>, powerControl: bool)
  {
    predicate Valid() { |drift| == 3 && |polls| >= RESET_POLLS }
  }

  /** One call of ehci_submit_root.  Ports are numbered from one. */
  datatype Call = Call(req: HubRequest, length: int, hw: Hardware)
  {
    predicate Valid() { hw.Valid() }

    predicate Addresses(port: nat) { IsPortRequest(req.typeReq) && req.index == port }

    predicate Sets(feature: nat) { req.typeReq == SET_PORT_FEATURE && req.value == feature }

    /** Powering a port also takes control over all ports. */
    predicate Configures() { Sets(FEAT_POWER) && hw.powerControl && req.index <= PORTS }

    predicate Clears(feature: nat) { req.typeReq == CLEAR_PORT_FEATURE && req.value == feature }
  }

  predicate IsPortRequest(typeReq: nat)
  {
    typeReq == GET_PORT_STATUS || typeReq == SET_PORT_FEATURE || typeReq == CLEAR_PORT_FEATURE
  }

  /** A low speed device on a disabled port: the reset gives the port to the companion controller. */
  predicate GivesUp(read: Reg) { PS_CS in read && PS_PE !in read && IsLowSpeed(read) }

  /** The register as this call reads it. */
  function Seen(v: Reg, c: Call): Reg
    requires c.hw.Valid()
  {
    DriftOf(c.req.index, v, c.hw.drift[0])
  }

  /** The change bits this call clears on its port.  Clearing ENABLE or C_RESET writes back what was read
      and so clears every change bit seen. */
  function Acknowledged(v: Reg, c: Call): Reg
    requires c.Valid()
  {
    if c.Clears(FEAT_C_CONNECTION) || c.Clears(FEAT_POWER) then {PS_CSC}
    else if c.Clears(FEAT_OVER_CURRENT) then {PS_OCC}
    else if c.Clears(FEAT_ENABLE) || c.Clears(FEAT_C_RESET) then Latched(Seen(v, c))
    else {}
  }

  /** This call resets the port and the reset ends in time. */
  ghost predicate Resets(v: Reg, c: Call)
    requires c.Valid()
  {
    c.Sets(4) && !GivesUp(Seen(v, c)) && AsyncQueue.Answers(c.hw.polls, 0x100, 0, 2000)
  }

  // ---- state ----

  datatype State = State(regs: seq<Reg>, portreset: set<nat>, rootdev: nat)
  {
    predicate Valid() { |regs| == PORTS + 1 }
  }

  /** Change bits of the port addressed: exactly the acknowledged ones go, and none appears that the
      hardware did not raise. */
  predicate LatchesFollow(before: Reg, c: Call, after: Reg)
    requires c.Valid()
  {
    && Latched(before) - Acknowledged(before, c) <= after
    && after * Acknowledged(before, c) == {}
    && Latched(after) <= before + c.hw.drift[0] + c.hw.drift[1] + c.hw.drift[2]
  }

  /** What one call does to a port: nothing unless it addresses it.  Nothing else is said of the value of
      CONFIGFLAG when it is addressed. */
  ghost predicate PortServed(before: State, c: Call, after: State, port: nat)
    requires before.Valid() && after.Valid() && c.Valid() && port <= PORTS
  {
    var v, v' := before.regs[port], after.regs[port];
    if !c.Addresses(port) then
      && v' == (if port == 0 && c.Configures() then {0} else v)
      && (port in after.portreset <==> port in before.portreset)
    else
      && (port > 0 ==> LatchesFollow(v, c, v'))
      && (port in after.portreset <==> Resets(v, c) || (port in before.portreset && !c.Clears(FEAT_C_RESET)))
  }

  /** What one call does to the hub. */
  ghost predicate Served(before: State, c: Call, after: State)
    requires before.Valid() && c.Valid()
  {
    && after.Valid()
    && (forall port :: 0 <= port <= PORTS ==> PortServed(before, c, after, port))
    && (forall port: nat :: port > PORTS ==> (port in after.portreset <==> port in before.portreset))
    && after.rootdev == (if c.req.typeReq == SET_ADDRESS && c.req.index <= PORTS then c.req.value else before.rootdev)
  }

  lemma OnePortServed(before: State, c: Call, after: State)
    requires before.Valid() && c.Valid() && c.req.index <= PORTS && IsPortRequest(c.req.typeReq)
    requires after.Valid() && after.rootdev == before.rootdev
    requires c.req.index > 0 ==> LatchesFollow(before.regs[c.req.index], c, after.regs[c.req.index])
    requires forall port :: 0 <= port <= PORTS && port != c.req.index ==>
      after.regs[port] == if port == 0 && c.Configures() then {0} else before.regs[port]
    requires after.portreset ==
             if Resets(before.regs[c.req.index], c) then before.portreset + {c.req.index}
             else if c.Clears(FEAT_C_RESET) then before.portreset - {c.req.index}
             else before.portreset
    ensures Served(before, c, after)
  {
  }

  // ---- whole runs ----

  /** A run of the hub: the states around each call. */
  ghost predicate Run(states: seq<State>, calls: seq<Call>)
  {
    && |states| == |calls| + 1
    && (forall k :: 0 <= k < |states| ==> states[k].Valid())
    && (forall k :: 0 <= k < |calls| ==> calls[k].Valid() && Served(states[k], calls[k], states[k + 1]))
  }

  /** This call of the run resets the port with success. */
  ghost predicate ResetAt(states: seq<State>, calls: seq<Call>, k: nat, port: nat)
    requires Run(states, calls) && k < |calls| && port <= PORTS
  {
    calls[k].Addresses(port) && Resets(states[k].regs[port], calls[k])
  }

  predicate ClearedAt(calls: seq<Call>, k: nat, port: nat)
    requires k < |calls|
  {
    calls[k].Addresses(port) && calls[k].Clears(FEAT_C_RESET)
  }

  /** The reported C_RESET bit is set exactly when a reset succeeded and no clear came after it. */
  lemma {:induction false} ResetBit(states: seq<State>, calls: seq<Call>, port: nat, n: nat)
    requires Run(states, calls) && port <= PORTS && n <= |calls| && port !in states[0].portreset
    ensures port in states[n].portreset <==>
            exists k :: 0 <= k < n && ResetAt(states, calls, k, port)
                        && forall j :: k < j < n ==> !ClearedAt(calls, j, port)
    decreases n
  {
    if n > 0 {
      ResetBit(states, calls, port, n - 1);
      assert Served(states[n - 1], calls[n - 1], states[n]);
      assert PortServed(states[n - 1], calls[n - 1], states[n], port);
      if ResetAt(states, calls, n - 1, port) {
        assert port in states[n].portreset;
      } else if port in states[n - 1].portreset && !ClearedAt(calls, n - 1, port) {
        var k :| 0 <= k < n - 1 && ResetAt(states, calls, k, port)
                 && forall j :: k < j < n - 1 ==> !ClearedAt(calls, j, port);
        assert ResetAt(states, calls, k, port);
      }
    }
  }

  /** A change bit latched stays latched until a call that acknowledges it, and that call clears it. */
  lemma {:induction false} LatchStays(states: seq<State>, calls: seq<Call>, port: nat, bit: nat, from: nat, n: nat)
    requires Run(states, calls) && 1 <= port <= PORTS && from <= n <= |calls|
    requires bit in Latched(states[from].regs[port])
    requires forall j :: from <= j < n && calls[j].Addresses(port) ==>
      bit !in Acknowledged(states[j].regs[port], calls[j])
    ensures bit in Latched(states[n].regs[port])
    ensures n < |calls| && calls[n].Addresses(port) && bit in Acknowledged(states[n].regs[port], calls[n]) ==>
      bit !in states[n + 1].regs[port]
    decreases n - from
  {
    if from < n {
      assert Served(states[from], calls[from], states[from + 1]);
      assert PortServed(states[from], calls[from], states[from + 1], port);
      LatchStays(states, calls, port, bit, from + 1, n);
    } else if n < |calls| {
      assert Served(states[n], calls[n], states[n + 1]);
      assert PortServed(states[n], calls[n], states[n + 1], port);
      var ack := Acknowledged(states[n].regs[port], calls[n]);
      assert bit in ack && bit in states[n + 1].regs[port] ==> bit in states[n + 1].regs[port] * ack;
    }
  }

  /** So no SET_FEATURE and no status query ever loses a change bit, and clearing C_CONNECTION loses that
      one only. */
  lemma OnlyAcknowledged(v: Reg, c: Call, after: Reg)
    requires c.Valid() && c.req.index > 0 && LatchesFollow(v, c, after)
    ensures c.req.typeReq != CLEAR_PORT_FEATURE ==> Latched(v) <= after
    ensures c.Clears(FEAT_C_CONNECTION) ==> Latched(v) - {PS_CSC} <= after && PS_CSC !in after
    ensures c.Clears(FEAT_ENABLE) || c.Clears(FEAT_C_RESET) ==> Latched(v) !! after
  {
    assert PS_CSC in after ==> PS_CSC in after * {PS_CSC};
    assert Latched(v) <= Latched(Seen(v, c));
    assert forall bit :: bit in after && bit in Acknowledged(v, c) ==> bit in after * Acknowledged(v, c);
  }

  // ---- replies ----

  const DEVICE_BYTES: seq<nat> := [0x12, 1, 0, 2, 9, 0, 1, 64, 0, 0, 0, 0, 0, 1, 1, 2, 0, 1]
  const CONFIG_BYTES: seq<nat> :=
    [9, 2, 0x19, 0, 1, 1, 0, 0x40, 0,
     9, 4, 0, 0, 1, 9, 0, 0, 0,
     7, 5, 0x81, 3, 8, 0, 255]
  const LANGUAGE_BYTES: seq<nat> := [4, 3, 1, 0]
  const VENDOR_TEXT := "u-boot"
  const PRODUCT_TEXT := "EHCI Host Controller"

  /** A string descriptor: length, type 3, two bytes a character. */
  function StringBytes(text: string): seq<nat> { [2 * |text| + 2, 3] + Wide(text) }

  function Wide(text: string): seq<nat>
  {
    seq(2 * |text|, i requires 0 <= i < 2 * |text| => if i % 2 == 0 then text[i / 2] as nat else 0)
  }

  /** A string descriptor as its reader takes it apart: a length byte, the type, and the characters two bytes
      apart. */
  lemma StringRead(text: string, k: nat)
    requires k < |text|
    ensures var b := StringBytes(text);
      |b| == b[0] == 2 * |text| + 2 && b[1] == 3 && b[2 + 2 * k] == text[k] as nat && b[3 + 2 * k] == 0
  {
  }

  /** The names of the vendor and the product. */
  lemma NamesRead(first: nat, second: nat)
    requires first == 0x301 && second == 0x302
    ensures Descriptor(first) == Some(StringBytes("u-boot"))
    ensures Descriptor(second) == Some(StringBytes("EHCI Host Controller"))
  {
  }

  /** The device descriptor by its fields (table 9-8 of USB 2.0): a hub of version 2.0 with packets of 64
      bytes, the two names and one configuration. */
  lemma DeviceRead(b: seq<nat>)
    requires Descriptor(0x100) == Some(b)
    ensures |b| == b[0] == 18 && b[1] == 1 && b[2] + 0x100 * b[3] == 0x200
    ensures b[4] == 9 && b[5] == 0 && b[6] == 1 && b[7] == 64
    ensures b[8] + 0x100 * b[9] == 0 && b[10] + 0x100 * b[11] == 0 && b[12] + 0x100 * b[13] == 0x100
    ensures b[14] == 1 && b[15] == 2 && b[16] == 0 && b[17] == 1
  {
  }

  function HubBytes(ports: nat, characteristics: nat): seq<nat>
  {
    [8, 0x29, ports, characteristics % 0x100, characteristics / 0x100 % 0x100, 0xff, 0, 0]
  }

  /** A buffer that begins with these bytes. */
  predicate Begins(src: seq<nat>, b: seq<nat>) { src <= b }

  /** The descriptor a GET_DESCRIPTOR asks for, by its value. */
  function Descriptor(value: nat): Option<seq<nat>>
  {
    if value / 0x100 == 1 then Some(DEVICE_BYTES)
    else if value / 0x100 == 2 then Some(CONFIG_BYTES)
    else if value / 0x100 == 3 then
      if value % 0x100 == 0 then Some(LANGUAGE_BYTES)
      else if value % 0x100 == 1 then Some(StringBytes(VENDOR_TEXT))
      else if value % 0x100 == 2 then Some(StringBytes(PRODUCT_TEXT))
      else None
    else None
  }

  /** wPortStatus and wPortChange as usb.c takes them apart. */
  datatype PortStatus = PortStatus(connection: bool, enable: bool, suspend: bool, overcurrent: bool, reset: bool,
                                   power: bool, lowSpeed: bool, highSpeed: bool, cConnection: bool, cEnable: bool,
                                   cOvercurrent: bool, cReset: bool)

  /** The lowest n bits of x, from bit 0 on. */
  function Binary(x: nat, n: nat): (b: seq<bool>)
    ensures |b| == n
    decreases n, x
  {
    if n == 0 then [] else [x % 2 == 1] + Binary(x / 2, n - 1)
  }

  lemma {:induction false} BinaryAt(x: nat, n: nat, k: nat)
    requires k < n
    ensures Binary(x, n)[k] == Bit(x, k)
    decreases n
  {
    if k > 0 {
      BinaryAt(x / 2, n - 1, k - 1);
    }
  }

  /** The masks of USB_PORT_STAT, by bit numbers. */
  function FromBits(status: seq<bool>, change: seq<bool>): PortStatus
    requires |status| == 16 == |change|
  {
    PortStatus(status[0], status[1], status[2], status[3], status[4], status[8], status[9], status[10],
               change[0], change[1], change[3], change[4])
  }

  function Decode(bytes: seq<nat>): PortStatus
    requires |bytes| == 4
  {
    FromBits(Binary(bytes[0] + 0x100 * bytes[1], 16), Binary(bytes[2] + 0x100 * bytes[3], 16))
  }

  /** What the register and the reset record say. */
  function Reported(reg: Reg, reset: bool): PortStatus
  {
    PortStatus(PS_CS in reg, PS_PE in reg, PS_SUSP in reg, PS_OCA in reg, PS_PR in reg, PS_PP in reg,
               false, true, PS_CSC in reg, PS_PEC in reg, PS_OCC in reg, reset)
  }

  /** By register bits. */
  lemma ReportedBits(reg: Reg, reset: bool)
    ensures var s := Reported(reg, reset);
      && (s.connection <==> 0 in reg) && (s.enable <==> 2 in reg) && (s.suspend <==> 7 in reg)
      && (s.overcurrent <==> 4 in reg) && (s.reset <==> 8 in reg) && (s.power <==> 12 in reg)
      && (s.cConnection <==> 1 in reg) && (s.cEnable <==> 3 in reg) && (s.cOvercurrent <==> 5 in reg)
      && (s.cReset <==> reset) && s.highSpeed && !s.lowSpeed
  {
  }

  function Flag(b: bool): nat { if b then 1 else 0 }

  lemma FlagAt(x: nat, k: nat, f: bool, above: nat, below: nat)
    requires below < Pow2(k) && x == below + Pow2(k) * (Flag(f) + 2 * above)
    ensures Bit(x, k) == f
  {
    BitIsQuotient(x, k);
    FlagQuotient(x, Pow2(k), Flag(f) + 2 * above, below);
  }

  lemma FlagQuotient(x: nat, p: nat, q: nat, below: nat)
    requires below < p && x == below + p * q
    ensures x / p == q
  {
    DivModUnique(x, p, q, below);
  }

  lemma FiveFlags(x: nat, f0: bool, f1: bool, f2: bool, f3: bool, f4: bool, rest: nat)
    requires x == Flag(f0) + 2 * Flag(f1) + 4 * Flag(f2) + 8 * Flag(f3) + 16 * Flag(f4) + 32 * rest
    ensures Bit(x, 0) == f0 && Bit(x, 1) == f1 && Bit(x, 2) == f2 && Bit(x, 3) == f3 && Bit(x, 4) == f4
  {
    var x4 := Flag(f4) + 2 * rest;
    var x3 := Flag(f3) + 2 * x4;
    var x2 := Flag(f2) + 2 * x3;
    var x1 := Flag(f1) + 2 * x2;
    Pow2Small();
    FlagAt(x, 0, f0, x1, 0);
    FlagAt(x, 1, f1, x2, Flag(f0));
    FlagAt(x, 2, f2, x3, Flag(f0) + 2 * Flag(f1));
    FlagAt(x, 3, f3, x4, Flag(f0) + 2 * Flag(f1) + 4 * Flag(f2));
    FlagAt(x, 4, f4, rest, Flag(f0) + 2 * Flag(f1) + 4 * Flag(f2) + 8 * Flag(f3));
  }

  /** tmpbuf[i] |= flag, on a byte that does not have the flag yet. */
  method StatusBytes(reg: Reg, reset: bool) returns (bytes: seq<nat>)
    ensures |bytes| == 4 && Decode(bytes) == Reported(reg, reset)
  {
    var b0, b1, b2 := 0, 0, 0;
    if PS_CS in reg { b0 := b0 + 0x1; }
    if PS_PE in reg { b0 := b0 + 0x2; }
    if PS_SUSP in reg { b0 := b0 + 0x4; }
    if PS_OCA in reg { b0 := b0 + 0x8; }
    if PS_PR in reg { b0 := b0 + 0x10; }
    if PS_PP in reg { b1 := b1 + 0x1; }
    b1 := b1 + 0x4;
    if PS_CSC in reg { b2 := b2 + 0x1; }
    if PS_PEC in reg { b2 := b2 + 0x2; }
    if PS_OCC in reg { b2 := b2 + 0x8; }
    if reset { b2 := b2 + 0x10; }
    bytes := [b0, b1, b2, 0];
    StatusRead(reg, reset, b0, b1, b2);
  }

  lemma StatusRead(reg: Reg, reset: bool, b0: nat, b1: nat, b2: nat)
    requires b0 == Flag(PS_CS in reg) + 2 * Flag(PS_PE in reg) + 4 * Flag(PS_SUSP in reg) + 8 * Flag(PS_OCA in reg)
                   + 16 * Flag(PS_PR in reg)
    requires b1 == Flag(PS_PP in reg) + 4
    requires b2 == Flag(PS_CSC in reg) + 2 * Flag(PS_PEC in reg) + 8 * Flag(PS_OCC in reg) + 16 * Flag(reset)
    ensures Decode([b0, b1, b2, 0]) == Reported(reg, reset)
  {
    StatusFields(b0 + 0x100 * b1, b2 + 0x100 * 0, b0, b1, PS_CS in reg, PS_PE in reg, PS_SUSP in reg, PS_OCA in reg,
                 PS_PR in reg, PS_PP in reg, PS_CSC in reg, PS_PEC in reg, PS_OCC in reg, reset);
  }

  lemma StatusFields(x: nat, y: nat, b0: nat, b1: nat, f0: bool, f1: bool, f2: bool, f3: bool, f4: bool, power: bool,
                     c0: bool, c1: bool, c3: bool, c4: bool)
    requires x == b0 + 0x100 * b1 && b1 == Flag(power) + 4
    requires b0 == Flag(f0) + 2 * Flag(f1) + 4 * Flag(f2) + 8 * Flag(f3) + 16 * Flag(f4)
    requires y == Flag(c0) + 2 * Flag(c1) + 8 * Flag(c3) + 16 * Flag(c4)
    ensures FromBits(Binary(x, 16), Binary(y, 16))
            == PortStatus(f0, f1, f2, f3, f4, power, false, true, c0, c1, c3, c4)
  {
    StatusWord(x, b0, b1, f0, f1, f2, f3, f4, power);
    ChangeWord(y, c0, c1, c3, c4);
  }

  lemma ChangeWord(x: nat, c0: bool, c1: bool, c3: bool, c4: bool)
    requires x == Flag(c0) + 2 * Flag(c1) + 8 * Flag(c3) + 16 * Flag(c4)
    ensures var b := Binary(x, 16); b[0] == c0 && b[1] == c1 && b[3] == c3 && b[4] == c4
  {
    FiveFlags(x, c0, c1, false, c3, c4, 0);
    FirstBits(x);
  }

  lemma FirstBits(x: nat)
    ensures var b := Binary(x, 16);
      b[0] == Bit(x, 0) && b[1] == Bit(x, 1) && b[2] == Bit(x, 2) && b[3] == Bit(x, 3) && b[4] == Bit(x, 4)
  {
    BinaryAt(x, 16, 0);
    BinaryAt(x, 16, 1);
    BinaryAt(x, 16, 2);
    BinaryAt(x, 16, 3);
    BinaryAt(x, 16, 4);
  }

  lemma StatusWord(x: nat, b0: nat, b1: nat, f0: bool, f1: bool, f2: bool, f3: bool, f4: bool, power: bool)
    requires x == b0 + 0x100 * b1 && b1 == Flag(power) + 4
    requires b0 == Flag(f0) + 2 * Flag(f1) + 4 * Flag(f2) + 8 * Flag(f3) + 16 * Flag(f4)
    ensures var b := Binary(x, 16);
      && b[0] == f0 && b[1] == f1 && b[2] == f2 && b[3] == f3 && b[4] == f4 && b[8] == power && !b[9] && b[10]
  {
    FiveFlags(x, f0, f1, f2, f3, f4, 8 * b1);
    FirstBits(x);
    Pow2Byte();
    HighFlags(x, b0, power);
    BinaryAt(x, 16, 8);
    BinaryAt(x, 16, 9);
    BinaryAt(x, 16, 10);
  }

  lemma HighFlags(x: nat, b0: nat, power: bool)
    requires b0 < 0x100 && x == b0 + 0x100 * (Flag(power) + 4)
    ensures Bit(x, 8) == power && !Bit(x, 9) && Bit(x, 10)
  {
    Pow2Byte();
    assert Pow2(9) == 2 * Pow2(8) && Pow2(10) == 2 * Pow2(9);
    FlagAt(x, 8, power, 2, b0);
    FlagAt(x, 9, false, 1, b0 + 0x100 * Flag(power));
    FlagAt(x, 10, true, 0, b0 + 0x100 * Flag(power));
  }

  predicate KnownSet(feature: nat) { feature == FEAT_ENABLE || feature == FEAT_POWER || feature == FEAT_RESET }

  predicate KnownClear(feature: nat)
  {
    feature == FEAT_ENABLE || feature == FEAT_C_ENABLE || feature == FEAT_POWER || feature == FEAT_C_CONNECTION
    || feature == FEAT_OVER_CURRENT || feature == FEAT_C_RESET
  }

  /** The requests the hub knows. */
  predicate Known(r: HubRequest)
  {
    || (r.typeReq == GET_DESCRIPTOR && Descriptor(r.value).Some?)
    || (r.typeReq == GET_HUB_DESCRIPTOR && r.value / 0x100 == 0x29)
    || r.typeReq == SET_ADDRESS || r.typeReq == SET_CONFIGURATION || r.typeReq == GET_HUB_STATUS
    || r.typeReq == GET_PORT_STATUS
    || (r.typeReq == SET_PORT_FEATURE && KnownSet(r.value))
    || (r.typeReq == CLEAR_PORT_FEATURE && KnownClear(r.value))
  }

  /** The bytes a known request answers with. */
  predicate Answer(s: State, c: Call, ports: nat, characteristics: nat, src: seq<nat>)
    requires s.Valid() && c.Valid() && c.req.index <= PORTS
  {
    var t := c.req.typeReq;
    if t == GET_DESCRIPTOR then Descriptor(c.req.value) == Some(src)
    else if t == GET_HUB_DESCRIPTOR then src == HubBytes(ports, characteristics)
    else if t == GET_HUB_STATUS then src == [1, 0]
    else if t == GET_PORT_STATUS then
      |src| == 4 && Decode(src) == Reported(Seen(s.regs[c.req.index], c), c.req.index in s.portreset)
    else src == []
  }

  /** What requests answer with that do not depend on the port registers. */
  function StandardData(r: HubRequest, ports: nat, characteristics: nat): Option<seq<nat>>
  {
    if r.typeReq == GET_DESCRIPTOR then Descriptor(r.value)
    else if r.typeReq == GET_HUB_DESCRIPTOR && r.value / 0x100 == 0x29 then Some(HubBytes(ports, characteristics))
    else if r.typeReq == GET_HUB_STATUS then Some([1, 0])
    else if r.typeReq == SET_ADDRESS || r.typeReq == SET_CONFIGURATION then Some([])
    else None
  }

  /** Such a request yields as many bytes of its answer as it asks for. */
  predicate StandardReply(r: HubRequest, ports: nat, characteristics: nat, result: int, data: seq<nat>)
  {
    match StandardData(r, ports, characteristics)
    case None => true
    case Some(src) => result == Min3(|src|, r.length, r.length) && data == src[..result]
  }

  /** A status query that takes all four bytes. */
  predicate QueriesStatus(c: Call)
  {
    c.req.typeReq == GET_PORT_STATUS && c.req.index <= PORTS && c.req.length >= 4 && c.length >= 4
  }

  /** The status queries of a run were answered with these bytes. */
  ghost predicate Answered(states: seq<State>, calls: seq<Call>, replies: seq<seq<nat>>)
    requires Run(states, calls)
  {
    && |replies| == |calls|
    && forall k :: 0 <= k < |calls| && QueriesStatus(calls[k]) ==> AnsweredAt(states[k], calls[k], replies[k])
  }

  predicate AnsweredAt(s: State, c: Call, reply: seq<nat>)
    requires s.Valid() && c.Valid() && c.req.index <= PORTS
  {
    |reply| == 4 && Decode(reply) == Reported(Seen(s.regs[c.req.index], c), c.req.index in s.portreset)
  }

  /** The first calls are a run, answered. */
  ghost predicate RunUpTo(states: seq<State>, calls: seq<Call>, replies: seq<seq<nat>>, n: nat)
  {
    && |states| == n + 1 && |replies| == n <= |calls|
    && (forall k :: 0 <= k <= n ==> states[k].Valid())
    && forall k :: 0 <= k < n ==> ServedAt(states[k], calls[k], states[k + 1], replies[k])
  }

  ghost predicate ServedAt(before: State, c: Call, after: State, reply: seq<nat>)
    requires before.Valid()
  {
    c.Valid() && Served(before, c, after) && (QueriesStatus(c) ==> AnsweredAt(before, c, reply))
  }

  lemma RunFurther(states: seq<State>, calls: seq<Call>, replies: seq<seq<nat>>, n: nat, after: State, reply: seq<nat>)
    requires RunUpTo(states, calls, replies, n) && n < |calls|
    requires ServedAt(states[n], calls[n], after, reply)
    ensures RunUpTo(states + [after], calls, replies + [reply], n + 1)
  {
    var all, answers := states + [after], replies + [reply];
    forall k | 0 <= k < n + 1
      ensures ServedAt(all[k], calls[k], all[k + 1], answers[k])
    {
      if k < n {
        assert all[k] == states[k] && all[k + 1] == states[k + 1] && answers[k] == replies[k];
      }
    }
  }

  lemma RunComplete(states: seq<State>, calls: seq<Call>, replies: seq<seq<nat>>)
    requires RunUpTo(states, calls, replies, |calls|)
    ensures Run(states, calls) && Answered(states, calls, replies)
  {
    forall k | 0 <= k < |calls|
      ensures calls[k].Valid() && Served(states[k], calls[k], states[k + 1])
    {
      assert ServedAt(states[k], calls[k], states[k + 1], replies[k]);
    }
    forall k | 0 <= k < |calls| && QueriesStatus(calls[k])
      ensures AnsweredAt(states[k], calls[k], replies[k])
    {
      assert ServedAt(states[k], calls[k], states[k + 1], replies[k]);
    }
  }

  /** The C_RESET bit a status query of a run reports is set exactly when a reset of that port succeeded
      before it and was not cleared since. */
  lemma ReportedReset(states: seq<State>, calls: seq<Call>, replies: seq<seq<nat>>, n: nat)
    requires Run(states, calls) && Answered(states, calls, replies) && n < |calls| && QueriesStatus(calls[n])
    requires calls[n].req.index !in states[0].portreset
    ensures |replies[n]| == 4
    ensures var port := calls[n].req.index;
      Decode(replies[n]).cReset <==>
      exists k :: 0 <= k < n && ResetAt(states, calls, k, port)
                  && forall j :: k < j < n ==> !ClearedAt(calls, j, port)
  {
    ResetBit(states, calls, calls[n].req.index, n);
    assert AnsweredAt(states[n], calls[n], replies[n]);
  }

  /** A connection change that was latched and not acknowledged is reported. */
  lemma ReportedConnection(states: seq<State>, calls: seq<Call>, replies: seq<seq<nat>>, from: nat, n: nat)
    requires Run(states, calls) && Answered(states, calls, replies) && from <= n < |calls| && QueriesStatus(calls[n])
    requires calls[n].req.index > 0 && PS_CSC in states[from].regs[calls[n].req.index]
    requires forall j :: from <= j < n && calls[j].Addresses(calls[n].req.index) ==>
      PS_CSC !in Acknowledged(states[j].regs[calls[n].req.index], calls[j])
    ensures |replies[n]| == 4 && Decode(replies[n]).cConnection
  {
    LatchStays(states, calls, calls[n].req.index, PS_CSC, from, n);
    assert AnsweredAt(states[n], calls[n], replies[n]);
  }

  function Min3(a: int, b: int, c: int): int
  {
    var m := if b < a then b else a;
    if c < m then c else m
  }

  // ---- the hub itself ----

  datatype Access = ReadPort(port: nat, value: Reg) | WritePort(port: nat, value: Reg) | WriteConfigFlag

  /** The writes of SET_FEATURE on a port that read as this. */
  function SetWrites(port: nat, feature: nat, read: Reg, powerControl: bool): seq<Access>
  {
    var reg := read - PS_CLEAR;
    if feature == FEAT_ENABLE then [WritePort(port, reg + {PS_PE})]
    else if feature == FEAT_POWER && powerControl then [WritePort(port, reg + {PS_PP}), WriteConfigFlag]
    else if feature == FEAT_RESET then
      if GivesUp(read) then [WritePort(port, reg + {PS_PO})]
      else [WritePort(port, reg + {PS_PR} - {PS_PE}), WritePort(port, reg + {PS_PR} - {PS_PE} - {PS_PR})]
    else []
  }

  /** A reset is the reset bit going up with the port disabled and then down, nothing else moving. */
  lemma ResetPulse(port: nat, read: Reg, powerControl: bool)
    requires !GivesUp(read)
    ensures var writes := SetWrites(port, FEAT_RESET, read, powerControl);
      && |writes| == 2 && writes[0].WritePort? && writes[1].WritePort?
      && PS_PR in writes[0].value && PS_PR !in writes[1].value
      && PS_PE !in writes[0].value && writes[1].value <= writes[0].value <= writes[1].value + {PS_PR}
      && writes[1].value == read - PS_CLEAR - {PS_PE, PS_PR}
  {
  }

  /** What SET_FEATURE writes, by register bits (section 2.3.9 of EHCI 1.0): to the port as it was read,
      without ones on the change bits 1, 3 and 5, and with bit 2 for ENABLE, bit 12 for POWER where the
      controller has power control, bit 8 for the two writes of RESET, and bit 13 instead when a low speed
      device is given up. */
  lemma SetBits(port: nat, read: Reg, powerControl: bool)
    ensures SetWrites(port, 1, read, powerControl) == [WritePort(port, read - {1, 3, 5} + {2})]
    ensures SetWrites(port, 8, read, true) == [WritePort(port, read - {1, 3, 5} + {12}), WriteConfigFlag]
    ensures SetWrites(port, 8, read, false) == []
    ensures SetWrites(port, 4, read, powerControl)
            == if 0 in read && 2 !in read && 10 in read && 11 !in read
               then [WritePort(port, read - {1, 3, 5} + {13})]
               else [WritePort(port, read - {1, 2, 3, 5} + {8}), WritePort(port, read - {1, 2, 3, 5, 8})]
  {
    LowSpeedBits(read);
    assert PS_CLEAR == {1, 3, 5};
    assert read - {1, 3, 5} + {8} - {2} == read - {1, 2, 3, 5} + {8};
    assert read - {1, 2, 3, 5} + {8} - {8} == read - {1, 2, 3, 5, 8};
  }

  lemma LowSpeedBits(reg: Reg)
    ensures IsLowSpeed(reg) <==> 10 in reg && 11 !in reg
  {
    assert 11 in reg <==> 11 in reg * PS_LS;
    assert 10 in reg <==> 10 in reg * PS_LS;
  }

  /** And what CLEAR_FEATURE writes.  Clearing ENABLE and C_RESET writes back the change bits read. */
  lemma ClearBits(read: Reg, powerControl: bool)
    ensures ClearWrite(1, read, powerControl) == Some(read - {2})
    ensures ClearWrite(17, read, powerControl) == Some(read - {1, 3, 5} + {2})
    ensures ClearWrite(8, read, true) == Some(read - {3, 5, 12} + {1})
    ensures ClearWrite(8, read, false) == Some(read - {3, 5} + {1}) == ClearWrite(16, read, powerControl)
    ensures ClearWrite(3, read, powerControl) == Some(read - {1, 3} + {5})
    ensures ClearWrite(20, read, powerControl) == Some(read)
  {
    assert PS_CLEAR == {1, 3, 5};
    assert read - {1, 3, 5} - {12} + {1} == read - {3, 5, 12} + {1};
    assert read - {1, 3, 5} + {1} == read - {3, 5} + {1};
    assert read - {1, 3, 5} + {5} == read - {1, 3} + {5};
  }

  /** After a write the port holds what was written on bits 2 and 12, whatever it held. */
  lemma WrittenBits(v: Reg, w: Reg)
    ensures 2 in Written(v, w) <==> 2 in w
    ensures 12 in Written(v, w) <==> 12 in w
    ensures 1 in Written(v, w) <==> 1 in v && 1 !in w
  {
  }

  /** What CLEAR_FEATURE writes back to a port that read as this. */
  function ClearWrite(feature: nat, read: Reg, powerControl: bool): Option<Reg>
  {
    var masked := read - PS_CLEAR;
    if feature == FEAT_ENABLE then Some(read - {PS_PE})
    else if feature == FEAT_C_ENABLE then Some(masked + {PS_PE})
    else if feature == FEAT_POWER && powerControl then Some(masked - {PS_PP} + {PS_CSC})
    else if feature == FEAT_POWER || feature == FEAT_C_CONNECTION then Some(masked + {PS_CSC})
    else if feature == FEAT_OVER_CURRENT then Some(masked + {PS_OCC})
    else if feature == FEAT_C_RESET then Some(read)
    else None
  }

  /** A write without change bits keeps every latch. */
  lemma KeepsLatches(port: nat, v: Reg, w: Reg, news: Reg)
    requires w !! PS_CLEAR
    ensures port > 0 ==>
      var v' := WrittenOf(port, DriftOf(port, v, news), w); Latched(v) <= v' && Latched(v') <= v + news
  {
  }

  lemma DisjointSame(a: Reg, b: Reg)
    requires a !! b
    ensures a - b == a
  {
  }

  /** Between the read and the end every latch seen stayed. */
  lemma SetFollows(v: Reg, c: Call, read: Reg, after: Reg)
    requires c.Valid() && c.req.index > 0 && c.req.typeReq == SET_PORT_FEATURE && read == Seen(v, c)
    requires Latched(read) <= after && Latched(after) <= read + c.hw.drift[1] + c.hw.drift[2]
    ensures LatchesFollow(v, c, after)
  {
  }

  /** The switch over the feature; POWER falls through to C_CONNECTION. */
  method ClearedRegister(feature: nat, read: Reg, powerControl: bool) returns (write: Option<Reg>)
    ensures write == ClearWrite(feature, read, powerControl)
  {
    var reg := read;
    if feature == FEAT_ENABLE {
      reg := reg - {PS_PE};
    } else if feature == FEAT_C_ENABLE {
      reg := (reg - PS_CLEAR) + {PS_PE};
    } else if feature == FEAT_POWER || feature == FEAT_C_CONNECTION {
      if feature == FEAT_POWER && powerControl {
        reg := reg - (PS_CLEAR + {PS_PP});
        assert reg - PS_CLEAR == read - PS_CLEAR - {PS_PP};
      }
      reg := (reg - PS_CLEAR) + {PS_CSC};
    } else if feature == FEAT_OVER_CURRENT {
      reg := (reg - PS_CLEAR) + {PS_OCC};
    } else if feature != FEAT_C_RESET {
      return None;
    }
    write := Some(reg);
  }

  /** The ones this write puts on change bits are the acknowledged ones. */
  lemma ClearFollows(v: Reg, c: Call, write: Reg)
    requires c.Valid() && c.req.index > 0 && c.req.typeReq == CLEAR_PORT_FEATURE
    requires ClearWrite(c.req.value, Seen(v, c), c.hw.powerControl) == Some(write)
    ensures write * PS_CLEAR == Acknowledged(v, c)
    ensures LatchesFollow(v, c, Written(Drift(Seen(v, c), c.hw.drift[1]), write))
  {
  }

  lemma MaskedSame(port: nat, read: Reg, powerControl: bool)
    ensures GivesUp(read - PS_CLEAR) == GivesUp(read)
    ensures SetWrites(port, FEAT_RESET, read - PS_CLEAR, powerControl)
            == SetWrites(port, FEAT_RESET, read, powerControl)
  {
    assert (read - PS_CLEAR) * PS_LS == read * PS_LS;
    assert read - PS_CLEAR - PS_CLEAR == read - PS_CLEAR;
  }

  class Hub {
    var regs: seq<Reg>
    var portreset: set<nat>
    var rootdev: nat
    var log: seq<Access>
    var ports: nat // descriptor.hub
    var characteristics: nat

    /** The static variables before ehci_init has set anything but the hub descriptor. */
    constructor (regs: seq<Reg>, ports: nat, characteristics: nat)
      requires |regs| == PORTS + 1
      ensures Valid() && Contents() == State(regs, {}, 0) && log == []
      ensures this.ports == ports && this.characteristics == characteristics
    {
      this.regs, this.ports, this.characteristics := regs, ports, characteristics;
      portreset, rootdev, log := {}, 0, [];
    }

    ghost function Contents(): State
      reads this
    {
      State(regs, portreset, rootdev)
    }

    ghost predicate Valid()
      reads this
    {
      Contents().Valid()
    }

    method ReadPsc(port: nat, news: Reg) returns (reg: Reg)
      requires Valid() && port <= PORTS
      modifies this`regs, this`log
      ensures regs == old(regs)[port := reg] && reg == DriftOf(port, old(regs[port]), news)
      ensures log == old(log) + [ReadPort(port, reg)]
    {
      reg := DriftOf(port, regs[port], news);
      regs, log := regs[port := reg], log + [ReadPort(port, reg)];
    }

    method WritePsc(port: nat, w: Reg, news: Reg)
      requires Valid() && port <= PORTS
      modifies this`regs, this`log
      ensures regs == old(regs)[port := WrittenOf(port, DriftOf(port, old(regs[port]), news), w)]
      ensures log == old(log) + [WritePort(port, w)]
    {
      regs := regs[port := WrittenOf(port, DriftOf(port, regs[port], news), w)];
      log := log + [WritePort(port, w)];
    }

    /** USB_PORT_FEAT_RESET, from the register as read with the change bits masked. */
    method ResetPort(c: Call, masked: Reg)
      requires Valid() && c.Valid() && c.Sets(FEAT_RESET) && c.req.index <= PORTS && masked !! PS_CLEAR
      modifies this`regs, this`portreset, this`log
      ensures Valid() && regs == old(regs)[c.req.index := regs[c.req.index]]
      ensures var v, v' := old(regs)[c.req.index], regs[c.req.index];
        c.req.index > 0 ==> Latched(v) <= v' && Latched(v') <= v + c.hw.drift[1] + c.hw.drift[2]
      ensures portreset == old(portreset)
                           + if !GivesUp(masked) && AsyncQueue.Answers(c.hw.polls, RESET_MASK, 0, RESET_POLLS)
                             then {c.req.index} else {}
      ensures log == old(log) + SetWrites(c.req.index, FEAT_RESET, masked, c.hw.powerControl)
    {
      var port, drift, reg := c.req.index, c.hw.drift, masked;
      DisjointSame(reg, PS_CLEAR);
      if PS_CS in reg && PS_PE !in reg && IsLowSpeed(reg) {
        reg := reg + {PS_PO};
        KeepsLatches(port, regs[port], reg, drift[1]);
        WritePsc(port, reg, drift[1]);
      } else {
        reg := reg + {PS_PR};
        reg := reg - {PS_PE};
        KeepsLatches(port, regs[port], reg, drift[1]);
        WritePsc(port, reg, drift[1]);
        KeepsLatches(port, regs[port], reg - {PS_PR}, drift[2]);
        WritePsc(port, reg - {PS_PR}, drift[2]);
        assert log == old(log) + SetWrites(port, FEAT_RESET, masked, c.hw.powerControl);
        var ret := AsyncQueue.Handshake(c.hw.polls, RESET_MASK, 0, RESET_POLLS);
        if ret == 0 {
          portreset := portreset + {port};
        }
      }
    }

    /** One write without change bits. */
    method SetMasked(c: Call, w: Reg)
      requires Valid() && c.Valid() && c.req.index <= PORTS && w !! PS_CLEAR
      modifies this`regs, this`log
      ensures Valid() && regs == old(regs)[c.req.index := regs[c.req.index]]
      ensures var v, v' := old(regs)[c.req.index], regs[c.req.index];
        c.req.index > 0 ==> Latched(v) <= v' && Latched(v') <= v + c.hw.drift[1] + c.hw.drift[2]
      ensures log == old(log) + [WritePort(c.req.index, w)]
    {
      KeepsLatches(c.req.index, regs[c.req.index], w, c.hw.drift[1]);
      WritePsc(c.req.index, w, c.hw.drift[1]);
    }

    /** USB_REQ_SET_FEATURE on a port. */
    method SetPortFeature(c: Call) returns (ok: bool)
      requires Valid() && c.Valid() && c.req.typeReq == SET_PORT_FEATURE && c.req.index <= PORTS
      modifies this`regs, this`portreset, this`log
      ensures Served(old(Contents()), c, Contents())
      ensures ok <==> KnownSet(c.req.value)
      ensures var read := Seen(old(regs)[c.req.index], c);
        log == old(log) + [ReadPort(c.req.index, read)] + SetWrites(c.req.index, c.req.value, read, c.hw.powerControl)
    {
      var port, drift := c.req.index, c.hw.drift;
      ghost var v := regs[port];
      var read := ReadPsc(port, drift[0]);
      var reg := read - PS_CLEAR;
      ok := true;
      if c.req.value == FEAT_ENABLE {
        SetMasked(c, reg + {PS_PE});
      } else if c.req.value == FEAT_POWER {
        if c.hw.powerControl {
          SetMasked(c, reg + {PS_PP});
          regs, log := regs[0 := {0}], log + [WriteConfigFlag];
        }
      } else if c.req.value == FEAT_RESET {
        MaskedSame(port, read, c.hw.powerControl);
        ResetPort(c, reg);
      } else {
        ok := false;
      }
      if port > 0 {
        SetFollows(v, c, read, regs[port]);
      }
      OnePortServed(old(Contents()), c, Contents());
    }

    /** USB_REQ_CLEAR_FEATURE on a port. */
    method ClearPortFeature(c: Call) returns (ok: bool)
      requires Valid() && c.Valid() && c.req.typeReq == CLEAR_PORT_FEATURE && c.req.index <= PORTS
      modifies this`regs, this`portreset, this`log
      ensures Served(old(Contents()), c, Contents())
      ensures ok <==> KnownClear(c.req.value)
      ensures var read := Seen(old(regs)[c.req.index], c);
        var write := ClearWrite(c.req.value, read, c.hw.powerControl);
        log == old(log) + [ReadPort(c.req.index, read)]
               + (if write.Some? then [WritePort(c.req.index, write.value)] else [])
    {
      var port, drift := c.req.index, c.hw.drift;
      ghost var v := regs[port];
      var reg := ReadPsc(port, drift[0]);
      var write := ClearedRegister(c.req.value, reg, c.hw.powerControl);
      if write.None? {
        return false;
      }
      if c.req.value == FEAT_C_RESET {
        portreset := portreset - {port};
      }
      WritePsc(port, write.value, drift[1]);
      if port > 0 {
        ClearFollows(v, c, write.value);
      }
      OnePortServed(old(Contents()), c, Contents());
      ok := true;
    }

    /** The switch over typeReq: whether the request is known, and what it answers with. */
    method Dispatch(c: Call) returns (ok: bool, src: seq<nat>)
      requires Valid() && c.Valid() && c.req.index <= PORTS
      modifies this
      ensures Served(old(Contents()), c, Contents())
      ensures ok <==> Known(c.req)
      ensures ok ==> Answer(old(Contents()), c, ports, characteristics, src)
      ensures ports == old(ports) && characteristics == old(characteristics)
    {
      ok, src := true, [];
      var t := c.req.typeReq;
      if t == GET_DESCRIPTOR {
        var d := Descriptor(c.req.value);
        if d.None? {
          ok := false;
        } else {
          src := d.value;
        }
      } else if t == GET_HUB_DESCRIPTOR {
        if c.req.value / 0x100 == 0x29 {
          src := HubBytes(ports, characteristics);
        } else {
          ok := false;
        }
      } else if t == SET_ADDRESS {
        rootdev := c.req.value;
      } else if t == SET_CONFIGURATION {
      } else if t == GET_HUB_STATUS {
        src := [1, 0];
      } else if t == GET_PORT_STATUS {
        var reg := ReadPsc(c.req.index, c.hw.drift[0]);
        src := StatusBytes(reg, c.req.index in portreset);
      } else if t == SET_PORT_FEATURE {
        ok := SetPortFeature(c);
      } else if t == CLEAR_PORT_FEATURE {
        ok := ClearPortFeature(c);
      } else {
        ok := false;
      }
    }

    /** ehci_submit_root; `data` is what it copies to the caller's buffer. */
    method SubmitRoot(dev: AsyncQueue.Device, c: Call) returns (ret: int, data: seq<nat>, ghost src: seq<nat>)
      requires Valid() && c.Valid()
      modifies this, dev
      ensures Served(old(Contents()), c, Contents()) && dev.toggle == old(dev.toggle)
      ensures ret == if c.req.index <= 2 && Known(c.req) then 0 else -1
      ensures ret == 0 ==>
        && Answer(old(Contents()), c, old(ports), old(characteristics), src)
        && dev.status == 0 && dev.actLen == Min3(|src|, c.req.length, c.length)
        && data == if dev.actLen > 0 then src[..dev.actLen] else []
      ensures ret != 0 ==> data == []
      ensures ret != 0 && c.req.index <= 2 ==> dev.status == 2 && dev.actLen == 0
      ensures c.req.index > 2 ==> dev.status == old(dev.status) && dev.actLen == old(dev.actLen)
    {
      data, src := [], [];
      if c.req.index > PORTS {
        return -1, data, src;
      }
      var ok, source := Dispatch(c);
      src := source;
      if !ok {
        dev.actLen, dev.status := 0, AsyncQueue.USB_ST_STALLED;
        return -1, data, src;
      }
      var len := Min3(|source|, c.req.length, c.length);
      if len > 0 {
        data := source[..len];
      }
      dev.actLen, dev.status := len, 0;
      ret := 0;
    }

    /** usb_control_msg to the hub: the number of bytes, or -1. */
    method UsbControl(dev: AsyncQueue.Device, c: Call) returns (result: int, data: seq<nat>)
      requires Valid() && c.Valid() && c.length == c.req.length && c.req.index <= PORTS
      modifies this, dev
      ensures Served(old(Contents()), c, Contents())
      ensures StandardReply(c.req, old(ports), old(characteristics), result, data)
    {
      var ret, bytes, src := SubmitRoot(dev, c);
      data := bytes;
      result := if ret < 0 then -1 else dev.actLen;
    }

    /** Any sequence of requests is a run of the hub, answered as the states between say. */
    method ServeAll(dev: AsyncQueue.Device, calls: seq<Call>)
      returns (replies: seq<seq<nat>>, ghost states: seq<State>)
      requires Valid() && forall k :: 0 <= k < |calls| ==> calls[k].Valid()
      modifies this, dev
      ensures Run(states, calls) && states[0] == old(Contents()) && states[|calls|] == Contents()
      ensures Answered(states, calls, replies)
    {
      replies, states := [], [Contents()];
      for i := 0 to |calls|
        invariant RunUpTo(states, calls, replies, i) && states[0] == old(Contents()) && states[i] == Contents()
      {
        var ret, data, src := SubmitRoot(dev, calls[i]);
        RunFurther(states, calls, replies, i, Contents(), data);
        states, replies := states + [Contents()], replies + [data];
      }
      RunComplete(states, calls, replies);
    }
  }
}
