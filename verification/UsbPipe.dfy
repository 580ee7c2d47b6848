/** Pipes and data toggles: the packing macros of usb.h.  A pipe is one 32-bit word holding the packet
    size code, the direction, the device number, the endpoint, the speed and the transfer type. */
module UsbPipe {
  import opened Bits

  const USB_DIR_IN := 0x80
  const PIPE_CONTROL := 2
  const PIPE_BULK := 3
  const SPEED_HIGH := 2

  /** What a device contributes to its pipes. */
  datatype Target = Target(devnum: nat, speed: nat, maxpacketsize: nat) {
    predicate Fits() { devnum < 128 && speed < 4 && maxpacketsize < 4 }
  }

  /** (devnum << 8) | (endpoint << 15) | (speed << 26) | maxpacketsize */
  function CreatePipe(t: Target, endpoint: nat): nat
  {
    Or(Or(Or(t.devnum * 0x100, endpoint * 0x8000), t.speed * 0x400_0000), t.maxpacketsize)
  }

  function DefaultPipe(t: Target): nat { t.speed * 0x400_0000 }

  function SndPipe(kind: nat, t: Target, endpoint: nat): nat { Or(kind * 0x4000_0000, CreatePipe(t, endpoint)) }
  function RcvPipe(kind: nat, t: Target, endpoint: nat): nat { Or(SndPipe(kind, t, endpoint), USB_DIR_IN) }
  function SndDefaultControl(t: Target): nat { Or(PIPE_CONTROL * 0x4000_0000, DefaultPipe(t)) }

  // ---- unpacking: shift and mask ----

  function PipeIn(pipe: nat): nat { And(pipe / 0x80, 1) }
  function PipeDevice(pipe: nat): nat { And(pipe / 0x100, 0x7f) }
  function PipeEndpoint(pipe: nat): nat { And(pipe / 0x8000, 0xf) }
  function PipeSpeed(pipe: nat): nat { And(pipe / 0x400_0000, 3) }
  function PipeType(pipe: nat): nat { And(pipe / 0x4000_0000, 3) }

  lemma Powers()
    ensures Pow2(1) == 2 && Pow2(2) == 4 && Pow2(4) == 0x10 && Pow2(7) == 0x80 && Pow2(8) == 0x100
    ensures Pow2(15) == 0x8000 && Pow2(26) == 0x400_0000 && Pow2(30) == 0x4000_0000
  {
    Pow2Byte();
    Pow2Half();
    Pow2Small();
    Pow2Add(4, 3);
    Pow2Add(8, 7);
    Pow2Add(16, 8);
    Pow2Add(24, 2);
    Pow2Add(26, 4);
  }

  /** A pipe as a sum of its fields. */
  function PipeSum(kind: nat, in_: nat, t: Target, endpoint: nat): nat
  {
    kind * 0x4000_0000 + t.speed * 0x400_0000 + endpoint * 0x8000 + t.devnum * 0x100 + in_ * 0x80 + t.maxpacketsize
  }

  lemma CreatePipeIsSum(t: Target, endpoint: nat)
    requires t.Fits() && endpoint < 16
    ensures CreatePipe(t, endpoint) == PipeSum(0, 0, t, endpoint)
  {
    Powers();
    var d, e, s := t.devnum * 0x100, endpoint * 0x8000, t.speed * 0x400_0000;
    ExactDiv(e, endpoint, 0x8000);
    OrCommutes(d, e);
    OrIsAdd(e, d, 15);
    ExactDiv(s, t.speed, 0x400_0000);
    OrCommutes(d + e, s);
    OrIsAdd(s, d + e, 26);
    ExactDiv(s + e + d, t.speed * 0x4_0000 + endpoint * 0x80 + t.devnum, 0x100);
    OrIsAdd(s + e + d, t.maxpacketsize, 8);
  }

  lemma SndPipeIsSum(kind: nat, t: Target, endpoint: nat)
    requires t.Fits() && endpoint < 16 && kind < 4
    ensures SndPipe(kind, t, endpoint) == PipeSum(kind, 0, t, endpoint)
  {
    Powers();
    CreatePipeIsSum(t, endpoint);
    ExactDiv(kind * 0x4000_0000, kind, 0x4000_0000);
    OrIsAdd(kind * 0x4000_0000, CreatePipe(t, endpoint), 30);
  }

  lemma RcvPipeIsSum(kind: nat, t: Target, endpoint: nat)
    requires t.Fits() && endpoint < 16 && kind < 4
    ensures RcvPipe(kind, t, endpoint) == PipeSum(kind, 1, t, endpoint)
  {
    SndPipeIsSum(kind, t, endpoint);
    SetDirection(SndPipe(kind, t, endpoint), kind * 0x40_0000 + t.speed * 0x4_0000 + endpoint * 0x80 + t.devnum,
                 t.maxpacketsize);
  }

  lemma SetDirection(p: nat, high: nat, low: nat)
    requires p == high * 0x100 + low && low < 0x80
    ensures Or(p, USB_DIR_IN) == p + USB_DIR_IN
  {
    assert Pow2(7) == 0x80 by { Powers(); }
    DivModUnique(p, 0x80, 2 * high, low);
    OrOneBit(p, 7);
    BitIsQuotient(p, 7);
    assert p / Pow2(7) == 2 * high;
  }

  /** Unpacking returns every packed field. */
  lemma Unpacked(kind: nat, in_: nat, t: Target, endpoint: nat)
    requires t.Fits() && endpoint < 16 && kind < 4 && in_ < 2
    ensures Carries(PipeSum(kind, in_, t, endpoint), kind, in_, t, endpoint)
  {
    var pipe := PipeSum(kind, in_, t, endpoint);
    Powers();
    Field(pipe, 0x80, 0x80_0000 * kind + 0x8_0000 * t.speed + 0x100 * endpoint + 2 * t.devnum + in_, t.maxpacketsize);
    MaskField(pipe / 0x80, 1, 0x40_0000 * kind + 0x4_0000 * t.speed + 0x80 * endpoint + t.devnum, in_);
    Field(pipe, 0x100, 0x40_0000 * kind + 0x4_0000 * t.speed + 0x80 * endpoint + t.devnum,
          in_ * 0x80 + t.maxpacketsize);
    MaskField(pipe / 0x100, 7, 0x8000 * kind + 0x800 * t.speed + endpoint, t.devnum);
    Field(pipe, 0x8000, 0x8000 * kind + 0x800 * t.speed + endpoint,
          t.devnum * 0x100 + in_ * 0x80 + t.maxpacketsize);
    MaskField(pipe / 0x8000, 4, 0x800 * kind + 0x80 * t.speed, endpoint);
    Field(pipe, 0x400_0000, 0x10 * kind + t.speed,
          endpoint * 0x8000 + t.devnum * 0x100 + in_ * 0x80 + t.maxpacketsize);
    MaskField(pipe / 0x400_0000, 2, 4 * kind, t.speed);
    Field(pipe, 0x4000_0000, kind,
          t.speed * 0x400_0000 + endpoint * 0x8000 + t.devnum * 0x100 + in_ * 0x80 + t.maxpacketsize);
    MaskField(pipe / 0x4000_0000, 2, 0, kind);
  }

  lemma Field(x: nat, unit: nat, high: nat, low: nat)
    requires low < unit && x == high * unit + low
    ensures x / unit == high
  {
    DivModUnique(x, unit, high, low);
  }

  lemma MaskField(x: nat, k: nat, high: nat, low: nat)
    requires low < Pow2(k) && x == high * Pow2(k) + low
    ensures And(x, Pow2(k) - 1) == low
  {
    AndLowMask(x, k);
    DivModUnique(x, Pow2(k), high, low);
  }

  /** The pipe carries this kind of transfer in this direction to this endpoint. */
  predicate Carries(pipe: nat, kind: nat, in_: nat, t: Target, endpoint: nat)
  {
    && PipeType(pipe) == kind && PipeSpeed(pipe) == t.speed && PipeEndpoint(pipe) == endpoint
    && PipeDevice(pipe) == t.devnum && PipeIn(pipe) == in_
  }

  /** What the macros pack by ORing the accessors read back, for every kind, device and endpoint. */
  lemma PackedPipes(kind: nat, t: Target, endpoint: nat)
    requires t.Fits() && endpoint < 16 && kind < 4
    ensures Carries(SndPipe(kind, t, endpoint), kind, 0, t, endpoint)
    ensures Carries(RcvPipe(kind, t, endpoint), kind, 1, t, endpoint)
  {
    SndPipeIsSum(kind, t, endpoint);
    RcvPipeIsSum(kind, t, endpoint);
    Unpacked(kind, 0, t, endpoint);
    Unpacked(kind, 1, t, endpoint);
  }

  /** The default control pipe goes to endpoint 0 of device 0, whatever the device's own number. */
  lemma DefaultPipes(t: Target)
    requires t.Fits()
    ensures Carries(SndDefaultControl(t), PIPE_CONTROL, 0, t.(devnum := 0), 0)
  {
    DefaultIsSum(t);
    Unpacked(PIPE_CONTROL, 0, Target(0, t.speed, 0), 0);
  }

  lemma DefaultIsSum(t: Target)
    requires t.Fits()
    ensures SndDefaultControl(t) == PipeSum(PIPE_CONTROL, 0, Target(0, t.speed, 0), 0)
  {
    Powers();
    ExactDiv(PIPE_CONTROL * 0x4000_0000, PIPE_CONTROL, 0x4000_0000);
    OrIsAdd(PIPE_CONTROL * 0x4000_0000, DefaultPipe(t), 30);
  }

  // ---- data toggles, one bit for each endpoint ----

  function Not(x: Word): Word { WORD - 1 - x }

  function GetToggle(toggles: Word, ep: nat): nat { And(Lsr(toggles, ep), 1) }

  /** (toggles & ~(1 << ep)) | (bit << ep) */
  function SetToggle(toggles: Word, ep: nat, bit: nat): nat
    requires ep < 32
  {
    Pow2Word();
    Pow2Less(ep, 32);
    Or(And(toggles, Not(Pow2(ep))), bit * Pow2(ep))
  }

  lemma {:induction false} NotBit(x: nat, k: nat, i: nat)
    requires x < Pow2(k) && i < k
    ensures Bit(Pow2(k) - 1 - x, i) <==> !Bit(x, i)
    decreases i
  {
    var y := Pow2(k) - 1 - x;
    if i > 0 {
      assert y / 2 == Pow2(k - 1) - 1 - x / 2;
      NotBit(x / 2, k - 1, i - 1);
    }
  }

  lemma ToggleIsBit(toggles: Word, ep: nat)
    ensures GetToggle(toggles, ep) == if Bit(toggles, ep) then 1 else 0
  {
    BitIsQuotient(toggles, ep);
    LowestBit(Lsr(toggles, ep));
  }

  lemma LowestBit(y: nat)
    ensures And(y, 1) == if y % 2 == 1 then 1 else 0
  {
    assert Pow2(1) == 2;
    AndLowMask(y, 1);
  }

  /** Setting one endpoint's toggle sets it and leaves every other endpoint's alone. */
  lemma SetThenGet(toggles: Word, ep: nat, bit: nat, other: nat)
    requires ep < 32 && other < 32 && bit < 2
    ensures SetToggle(toggles, ep, bit) < WORD
    ensures GetToggle(SetToggle(toggles, ep, bit), other) == if other == ep then bit else GetToggle(toggles, other)
  {
    Pow2Word();
    Pow2Less(ep, 32);
    var kept, put := And(toggles, Not(Pow2(ep))), bit * Pow2(ep);
    OrBelow(kept, put, 32);
    ToggleIsBit(toggles, other);
    ToggleIsBit(Or(kept, put), other);
    OrBit(kept, put, other);
    AndBit(toggles, Not(Pow2(ep)), other);
    NotBit(Pow2(ep), 32, other);
    Pow2Bit(ep, other);
    ZeroBit(other);
  }
}
