/** Who receives a control message: the routing of addresses between the virtual root hub and the bus
    (submit_control_msg of ehci-hcd.c), over the enumeration of usb.c.  A device on the bus is reached
    through ehci_submit_async, which reads its parent's address; only the root hub has no parent. */
module Routing {
  import opened Options
  import opened UsbPipe
  import opened HubDescriptor
  import UsbConfig
  import MaxPacket
  import RootDescriptor
  import RootHub

  type Bytes = UsbConfig.Bytes
  type Request = RootHub.HubRequest

  const MAX_DEVICES := 32
  const MAX_CHILDREN := 8
  const MAX_TRIES := 5

  const SPEED_FULL := 0
  const SPEED_LOW := 1

  const FEAT_SUSPEND := 2
  const FEAT_C_OVER_CURRENT := 19

  // ---- devices ----

  /** The parts of a usb_device enumeration works on; devices are numbered by their place in usb_dev. */
  datatype Device = Device(devnum: int, speed: nat, maxPacketSize: nat, parent: Option<nat>,
                           children: seq<Option<nat>>, maxChild: nat, identity: Identity)
  {
    predicate Valid()
    {
      && -1 <= devnum <= MAX_DEVICES && speed < 4 && maxPacketSize < 4 && |children| == MAX_CHILDREN
      && identity.Valid()
    }

    /** A record taken into use: its number, its parent, no children yet. */
    function Attached(number: int, to: Option<nat>): Device
    {
      this.(devnum := number, parent := to, children := NO_CHILDREN, maxChild := 0)
    }

    function Target(): UsbPipe.Target
      requires Valid() && devnum >= 0
      ensures Target().Fits()
    {
      UsbPipe.Target(devnum, speed, maxPacketSize)
    }
  }

  /** What a device told of itself: whether its first interface is a hub's, the value of its configuration,
      the packet sizes of its endpoints, and its hub descriptor. */
  datatype Identity = Identity(hub: bool, value: nat, limits: MaxPacket.Limits, hubRecord: Bytes)
  {
    predicate Valid() { limits.Valid() && |hubRecord| == HUB_RECORD }
  }

  const NO_CHILDREN: seq<Option<nat>> := [None, None, None, None, None, None, None, None]
  const ZERO_SIZES: seq<nat> := [0, 0, 0, 0, 0, 0, 0, 0, 0, 0, 0, 0, 0, 0, 0, 0]
  const ZERO_RECORD: Bytes := [0, 0, 0, 0, 0, 0, 0, 0, 0, 0, 0]
  const NOBODY := Identity(false, 0, MaxPacket.Limits(ZERO_SIZES, ZERO_SIZES), ZERO_RECORD)
  const UNKNOWN := Device(-1, 0, 0, None, NO_CHILDREN, 0, NOBODY)

  // ---- messages ----

  datatype Route = ToRootHub | ToBus

  /** A control message as it reached the host controller driver. */
  datatype Sent = Sent(device: nat, address: nat, route: Route, hasParent: bool, req: Request)
  {
    /** The root hub's messages reach the virtual hub; the others the bus, with a parent to name.  No
        message carries another device's address. */
    predicate Safe()
    {
      && (address == 0 || address == device + 1)
      && (if device == 0 then route == ToRootHub else route == ToBus && hasParent)
    }
  }

  /** What comes back for one message: the result, and the caller's buffer.  Which string descriptors are
      asked for afterwards is taken from outside as well. */
  datatype Reply = Reply(result: int, buffer: Bytes, strings: seq<Request>)
  {
    predicate Valid() { |buffer| == BUFFER_SIZE }

    function TotalLength(): nat
      requires Valid()
    {
      UsbConfig.Word16(buffer[2], buffer[3])
    }

    function Status(): RootHub.PortStatus
      requires Valid()
    {
      RootHub.Decode(buffer[..4])
    }
  }

  /** What the outside answers to each message, by its number. */
  type Answers = nat -> Reply

  // Standard and hub class requests, on a device and on its ports numbered from zero.

  function GetDescriptor(value: nat, length: nat): Request
  {
    RootHub.HubRequest(RootHub.GET_DESCRIPTOR, value, 0, length)
  }

  function SetConfiguration(value: nat): Request { RootHub.HubRequest(RootHub.SET_CONFIGURATION, value, 0, 0) }
  function SetAddressTo(address: nat): Request { RootHub.HubRequest(RootHub.SET_ADDRESS, address, 0, 0) }
  function GetHubDescriptor(length: nat): Request
  {
    RootHub.HubRequest(RootHub.GET_HUB_DESCRIPTOR, 0x2900, 0, length)
  }

  function GetHubStatus(): Request { RootHub.HubRequest(RootHub.GET_HUB_STATUS, 0, 0, 4) }
  function GetPort(port: nat): Request { RootHub.HubRequest(RootHub.GET_PORT_STATUS, 0, port + 1, 4) }
  function SetPort(port: nat, feature: nat): Request
  {
    RootHub.HubRequest(RootHub.SET_PORT_FEATURE, feature, port + 1, 0)
  }

  function ClearPort(port: nat, feature: nat): Request
  {
    RootHub.HubRequest(RootHub.CLEAR_PORT_FEATURE, feature, port + 1, 0)
  }

  /** As numbers (tables 9-3 and 11-15 of USB 2.0): the two first bytes of the request, its value, its index
      and its length. */
  lemma RequestNumbers(value: nat, length: nat, address: nat, port: nat, feature: nat)
    ensures GetDescriptor(value, length) == RootHub.HubRequest(0x8006, value, 0, length)
    ensures SetAddressTo(address) == RootHub.HubRequest(0x0005, address, 0, 0)
    ensures SetConfiguration(value) == RootHub.HubRequest(0x0009, value, 0, 0)
    ensures GetHubDescriptor(length) == RootHub.HubRequest(0xa006, 0x2900, 0, length)
    ensures GetHubStatus() == RootHub.HubRequest(0xa000, 0, 0, 4)
    ensures GetPort(port) == RootHub.HubRequest(0xa300, 0, port + 1, 4)
    ensures SetPort(port, feature) == RootHub.HubRequest(0x2303, feature, port + 1, 0)
    ensures ClearPort(port, feature) == RootHub.HubRequest(0x2301, feature, port + 1, 0)
  {
  }

  /** The reply is what the virtual hub gives to the request. */
  predicate FromRootHub(reply: Reply, req: Request, ports: nat, characteristics: nat)
  {
    && (RootHub.StandardData(req, ports, characteristics).Some? ==> 0 <= reply.result <= |reply.buffer|)
    && RootHub.StandardReply(req, ports, characteristics, reply.result,
                             if 0 <= reply.result <= |reply.buffer| then reply.buffer[..reply.result] else [])
  }

  /** All messages since this one that went to the virtual hub were answered by it. */
  ghost predicate AllFromRootHub(answers: Answers, log: seq<Sent>, from: nat, ports: nat, characteristics: nat)
  {
    forall k :: from <= k < |log| && log[k].route == ToRootHub ==>
      FromRootHub(answers(k), log[k].req, ports, characteristics)
  }

  lemma FromRootHubBefore(answers: Answers, was: seq<Sent>, log: seq<Sent>, from: nat, more: nat, ports: nat,
                          characteristics: nat)
    requires was <= log && from <= more && AllFromRootHub(answers, log, from, ports, characteristics)
    ensures AllFromRootHub(answers, was, more, ports, characteristics)
  {
  }

  // ---- configurations ----

  /** A configuration that is refused or read to its end inside the tables, and whose numbers of interfaces
      and endpoints stay inside the tables too. */
  predicate ConfigFits(b: Bytes)
    requires |b| == BUFFER_SIZE
  {
    match UsbConfig.OutcomeOf(b)
    case Refused => true
    case Filled =>
      var found := UsbConfig.Collect([], UsbConfig.Items(b).items);
      && UsbConfig.ConfigAt(b).numInterfaces <= |found|
      && forall k :: 0 <= k < |found| ==> found[k].desc.numEndpoints <= UsbConfig.MAX_ENDPOINTS
    case _ => false
  }

  /** Every valid description of at most 512 bytes that announces no more than it brings is one. */
  lemma DescribedFits(d: UsbConfig.Description, junk: Bytes)
    requires d.Valid() && |d.Serial()| + |junk| == BUFFER_SIZE
    requires MaxPacket.Honest(d.groups) && d.value.numInterfaces <= |d.groups|
    ensures ConfigFits(d.Serial() + junk)
  {
    UsbConfig.DescriptionParses(d, junk);
    MaxPacket.AnnouncedAreDefault(d.groups);
    var found := UsbConfig.Tables(d.groups);
    forall k | 0 <= k < |found|
      ensures found[k].desc.numEndpoints <= UsbConfig.MAX_ENDPOINTS
    {
      assert found[k].desc.numEndpoints <= |found[k].endpoints|;
    }
  }

  /** usb_parse_config into a cleared record, usb_set_maxpacket, and usb_is_hub on the first interface. */
  method Parse(buffer: Bytes, limits: MaxPacket.Limits)
    returns (inside: bool, hub: bool, value: nat, now: MaxPacket.Limits)
    requires |buffer| == BUFFER_SIZE && limits.Valid()
    ensures now.Valid()
    ensures ConfigFits(buffer) ==> inside
    ensures inside ==> UsbConfig.OutcomeOf(buffer).Refused? || UsbConfig.OutcomeOf(buffer).Filled?
    ensures inside && UsbConfig.OutcomeOf(buffer).Filled? ==> value == buffer[5]
    ensures RootHub.CONFIG_BYTES <= buffer ==> inside && hub
    ensures inside && UsbConfig.OutcomeOf(buffer).Filled? ==>
      var found := UsbConfig.Collect([], UsbConfig.Items(buffer).items);
      found != [] && found[0].endpoints != [] ==> (hub <==> HubInterface(found[0].desc, found[0].endpoints[0]))
  {
    if RootHub.CONFIG_BYTES <= buffer {
      RootFits(buffer);
    }
    var tables := new UsbConfig.Config();
    var outcome := tables.Parse(buffer, 0);
    if outcome != UsbConfig.Refused && outcome != UsbConfig.Filled {
      return false, false, 0, limits;
    }
    if outcome == UsbConfig.Filled && ConfigFits(buffer) {
      FoundInArrays(tables.ifDesc, tables.Contents(), tables.desc.numInterfaces);
    }
    now, inside := MaxPacket.SetMaxPacket(tables, limits);
    hub, value := UsbConfig.IsHub(tables.ifDesc[0]), tables.desc.value;
    ghost var found := tables.Contents();
    if outcome == UsbConfig.Filled && found != [] && found[0].endpoints != [] {
      FirstIsHub(tables.ifDesc[0], found);
    }
    if RootHub.CONFIG_BYTES <= buffer {
      RootDescriptor.RootFirst(tables.Contents(), tables.ifDesc[0]);
    }
  }

  /** A hub's interface (section 11.23.1 of USB 2.0): class 9, subclass 0 or 1, and one endpoint, an
      interrupt endpoint that sends. */
  predicate HubInterface(d: UsbConfig.InterfaceDesc, e: UsbConfig.Endpoint)
  {
    d.class_ == 9 && d.subClass <= 1 && d.numEndpoints == 1 && e.address >= 0x80 && e.attributes % 4 == 3
  }

  lemma FirstIsHub(slot: UsbConfig.Slot, found: seq<UsbConfig.Interface>)
    requires slot.Valid() && found != [] && found[0] == slot.Used() && found[0].endpoints != []
    ensures UsbConfig.IsHub(slot) <==> HubInterface(found[0].desc, found[0].endpoints[0])
  {
    assert slot.ep[0] == found[0].endpoints[0];
  }

  lemma RootFits(buffer: Bytes)
    requires |buffer| == BUFFER_SIZE && RootHub.CONFIG_BYTES <= buffer
    ensures UsbConfig.OutcomeOf(buffer) == UsbConfig.Filled && ConfigFits(buffer)
    ensures UsbConfig.Collect([], UsbConfig.Items(buffer).items)
            == [UsbConfig.Interface(RootDescriptor.ROOT_INTERFACE, 1, [RootDescriptor.ROOT_ENDPOINT])]
  {
    assert buffer == RootHub.CONFIG_BYTES + buffer[|RootHub.CONFIG_BYTES|..];
    RootDescriptor.RootFills(buffer[|RootHub.CONFIG_BYTES|..]);
  }

  lemma FoundInArrays(slots: seq<UsbConfig.Slot>, found: seq<UsbConfig.Interface>, n: nat)
    requires n <= |found| <= |slots|
    requires forall k :: 0 <= k < |found| ==> slots[k].Valid() && found[k] == slots[k].Used()
    requires forall k :: 0 <= k < |found| ==> found[k].desc.numEndpoints <= UsbConfig.MAX_ENDPOINTS
    ensures MaxPacket.InArrays(slots, n)
  {
    forall k | 0 <= k < n
      ensures slots[k].desc.numEndpoints <= |slots[k].ep|
    {
      assert slots[k].desc == found[k].desc;
    }
  }

  /** usb_rcvctrlpipe or usb_sndctrlpipe for endpoint 0. */
  method ControlPipe(t: Target, incoming: bool) returns (pipe: nat)
    requires t.Fits()
    ensures PipeDevice(pipe) == t.devnum
  {
    PackedPipes(PIPE_CONTROL, t, 0);
    pipe := if incoming then RcvPipe(PIPE_CONTROL, t, 0) else SndPipe(PIPE_CONTROL, t, 0);
  }

  /** usb_snddefctrl */
  method AddressPipe(t: Target) returns (pipe: nat)
    requires t.Fits()
    ensures PipeDevice(pipe) == 0
  {
    DefaultPipes(t);
    pipe := SndDefaultControl(t);
  }

  class Usb {
    /** What the outside answers to the nth message. */
    const answers: Answers

    /** descriptor.hub of the virtual hub. */
    const ports: nat
    const characteristics: nat

    var rootdev: int
    var devs: seq<Device>
    var count: nat // g_dev_index
    ghost var log: seq<Sent>
    var sent: nat
    /** No device has yet had something stored outside its record, or been read to an odd end: up to there the
        model follows the code, and it sends nothing after. */
    var followed: bool

    constructor (answers: Answers, ports: nat, characteristics: nat)
      requires AllValid(answers)
      requires ports < 0x100 && characteristics < 0x1_0000
      ensures Valid() && log == [] && followed
    {
      this.answers, this.ports, this.characteristics := answers, ports, characteristics;
      rootdev, count, log, sent, followed := 0, 0, [], 0, true;
      devs := seq(MAX_DEVICES, k => UNKNOWN);
    }

    function Answer(n: nat): Reply { answers(n) }

    // ---- invariants ----

    ghost predicate Valid()
      reads this
    {
      && |devs| == MAX_DEVICES && count <= MAX_DEVICES && sent == |log|
      && ports < 0x100 && characteristics < 0x1_0000
      && (forall k :: 0 <= k < MAX_DEVICES ==> devs[k].Valid())
      && AllValid(answers)
    }

    /** Every device in use is at the default address or at its own, and every one but the first hangs on
        a device in use.  The children are in use as well. */
    ghost predicate Populated()
      requires Valid()
      reads this
    {
      forall k :: 0 <= k < count ==>
        && (devs[k].devnum == 0 || devs[k].devnum == k + 1)
        && (if k == 0 then devs[k].parent.None? else devs[k].parent.Some? && devs[k].parent.value < k)
        && ChildrenBelow(devs[k].children, count)
    }

    /** The root hub is found: the driver knows its address. */
    ghost predicate Up()
      requires Valid()
      reads this
    {
      Populated() && count >= 1 && rootdev == 1 && devs[0].devnum == 1
    }

    /** The root hub is being found: nobody has an address yet. */
    ghost predicate Starting()
      requires Valid()
      reads this
    {
      Populated() && count == 1 && rootdev == 0
    }

    /** All messages so far went where they should, and the root hub is up. */
    ghost predicate Calm()
      requires Valid()
      reads this
    {
      Up() && AllSafe(log)
    }

    ghost predicate Running()
      reads this
    {
      Valid() && Calm()
    }

    /** Since this message, all that went to the virtual hub were answered by it. */
    ghost predicate HubAnswered(from: nat)
      requires Valid()
      reads this
    {
      AllFromRootHub(answers, log, from, ports, characteristics)
    }

    // ---- one message ----

    /** submit_control_msg, and usb_control_msg around it.  SET_ADDRESS to the virtual hub sets rootdev. */
    method Message(i: nat, pipe: nat, req: Request) returns (reply: Reply)
      requires Valid() && i < MAX_DEVICES
      modifies this`rootdev, this`devs, this`log, this`sent
      ensures Valid() && reply == Answer(old(sent))
      ensures !old(followed) ==>
        log == old(log) && rootdev == old(rootdev) && devs == old(devs) && sent == old(sent)
      ensures var root := PipeDevice(pipe) == old(rootdev);
        var route := if root then ToRootHub else ToBus;
        old(followed) ==>
          && log == old(log) + [Sent(i, PipeDevice(pipe), route, old(devs)[i].parent.Some?, req)]
          && rootdev == (if root && req.typeReq == RootHub.SET_ADDRESS then req.value else old(rootdev))
          && devs == (if root && old(rootdev) == 0 then old(devs)[i := old(devs)[i].(speed := SPEED_HIGH)]
                      else old(devs))
          && sent == old(sent) + 1
    {
      reply := Answer(sent);
      if !followed {
        return;
      }
      sent := sent + 1;
      if PipeDevice(pipe) == rootdev {
        if rootdev == 0 {
          devs := devs[i := devs[i].(speed := SPEED_HIGH)];
        }
        log := log + [Sent(i, PipeDevice(pipe), ToRootHub, devs[i].parent.Some?, req)];
        if req.typeReq == RootHub.SET_ADDRESS {
          rootdev := req.value;
        }
      } else {
        log := log + [Sent(i, PipeDevice(pipe), ToBus, devs[i].parent.Some?, req)];
      }
    }

    /** A message on the default control pipe of a device, at the address in its record. */
    method Control(i: nat, req: Request) returns (reply: Reply)
      requires Valid() && i < MAX_DEVICES && devs[i].devnum >= 0 && req.typeReq != RootHub.SET_ADDRESS
      modifies this`rootdev, this`devs, this`log, this`sent
      ensures Valid() && rootdev == old(rootdev) && reply == Answer(old(sent))
      ensures SameButSpeed(old(rootdev), old(devs), devs)
      ensures log == old(log) + if followed then [Entry(i, old(devs)[i].devnum, rootdev, devs[i], req)] else []
      ensures old(Calm()) && i < count ==> Calm()
      ensures old(Starting() && AllSafe(log)) && i == 0 && devs[0].devnum == 0 ==> Starting() && AllSafe(log)
    {
      var pipe := ControlPipe(devs[i].Target(), req.typeReq >= 0x8000);
      reply := Message(i, pipe, req);
    }

    /** usb_set_address: to the default address, carrying the device's own. */
    method SetAddress(i: nat) returns (reply: Reply)
      requires Valid() && i < MAX_DEVICES && devs[i].devnum >= 0 && followed
      modifies this`rootdev, this`devs, this`log, this`sent
      ensures Valid() && rootdev == (if old(rootdev) == 0 then old(devs)[i].devnum else old(rootdev))
      ensures reply == Answer(old(sent)) && SameButSpeed(old(rootdev), old(devs), devs)
      ensures log == old(log) + [Entry(i, 0, old(rootdev), devs[i], SetAddressTo(old(devs)[i].devnum))]
      ensures old(Calm()) && 0 < i < count ==> Calm()
      ensures old(Starting() && AllSafe(log)) && i == 0 && devs[0].devnum == 1 ==> Calm()
    {
      var pipe := AddressPipe(devs[i].Target());
      reply := Message(i, pipe, SetAddressTo(devs[i].devnum));
    }

    // ---- enumeration ----

    /** hub_port_reset: up to five times a reset and a look at the port; it succeeds exactly when the port
        shows up enabled before it is disconnected, changes its connection or fails to answer. */
    method HubPortReset(p: nat, port: nat) returns (ok: bool, status: RootHub.PortStatus)
      requires Valid() && p < MAX_DEVICES && devs[p].devnum >= 0
      modifies this`rootdev, this`devs, this`log, this`sent
      ensures Steady(old(rootdev), old(devs), old(Calm()), p) && old(log) <= log
      ensures ok ==> status.connection && status.enable && !status.cConnection
      ensures followed ==> ResetDone(old(log), port, ok, status)
    {
      ghost var was, wasRoot, wasDevs, calm := log, rootdev, devs, Calm();
      ghost var last;
      var reply;
      ok, reply, last := EnablePort(p, port);
      status := reply.Status();
      if followed {
        ResetEnds(answers, |was|, last, ok);
      }
      if ok {
        ClearReset(p, port, was, wasRoot, wasDevs, calm, last, reply);
      }
    }

    /** The log shows a reset of the port before its first status query, and it went as the replies decide. */
    ghost predicate ResetDone(was: seq<Sent>, port: nat, ok: bool, status: RootHub.PortStatus)
      requires Valid()
      reads this
    {
      && |was| + 2 <= |log| <= |was| + 11
      && log[|was|].req == SetPort(port, 4) && log[|was| + 1].req == GetPort(port)
      && ResetEnd(answers, |was|) == (if ok then Some(|log|) else None)
      && (ok ==> log[|log| - 1].req == ClearPort(port, 20) && status == ResetStatus(answers, |was|))
    }

    /** The end of hub_port_reset on an enabled port. */
    method ClearReset(p: nat, port: nat, ghost was: seq<Sent>, ghost wasRoot: int, ghost wasDevs: seq<Device>,
                      ghost calm: bool, ghost last: nat, ghost reply: Reply)
      requires p < MAX_DEVICES == |wasDevs| && wasDevs[p].devnum >= 0
      requires Tried(was, wasRoot, wasDevs, calm, p, port, last, true, reply)
      requires followed ==>
        ResetEnd(answers, |was|) == Some(|was| + 2 * last + 3) && reply.Status() == ResetStatus(answers, |was|)
      modifies this`rootdev, this`devs, this`log, this`sent
      ensures Steady(wasRoot, wasDevs, calm, p) && was <= log
      ensures followed ==> ResetDone(was, port, true, reply.Status())
    {
      var _ := Control(p, ClearPort(port, RootHub.FEAT_C_RESET));
      assert followed ==> |was| + 2 * last + 3 == |log|;
    }

    /** The loop of hub_port_reset. */
    method EnablePort(p: nat, port: nat) returns (ok: bool, reply: Reply, ghost last: nat)
      requires Valid() && p < MAX_DEVICES && devs[p].devnum >= 0
      modifies this`rootdev, this`devs, this`log, this`sent
      ensures Tried(old(log), old(rootdev), old(devs), old(Calm()), p, port, last, ok, reply)
    {
      ghost var was, wasRoot, wasDevs, calm := log, rootdev, devs, Calm();
      var tries, seen := 0, Waits;
      reply, last := Answer(0), 0;
      while tries < MAX_TRIES
        invariant tries <= MAX_TRIES && Steady(wasRoot, wasDevs, calm, p) && Trying(was, port, tries)
        invariant followed ==> AllWaiting(answers, |was|, tries)
        invariant tries == MAX_TRIES ==> Tried(was, wasRoot, wasDevs, calm, p, port, last, false, reply)
      {
        last := tries;
        reply, seen := TryReset(p, port, was, tries, wasRoot, wasDevs, calm);
        if seen == Lost {
          return false, reply, last;
        }
        if seen == Enabled {
          return true, reply, last;
        }
        tries := tries + 1;
      }
      ok := false;
    }

    /** After the last try, of this number. */
    ghost predicate Tried(was: seq<Sent>, wasRoot: int, wasDevs: seq<Device>, calm: bool, p: nat, port: nat,
                          last: nat, ok: bool, reply: Reply)
      reads this
    {
      && Steady(wasRoot, wasDevs, calm, p) && Trying(was, port, last + 1) && last < 5 && reply.Valid()
      && (ok ==> reply.Status().connection && reply.Status().enable && !reply.Status().cConnection)
      && (followed ==> reply == ResetReply(answers, |was|, last) && Decided(answers, |was|, last, ok))
    }

    /** The log after so many tries. */
    ghost predicate Trying(was: seq<Sent>, port: nat, tries: nat)
      reads this
    {
      && was <= log && |log| == |was| + (if followed then 2 * tries else 0)
      && (followed && tries > 0 ==> log[|was|].req == SetPort(port, 4) && log[|was| + 1].req == GetPort(port))
    }

    /** Since then only messages of device i were sent, and none of them SET_ADDRESS. */
    ghost predicate Steady(wasRoot: int, wasDevs: seq<Device>, calm: bool, i: nat)
      reads this
    {
      && Valid() && rootdev == wasRoot && SameButSpeed(wasRoot, wasDevs, devs) && (calm && i < count ==> Calm())
    }

    /** One reset, and the port's status after it. */
    method TryReset(p: nat, port: nat, ghost was: seq<Sent>, ghost tries: nat, ghost wasRoot: int,
                    ghost wasDevs: seq<Device>, ghost calm: bool)
      returns (reply: Reply, seen: Seen)
      requires p < MAX_DEVICES == |wasDevs| && tries < MAX_TRIES
      requires Steady(wasRoot, wasDevs, calm, p) && Trying(was, port, tries) && wasDevs[p].devnum >= 0
      requires followed ==> AllWaiting(answers, |was|, tries)
      modifies this`rootdev, this`devs, this`log, this`sent
      ensures Steady(wasRoot, wasDevs, calm, p) && Trying(was, port, tries + 1)
      ensures followed && seen == Waits ==> AllWaiting(answers, |was|, tries + 1)
      ensures seen == Enabled ==> Tried(was, wasRoot, wasDevs, calm, p, port, tries, true, reply)
      ensures seen == Lost || (seen == Waits && tries == 4) ==>
        Tried(was, wasRoot, wasDevs, calm, p, port, tries, false, reply)
    {
      var _ := Control(p, SetPort(port, RootHub.FEAT_RESET));
      reply := Control(p, GetPort(port));
      var status := reply.Status();
      seen := if reply.result < 0 || status.cConnection || !status.connection then Lost
              else if status.enable then Enabled else Waits;
      assert followed ==> reply == ResetReply(answers, |was|, tries);
    }

    /** Looking for the device among its parent's children; it is there once, so the search ends inside the
        table whatever number of ports the hub announced, and finds it if its place is among those. */
    method FindPort(p: nat, i: nat, ghost there: nat) returns (port: int)
      requires Valid() && p < MAX_DEVICES && OnlyAt(devs[p].children, i, there)
      ensures port == if there < devs[p].maxChild then there else -1
    {
      var j := 0;
      while j < devs[p].maxChild
        invariant 0 <= j <= there && (j <= devs[p].maxChild)
        invariant forall k :: 0 <= k < j ==> devs[p].children[k] != Some(i)
      {
        if devs[p].children[j] == Some(i) {
          return j;
        }
        j := j + 1;
      }
      port := -1;
    }

    /** usb_alloc_new_device */
    method Alloc(parent: Option<nat>, port: nat) returns (i: Option<nat>)
      requires Valid() && (parent.Some? ==> parent.value < count)
      modifies this`devs, this`count
      ensures Valid()
      ensures i.Some? <==> old(count) < MAX_DEVICES && port < MAX_CHILDREN
      ensures i.None? ==> devs == old(devs) && count == old(count)
      ensures i.Some? ==> i.value == old(count) && count == old(count) + 1
      ensures i.Some? ==>
        var d := devs[i.value];
        && i.value < MAX_DEVICES && d.devnum == i.value + 1 && d.parent == parent && d.maxChild == 0
        && d.children == [None, None, None, None, None, None, None, None]
      ensures i.Some? && parent.Some? ==>
        devs[parent.value] == old(devs)[parent.value].(children := old(devs)[parent.value].children[port := i])
      ensures i.Some? ==> forall k :: 0 <= k < old(count) && parent != Some(k) ==> devs[k] == old(devs)[k]
      ensures old(Calm()) && parent.Some? ==> Calm()
    {
      if count == MAX_DEVICES {
        return None;
      }
      if port >= MAX_CHILDREN {
        return None;
      }
      i := Some(count);
      devs := devs[count := devs[count].Attached(count + 1, parent)];
      if parent.Some? {
        var p := parent.value;
        devs := devs[p := devs[p].(children := devs[p].children[port := i])];
      }
      count := count + 1;
    }

    /** The packet size code; an unexpected size keeps the code of 64 bytes.  And the address. */
    method SetPacketSize(i: nat, size: nat, address: nat)
      requires Valid() && i < MAX_DEVICES && address <= MAX_DEVICES
      modifies this`devs
      ensures Valid() && SameButIdentity(old(rootdev), old(devs), devs, i) && devs[i].devnum == address
      ensures size == 64 || old(devs)[i].maxPacketSize == 3 ==> devs[i].maxPacketSize == SizeCode(size)
      ensures devs[i].identity.limits.input[0] == devs[i].identity.limits.output[0] == size
    {
      var code := if size == 8 then 0 else if size == 16 then 1 else if size == 32 then 2
                  else if size == 64 then 3 else devs[i].maxPacketSize;
      var limits := devs[i].identity.limits;
      limits := MaxPacket.Limits(limits.input[0 := size], limits.output[0 := size]);
      devs := devs[i := devs[i].(maxPacketSize := code, devnum := address,
                                 identity := devs[i].identity.(limits := limits))];
    }

    /** The messages of usb_scan_device after the address is set: descriptors, configuration, strings. */
    method ScanAddressed(i: nat) returns (ret: int)
      requires Valid() && i < MAX_DEVICES && devs[i].devnum >= 0 && followed
      modifies this`rootdev, this`devs, this`log, this`sent, this`followed
      ensures Valid() && rootdev == old(rootdev) && old(log) <= log && ret <= 0
      ensures SameButIdentity(old(rootdev), old(devs), devs, i) && SameNumbers(old(devs)[i], devs[i])
      ensures old(Calm()) && i < count ==> Calm()
      ensures old(devs)[i].devnum == rootdev && HubAnswered(old(sent)) ==>
        ret == 0 && followed && devs[i].identity.hub
      ensures ret == 0 ==> followed && Identified(answers, |old(log)|) && AskedAll(log, |old(log)|, answers)
      ensures Identified(answers, |old(log)|) && ConfigFits(Configuration(answers, |old(log)| + 1)) ==> ret == 0
    {
      ghost var from := |log|;
      var reply := Control(i, GetDescriptor(0x100, 18));
      ghost var first := log[from];
      if reply.result < 18 {
        return -1;
      }
      ret := Configure(i);
      assert log[from] == first;
    }

    /** The configuration and SET_CONFIGURATION with its value. */
    method Configure(i: nat) returns (ret: int)
      requires Valid() && i < MAX_DEVICES && devs[i].devnum >= 0 && followed
      modifies this`rootdev, this`devs, this`log, this`sent, this`followed
      ensures Valid() && rootdev == old(rootdev) && old(log) <= log && ret <= 0
      ensures SameButIdentity(old(rootdev), old(devs), devs, i) && SameNumbers(old(devs)[i], devs[i])
      ensures old(Calm()) && i < count ==> Calm()
      ensures old(devs)[i].devnum == rootdev && HubAnswered(old(sent)) ==>
        ret == 0 && followed && devs[i].identity.hub
      ensures ret == 0 ==> followed && Answer(ConfigIndex(answers, |old(log)|) + 1).result == 0
      ensures ret == 0 ==> AskedConfig(log, |old(log)|, answers)
      ensures Answer(ConfigIndex(answers, |old(log)|) + 1).result == 0 ==>
        ConfigFits(Configuration(answers, |old(log)|)) ==> ret == 0
    {
      TakeConfiguration(i);
      ghost var then_ := |log|;
      if !followed {
        return -1;
      }
      var reply := Control(i, SetConfiguration(devs[i].identity.value));
      ghost var entry := log[then_];
      if reply.result != 0 {
        return -1;
      }
      ReadStrings(i, reply.strings);
      assert log[then_] == entry;
      return 0;
    }

    /** usb_get_configuration_no: nine bytes, then as many as they announce. */
    method FetchConfiguration(i: nat) returns (reply: Reply)
      requires Valid() && i < MAX_DEVICES && devs[i].devnum >= 0 && followed
      modifies this`rootdev, this`devs, this`log, this`sent
      ensures Valid() && rootdev == old(rootdev) && old(log) <= log
      ensures SameButSpeed(old(rootdev), old(devs), devs)
      ensures |log| == ConfigIndex(answers, |old(log)|) + 1 && reply == Answer(|log| - 1)
      ensures AskedDescriptors(log, |old(log)|, answers)
      ensures old(Calm()) && i < count ==> Calm()
      ensures devs[i].devnum == rootdev && HubAnswered(old(sent)) ==> RootHub.CONFIG_BYTES <= reply.buffer
    {
      ghost var from := |log|;
      reply := Control(i, GetDescriptor(0x200, 9));
      RootShort(answers, log, from, ports, characteristics);
      if reply.result >= 9 && reply.TotalLength() <= BUFFER_SIZE {
        ghost var short := log[from];
        reply := Control(i, GetDescriptor(0x200, reply.TotalLength()));
        assert log[from] == short;
        RootLong(answers, log, from + 1, ports, characteristics);
      }
    }

    /** The configuration, usb_parse_config and usb_set_maxpacket.  Whatever the messages return, the buffer is
        parsed into the record; the model follows only if it stays inside. */
    method TakeConfiguration(i: nat)
      requires Valid() && i < MAX_DEVICES && devs[i].devnum >= 0 && followed
      modifies this`rootdev, this`devs, this`log, this`sent, this`followed
      ensures Valid() && rootdev == old(rootdev) && old(log) <= log
      ensures SameButIdentity(old(rootdev), old(devs), devs, i) && SameNumbers(old(devs)[i], devs[i])
      ensures old(Calm()) && i < count ==> Calm()
      ensures old(devs)[i].devnum == rootdev && HubAnswered(old(sent)) ==> followed && devs[i].identity.hub
      ensures |log| == ConfigIndex(answers, |old(log)|) + 1 && (ConfigFits(Answer(|log| - 1).buffer) ==> followed)
      ensures followed ==> UsbConfig.OutcomeOf(Answer(|log| - 1).buffer) in {UsbConfig.Refused, UsbConfig.Filled}
      ensures followed ==> AskedDescriptors(log, |old(log)|, answers)
      ensures followed && UsbConfig.OutcomeOf(Answer(|log| - 1).buffer) == UsbConfig.Filled ==>
        devs[i].identity.value == Answer(|log| - 1).buffer[5]
    {
      var reply := FetchConfiguration(i);
      var hub, value, limits;
      followed, hub, value, limits := Parse(reply.buffer, devs[i].identity.limits);
      devs := devs[i := devs[i].(identity := devs[i].identity.(hub := hub, value := value, limits := limits))];
    }

    /** The string descriptors. */
    method ReadStrings(i: nat, requests: seq<Request>)
      requires Valid() && i < MAX_DEVICES && devs[i].devnum >= 0
      modifies this`rootdev, this`devs, this`log, this`sent
      ensures Valid() && rootdev == old(rootdev) && old(log) <= log && SameButSpeed(old(rootdev), old(devs), devs)
      ensures old(Calm()) && i < count ==> Calm()
    {
      for k := 0 to |requests|
        invariant Valid() && rootdev == old(rootdev) && old(log) <= log && SameButSpeed(old(rootdev), old(devs), devs)
        invariant old(Calm()) && i < count ==> Calm()
      {
        if requests[k].typeReq == RootHub.GET_DESCRIPTOR {
          var _ := Control(i, requests[k]);
        }
      }
    }

    /** At the default address, with the largest packets: the first message. */
    method Greet(i: nat) returns (reply: Reply)
      requires Valid() && i < count && followed
      modifies this`rootdev, this`devs, this`log, this`sent
      ensures Valid() && rootdev == old(rootdev) && reply == Answer(old(sent))
      ensures log == old(log) + [Entry(i, 0, rootdev, devs[i], GetDescriptor(0x100, 64))]
      ensures SameButIdentity(old(rootdev), old(devs), devs, i) && devs[i].maxPacketSize == 3
      ensures old(Calm()) && i > 0 ==> Calm()
      ensures old(Starting() && AllSafe(log)) && i == 0 ==> Starting() && AllSafe(log)
    {
      SetPacketSize(i, 64, 0);
      reply := Control(i, GetDescriptor(0x100, 64));
    }

    /** The first half of usb_scan_device: one message at the default address and, for a device on a hub,
        a second reset of its port. */
    method ScanDefault(i: nat, ghost there: nat) returns (ok: bool, ghost m: Option<nat>)
      requires Valid() && i < count && devs[i].devnum == i + 1 && Attached(devs, i, there) && followed
      modifies this`rootdev, this`devs, this`log, this`sent
      ensures Valid() && rootdev == old(rootdev) && old(log) <= log && |log| > |old(log)|
      ensures log[|old(log)|] == Entry(i, 0, rootdev, devs[i], GetDescriptor(0x100, 64))
      ensures SameButIdentity(old(rootdev), old(devs), devs, i) && (ok ==> devs[i].devnum == i + 1)
      ensures old(Calm()) && i > 0 ==> Calm()
      ensures old(Starting() && AllSafe(log)) && i == 0 ==> Starting() && AllSafe(log)
      ensures m == if InReach(old(devs), i, there)
                   then GreetEnd(answers, |old(log)|, old(devs)[i].parent.Some?) else None
      ensures m == if ok then Some(|log|) else None
      ensures ok ==> devs[i].maxPacketSize == SizeCode(Answer(|old(log)|).buffer[7])
      ensures old(devs)[i].parent.None? ==> |log| == |old(log)| + 1
    {
      var address, parent := devs[i].devnum, devs[i].parent;
      var reply := Greet(i);
      if reply.result < 0 {
        return false, None;
      }
      if parent.Some? {
        ok := ResetAgain(i, parent.value, there);
        if !ok {
          return false, None;
        }
      }
      SetPacketSize(i, reply.buffer[7], address);
      ok, m := true, Some(|log|);
    }

    /** Finding the device's port and resetting it for the second time. */
    method ResetAgain(i: nat, p: nat, ghost there: nat) returns (ok: bool)
      requires Valid() && p < MAX_DEVICES && devs[p].devnum >= 0 && OnlyAt(devs[p].children, i, there)
      modifies this`rootdev, this`devs, this`log, this`sent
      ensures Steady(old(rootdev), old(devs), old(Calm()), p) && old(log) <= log
      ensures followed && ok ==> ResetEnd(answers, |old(log)|) == Some(|log|) && there < old(devs)[p].maxChild
      ensures followed && ResetEnd(answers, |old(log)|).Some? && there < old(devs)[p].maxChild ==> ok
    {
      var port := FindPort(p, i, there);
      if port < 0 {
        return false;
      }
      var status;
      ok, status := HubPortReset(p, port);
    }

    /** usb_scan_device: the default address, then SET_ADDRESS, then messages to the address. */
    method ScanDevice(i: nat, ghost there: nat) returns (ret: int, ghost m: Option<nat>)
      requires Valid() && i < count && devs[i].devnum == i + 1 && Attached(devs, i, there) && followed
      modifies this`rootdev, this`devs, this`log, this`sent, this`followed
      ensures Valid() && old(log) <= log && |log| > |old(log)|
      ensures log[|old(log)|] == Entry(i, 0, old(rootdev), devs[i], GetDescriptor(0x100, 64))
      ensures SameButIdentity(old(rootdev), old(devs), devs, i) && (ret == 0 ==> devs[i].devnum == i + 1) && ret <= 0
      ensures old(Calm()) && i > 0 ==> Calm()
      ensures old(Starting() && AllSafe(log)) && i == 0 ==> Calm() || (ret < 0 && Starting() && AllSafe(log))
      ensures old(rootdev) == 0 && old(devs)[i].parent.None? && HubAnswered(old(sent)) ==>
        ret == 0 && followed && devs[i].identity.hub
      ensures m == if InReach(old(devs), i, there)
                   then GreetEnd(answers, |old(log)|, old(devs)[i].parent.Some?) else None
      ensures ret == 0 ==> followed && m.Some? && Settles(answers, m.value) && AskedOwn(log, m.value, i, answers)
      ensures ret == 0 ==> devs[i].maxPacketSize == SizeCode(Answer(|old(log)|).buffer[7])
      ensures m.Some? && SettlesWell(answers, m.value) ==> ret == 0
    {
      ghost var from := |log|;
      var ok;
      ok, m := ScanDefault(i, there);
      ret := -1;
      if ok {
        ret := ScanOwn(i);
      }
      RootGreets(answers, log, from, ports, characteristics);
    }

    /** The second half of usb_scan_device: SET_ADDRESS and what comes after it. */
    method ScanOwn(i: nat) returns (ret: int)
      requires Valid() && i < count && devs[i].devnum == i + 1 && followed
      modifies this`rootdev, this`devs, this`log, this`sent, this`followed
      ensures Valid() && old(log) <= log && ret <= 0
      ensures SameButIdentity(old(rootdev), old(devs), devs, i) && SameNumbers(old(devs)[i], devs[i])
      ensures old(Calm()) && i > 0 ==> Calm()
      ensures old(Starting() && AllSafe(log)) && i == 0 ==> Calm()
      ensures old(rootdev) == 0 && HubAnswered(old(sent)) ==> ret == 0 && followed && devs[i].identity.hub
      ensures ret == 0 ==> followed && Settles(answers, |old(log)|) && AskedOwn(log, |old(log)|, i, answers)
      ensures SettlesWell(answers, |old(log)|) ==> ret == 0
    {
      ghost var from := |log|;
      var reply := SetAddress(i);
      ghost var first := log[from];
      if reply.result < 0 {
        return -1;
      }
      ret := ScanAddressed(i);
      assert log[from] == first;
    }

    /** usb_scan_roothub.  Right after ehci_init and usb_init every message goes where it should, and if the
        virtual hub answers those it gets, the root hub is found; with an address left over from an earlier
        scan the first one goes to the bus although the root hub has no parent. */
    method ScanRootHub() returns (ret: int, root: Option<nat>)
      requires Valid() && count == 0 && followed
      modifies this
      ensures Valid() && old(log) <= log
      ensures old(AllSafe(log)) ==> (AllSafe(log) <==> old(rootdev) == 0)
      ensures old(AllSafe(log)) && old(rootdev) == 0 && root.Some? ==> root == Some(0) && Calm()
      ensures root.Some? ==> ret == 0 && root.value < count && devs[root.value].identity.hub
      ensures root == Some(0) ==>
        count == 1 && devs[0].devnum >= 0 && devs[0].children == [None, None, None, None, None, None, None, None]
      ensures old(rootdev) == 0 && HubAnswered(old(sent)) ==> ret == 0 && root == Some(0) && followed
    {
      var i := Alloc(None, 0);
      if i.None? {
        return -1, None;
      }
      ghost var before := log;
      ghost var m;
      ret, m := ScanDevice(i.value, 0);
      assert log[|before|].route == (if old(rootdev) == 0 then ToRootHub else ToBus) && !log[|before|].hasParent;
      if ret < 0 {
        return ret, None;
      }
      if !devs[i.value].identity.hub {
        return ret, None;
      }
      return 0, i;
    }

    /** usb_hub_init and usb_hub_power_on.  A hub is taken over exactly when its three messages succeed, and
        then every port it announces is powered.  The virtual hub, with up to 31 ports, is. */
    method HubInit(i: nat) returns (ret: int)
      requires Running() && i < count && devs[i].devnum >= 0
      modifies this`rootdev, this`devs, this`log, this`sent, this`followed
      ensures Running() && count == old(count) && old(log) <= log && devs[i].children == old(devs)[i].children
      ensures old(followed) && followed ==> (ret == 0 <==> HubGood(answers, |old(log)|))
      ensures old(followed) && followed && ret == 0 ==> Powered(|old(log)|, i, Answer(|old(log)| + 1).buffer[2])
      ensures old(followed) && i == 0 && ports <= 31 && HubAnswered(old(sent)) ==>
        ret == 0 && followed && devs[0].maxChild == ports && Powered(|old(log)|, 0, ports)
    {
      ghost var n := |log|;
      var ok := HubDescriptor(i);
      if !ok {
        return -1;
      }
      ghost var mid := log;
      assert old(followed) ==> |mid| == n + 2;
      ret := HubStatus(i);
      assert old(followed) ==> log[n] == mid[n] && log[n + 1] == mid[n + 1];
    }

    /** From message n on this device was asked for its hub descriptor twice and for its status, and then all of
        these ports were powered and no more. */
    ghost predicate Powered(n: nat, i: nat, number: nat)
      requires Valid() && i < MAX_DEVICES
      reads this
    {
      && |log| == n + 3 + number && devs[i].maxChild == number
      && log[n].req == GetHubDescriptor(4) && log[n + 1].req == GetHubDescriptor(Answer(n).buffer[0])
      && log[n + 2].req == GetHubStatus()
      && forall k :: n + 3 <= k < |log| ==> log[k].device == i && log[k].req == SetPort(k - n - 3, 8)
    }

    /** The hub's status, and power to its ports. */
    method HubStatus(i: nat) returns (ret: int)
      requires Running() && i < count && devs[i].devnum >= 0
      modifies this`rootdev, this`devs, this`log, this`sent
      ensures Running() && devs == old(devs) && old(log) <= log
      ensures ret == (if Answer(|old(log)|).result < 0 then -1 else 0)
      ensures followed && ret == 0 ==> |log| == |old(log)| + 1 + devs[i].maxChild
      ensures followed ==> |log| > |old(log)| && log[|old(log)|].req == GetHubStatus()
      ensures followed && ret == 0 ==> forall k :: |old(log)| + 1 <= k < |log| ==>
        log[k].device == i && log[k].req == SetPort(k - |old(log)| - 1, 8)
      ensures followed && devs[i].devnum == rootdev && HubAnswered(old(sent)) ==> ret == 0
    {
      ghost var n := |log|;
      var reply := Control(i, GetHubStatus());
      ghost var mid := log;
      if reply.result < 0 {
        return -1;
      }
      PowerOn(i);
      assert followed ==> log[n] == mid[n];
      return 0;
    }

    /** The hub descriptor, its length first.  The model follows only if it stays inside the record. */
    method HubDescriptor(i: nat) returns (ok: bool)
      requires Running() && i < count && devs[i].devnum >= 0
      modifies this`rootdev, this`devs, this`log, this`sent, this`followed
      ensures Running() && old(log) <= log && devs[i].devnum == old(devs)[i].devnum
      ensures devs[i].children == old(devs)[i].children
      ensures followed ==> old(followed)
      ensures old(followed) && !followed ==>
        !HubFits(Answer(|old(log)| + 1).buffer, old(devs)[i].identity.hubRecord)
      ensures ok && followed ==> HubFits(Answer(|old(log)| + 1).buffer, old(devs)[i].identity.hubRecord)
      ensures old(followed) ==> (ok <==> Answer(|old(log)|).result >= 0 && Answer(|old(log)| + 1).result >= 0)
      ensures old(followed) && ok ==>
        AskedHub(log, |old(log)|, answers) && devs[i].maxChild == Answer(|old(log)| + 1).buffer[2]
      ensures old(followed) && devs[i].devnum == rootdev && ports <= 31 && HubAnswered(old(sent)) ==>
        ok && followed && devs[i].maxChild == ports
    {
      var reply;
      ok, reply := FetchHubDescriptor(i);
      if !ok {
        return;
      }
      RootRecordFits(reply.buffer, devs[i].identity.hubRecord, ports, characteristics);
      var record, inside := TakeHubDescriptor(reply.buffer, devs[i].identity.hubRecord);
      followed := followed && inside;
      devs := devs[i := devs[i].(maxChild := reply.buffer[2], identity := devs[i].identity.(hubRecord := record))];
    }

    /** Four bytes, then as many as they announce. */
    method FetchHubDescriptor(i: nat) returns (ok: bool, reply: Reply)
      requires Running() && i < count && devs[i].devnum >= 0
      modifies this`rootdev, this`devs, this`log, this`sent
      ensures Running() && old(log) <= log && devs == old(devs) && reply.Valid()
      ensures followed ==> (ok <==> Answer(|old(log)|).result >= 0 && Answer(|old(log)| + 1).result >= 0)
      ensures followed && ok ==> AskedHub(log, |old(log)|, answers) && reply == Answer(|old(log)| + 1)
      ensures followed && devs[i].devnum == rootdev && HubAnswered(old(sent)) ==>
        ok && RootHub.Begins(RootHub.HubBytes(ports, characteristics), reply.buffer)
    {
      ghost var n := |log|;
      reply := Control(i, GetHubDescriptor(4));
      ghost var first := reply;
      ghost var mid := log;
      if FromRootHub(reply, GetHubDescriptor(4), ports, characteristics) {
        HubShort(reply, ports, characteristics);
      }
      if reply.result < 0 {
        return false, reply;
      }
      reply := Control(i, GetHubDescriptor(reply.buffer[0]));
      ok := reply.result >= 0;
      assert followed ==> log[n] == mid[n];
      if FromRootHub(reply, GetHubDescriptor(8), ports, characteristics) {
        HubLong(reply, ports, characteristics);
      }
    }

    /** Every port in turn. */
    method PowerOn(i: nat)
      requires Running() && i < count && devs[i].devnum >= 0
      modifies this`rootdev, this`devs, this`log, this`sent
      ensures Running() && devs == old(devs) && old(log) <= log
      ensures |log| == |old(log)| + if followed then devs[i].maxChild else 0
      ensures followed ==> forall k :: |old(log)| <= k < |log| ==>
        log[k].device == i && log[k].req == SetPort(k - |old(log)|, 8)
    {
      for k := 0 to devs[i].maxChild
        invariant Running() && devs == old(devs) && old(log) <= log
        invariant |log| == |old(log)| + if followed then k else 0
        invariant followed ==> forall j :: |old(log)| <= j < |log| ==>
          log[j].device == i && log[j].req == SetPort(j - |old(log)|, 8)
      {
        var _ := Control(i, SetPort(k, RootHub.FEAT_POWER));
      }
    }

    /** A scan that found a device found a new one, at its own address, on this port of this hub. */
    ghost predicate Found(p: nat, port: nat, first: nat, ret: int, child: Option<nat>)
      requires Valid()
      reads this
    {
      && (ret == 1 <==> child.Some?) && ret <= 1
      && (child.Some? ==>
            var c := child.value;
            first <= c < count && devs[c].devnum == c + 1 && devs[c].parent == Some(p)
            && p < MAX_DEVICES && port < MAX_CHILDREN && devs[p].children[port] == child)
    }

    /** usb_hub_port_connect_change: reset the port, take a new device record, scan it.  It has nothing to report
        exactly when the port is not connected, and is not enabled or had a device. */
    method ConnectChange(p: nat, port: nat) returns (ret: int, child: Option<nat>)
      requires Running() && p < count && port < MAX_CHILDREN
      modifies this`rootdev, this`devs, this`log, this`sent, this`count, this`followed
      ensures Running() && count >= old(count) && old(log) <= log && Found(p, port, old(count), ret, child)
      ensures old(followed) ==>
        (ret == 0 <==> Answer(|old(log)|).result >= 0
                       && Gone(Answer(|old(log)|).Status(), old(devs)[p].children[port].None?))
      ensures old(followed) && ret == 1 ==> followed && port < old(devs)[p].maxChild && child == Some(old(count))
      ensures old(followed) && ret == 1 ==> Brought(answers, |old(log)| + 2, devs[old(count)])
      ensures old(followed) && old(count) < 32 && port < old(devs)[p].maxChild ==>
        PortBrings(answers, |old(log)|, old(devs)[p].children[port].None?) ==> ret == 1
      ensures old(followed) && Answer(|old(log)|).result >= 0
              && !Gone(Answer(|old(log)|).Status(), old(devs)[p].children[port].None?) ==>
        Reset(log, |old(log)|, port)
    {
      var reply := Control(p, GetPort(port));
      if reply.result < 0 {
        return reply.result, None;
      }
      var status := reply.Status();
      var _ := Control(p, ClearPort(port, RootHub.FEAT_C_CONNECTION));
      if (!status.connection && !status.enable) || devs[p].children[port].Some? {
        if !status.connection {
          return 0, None;
        }
      }
      ret, child := Reconnect(p, port, |old(log)| + 2);
    }

    /** The rest of usb_hub_port_connect_change: the reset, the record and the scan. */
    method Reconnect(p: nat, port: nat, ghost n: nat) returns (ret: int, child: Option<nat>)
      requires Running() && p < count && port < MAX_CHILDREN && (followed ==> n == |log|)
      modifies this`rootdev, this`devs, this`log, this`sent, this`count, this`followed
      ensures Running() && count >= old(count) && old(log) <= log && Found(p, port, old(count), ret, child)
      ensures ret < 0 || ret == 1
      ensures old(followed) && ret == 1 ==> followed && port < old(devs)[p].maxChild && child == Some(old(count))
      ensures old(followed) && ret == 1 ==> Brought(answers, n, devs[old(count)])
      ensures old(followed) && old(count) < 32 && port < old(devs)[p].maxChild ==>
        Brings(answers, n) ==> ret == 1
      ensures old(followed) ==> |log| >= n + 2
      ensures old(followed) ==> log[n].req == SetPort(port, 4) && log[n + 1].req == GetPort(port)
    {
      var ok, status := HubPortReset(p, port);
      assert followed ==> ResetEnd(answers, n) == if ok then Some(|log|) else None;
      ghost var mid := log;
      if !ok {
        return -1, None;
      }
      ret, child := Enumerate(p, port, status);
      assert old(followed) ==> log[n] == mid[n] && log[n + 1] == mid[n + 1];
    }

    /** A device record for what answers on a freshly reset port, and its scan. */
    method Enumerate(p: nat, port: nat, status: RootHub.PortStatus) returns (ret: int, child: Option<nat>)
      requires Running() && p < count && port < MAX_CHILDREN
      modifies this`rootdev, this`devs, this`log, this`sent, this`count, this`followed
      ensures Running() && count >= old(count) && old(log) <= log && Found(p, port, old(count), ret, child)
      ensures ret < 0 || ret == 1
      ensures old(followed) && ret == 1 ==> followed && port < old(devs)[p].maxChild && child == Some(old(count))
      ensures old(followed) && ret == 1 ==>
        var d := devs[old(count)];
        d.speed == SpeedOf(status) && Scanned(answers, |old(log)|, true, d.maxPacketSize)
      ensures old(followed) && old(count) < 32 && port < old(devs)[p].maxChild ==>
        ScanFits(answers, |old(log)|, true) ==> ret == 1
    {
      var taken := TakeRecord(p, port, status);
      if taken.None? || !followed {
        return -1, None;
      }
      ghost var m;
      ret, m := ScanDevice(taken.value, port);
      if ret < 0 {
        return ret, None;
      }
      return 1, taken;
    }

    /** usb_alloc_new_device and the speed the port reports. */
    method TakeRecord(p: nat, port: nat, status: RootHub.PortStatus) returns (taken: Option<nat>)
      requires Running() && p < count && port < MAX_CHILDREN
      modifies this`devs, this`count
      ensures Running() && old(count) <= count
      ensures taken.Some? ==>
        && old(count) == taken.value < count && p < taken.value && devs[taken.value].devnum == taken.value + 1
        && devs[taken.value].parent == Some(p) && devs[p].devnum >= 0
        && OnlyAt(devs[p].children, taken.value, port) && devs[p].maxChild == old(devs)[p].maxChild
        && devs[taken.value].speed == SpeedOf(status)
      ensures taken.Some? <==> old(count) < 32
    {
      taken := Alloc(Some(p), port);
      if taken.Some? {
        var i := taken.value;
        var speed := if status.highSpeed then SPEED_HIGH else if status.lowSpeed then SPEED_LOW else SPEED_FULL;
        devs := devs[i := devs[i].(speed := speed)];
      }
    }

    /** usb_hub_scan.  On a port that shows no other change it reports a new device exactly as the connection
        change does, and nothing without one. */
    method HubScan(p: nat, port: nat) returns (ret: int, child: Option<nat>)
      requires Running() && p < count && port < MAX_CHILDREN
      modifies this`rootdev, this`devs, this`log, this`sent, this`count, this`followed
      ensures Running() && count >= old(count) && old(log) <= log && Found(p, port, old(count), ret, child)
      ensures old(followed) ==> |log| > |old(log)| && log[|old(log)|].req == GetPort(port)
      ensures old(followed) && Answer(|old(log)|).result == 0 ==> ret == -1
      ensures old(followed) && Answer(|old(log)|).result != 0 && Calms(Answer(|old(log)|).Status()) ==>
        if Answer(|old(log)|).Status().cConnection
        then Connected(p, port, |old(log)| + 1, old(count), old(devs), ret, child)
        else ret == 0 && |log| == |old(log)| + 1 && devs == old(devs) && count == old(count)
    {
      var reply := Control(p, GetPort(port));
      if reply.result == 0 {
        return -1, None;
      }
      assert devs == old(devs);
      ret, child := ScanChanges(p, port, reply.Status(), |old(log)| + 1);
    }

    /** usb_hub_scan behind the status query. */
    method ScanChanges(p: nat, port: nat, status: RootHub.PortStatus, ghost n: nat)
      returns (ret: int, child: Option<nat>)
      requires Running() && p < count && port < MAX_CHILDREN && (followed ==> n == |log|)
      modifies this`rootdev, this`devs, this`log, this`sent, this`count, this`followed
      ensures Running() && count >= old(count) && old(log) <= log && Found(p, port, old(count), ret, child)
      ensures old(followed) && Calms(status) && status.cConnection ==>
        Connected(p, port, n, old(count), old(devs), ret, child)
      ensures Calms(status) && !status.cConnection ==>
        ret == 0 && log == old(log) && devs == old(devs) && count == old(count)
    {
      child := None;
      if status.cConnection {
        ret, child := ConnectOrFail(p, port);
        if ret < 0 {
          return -1, None;
        }
      }
      ret, child := EnableChange(p, port, old(count), status, child);
    }

    /** What the connection change on a port comes to, from message n on: nothing exactly when the port is gone;
        a new device, which takes the next record, only if the port is reset and the device scanned, and
        certainly if its configuration fits too; else an error. */
    ghost predicate Connected(p: nat, port: nat, n: nat, first: nat, was: seq<Device>, ret: int, child: Option<nat>)
      requires Valid() && p < |was| && port < |was[p].children|
      reads this
    {
      var empty, room := was[p].children[port].None?, first < 32 && port < was[p].maxChild;
      var looked := Answer(n).result >= 0;
      && (ret == 0 <==> looked && Gone(Answer(n).Status(), empty))
      && (ret == 1 ==> room && child == Some(first) && Brought(answers, n + 2, devs[first]))
      && (PortBrings(answers, n, empty) && room ==> ret == 1)
      && (looked && !Gone(Answer(n).Status(), empty) ==> Reset(log, n, port))
    }

    /** The connection change, any failure reported as -1. */
    method ConnectOrFail(p: nat, port: nat) returns (ret: int, child: Option<nat>)
      requires Running() && p < count && port < MAX_CHILDREN
      modifies this`rootdev, this`devs, this`log, this`sent, this`count, this`followed
      ensures Running() && count >= old(count) && old(log) <= log && Found(p, port, old(count), ret, child)
      ensures ret == -1 || ret == 0 || ret == 1
      ensures old(followed) ==> Connected(p, port, |old(log)|, old(count), old(devs), ret, child)
    {
      ret, child := ConnectChange(p, port);
      if ret < 0 {
        ret := -1;
      }
    }

    /** The rest of usb_hub_scan, behind the connection change. */
    method EnableChange(p: nat, port: nat, ghost first: nat, status: RootHub.PortStatus, found: Option<nat>)
      returns (ret: int, child: Option<nat>)
      requires Running() && p < count && port < MAX_CHILDREN && first <= count
      requires Found(p, port, first, if found.Some? then 1 else 0, found)
      modifies this`rootdev, this`devs, this`log, this`sent, this`count, this`followed
      ensures Running() && count >= old(count) && old(log) <= log && Found(p, port, first, ret, child)
      ensures Calms(status) ==> log == old(log) && devs == old(devs) && count == old(count)
      ensures Calms(status) ==> child == found && ret == if found.Some? then 1 else 0
    {
      ret, child := EnableAgain(p, port, first, status, found);
      if ret < 0 {
        return -1, None;
      }
      ret, child := FinishScan(p, port, first, status, child);
    }

    /** The port's enable change: a port the hub switched off is brought up again. */
    method EnableAgain(p: nat, port: nat, ghost first: nat, status: RootHub.PortStatus, found: Option<nat>)
      returns (ret: int, child: Option<nat>)
      requires Running() && p < count && port < MAX_CHILDREN && first <= count
      requires Found(p, port, first, if found.Some? then 1 else 0, found)
      modifies this`rootdev, this`devs, this`log, this`sent, this`count, this`followed
      ensures Running() && count >= old(count) && old(log) <= log
      ensures Found(p, port, first, if child.Some? then 1 else 0, child)
      ensures old(followed) && status.cEnable ==>
        |log| > |old(log)| && log[|old(log)|].req == ClearPort(port, 17)
      ensures !status.cEnable ==> log == old(log)
      ensures if status.cEnable && !status.enable && status.connection && old(devs)[p].children[port].Some?
        then old(followed) ==> Connected(p, port, |old(log)| + 1, old(count), old(devs), ret, child)
        else ret >= 0 && child == found && devs == old(devs) && count == old(count)
    {
      ret, child := 0, found;
      if status.cEnable {
        var _ := Control(p, ClearPort(port, RootHub.FEAT_C_ENABLE));
        assert devs == old(devs);
        ghost var mid := log;
        if !status.enable && status.connection && devs[p].children[port].Some? {
          assert old(followed) ==> |log| == |old(log)| + 1;
          ret, child := ConnectOrFail(p, port);
          assert old(followed) ==> log[|old(log)|] == mid[|old(log)|];
        }
      }
    }

    /** The tail of usb_hub_scan: acknowledging what else changed.  It fails exactly when one of the
        acknowledgements comes back with zero bytes, and a later one is not made then. */
    method FinishScan(p: nat, port: nat, ghost first: nat, status: RootHub.PortStatus, found: Option<nat>)
      returns (ret: int, child: Option<nat>)
      requires Running() && p < count && port < MAX_CHILDREN
      requires Found(p, port, first, if found.Some? then 1 else 0, found)
      modifies this`rootdev, this`devs, this`log, this`sent
      ensures Running() && old(log) <= log && Found(p, port, first, ret, child)
      ensures Calms(status) ==> log == old(log) && devs == old(devs) && ret >= 0
      ensures if ret < 0 then child == None else child == found && ret == if found.Some? then 1 else 0
      ensures old(followed) && ret >= 0 ==> FinishEnd(answers, |old(log)|, status, old(devs)[p].maxChild) == Some(|log|)
      ensures old(followed) && FinishEnd(answers, |old(log)|, status, old(devs)[p].maxChild).Some? ==> ret >= 0
      ensures old(followed) && status.suspend ==> |log| > |old(log)| && log[|old(log)|].req == ClearPort(port, 2)
      ensures old(followed) && status.cOvercurrent && !status.suspend ==>
        |log| > |old(log)| && log[|old(log)|].req == ClearPort(port, 19)
      ensures old(followed) && ret >= 0 && status.cReset ==>
        |log| > |old(log)| && log[|log| - 1].req == ClearPort(port, 20)
    {
      var ok := Acknowledge(p, port, FEAT_SUSPEND, status.suspend);
      if ok {
        ok := Overcurrent(p, port, status.cOvercurrent);
      }
      if ok {
        ok := Acknowledge(p, port, RootHub.FEAT_C_RESET, status.cReset);
      }
      ret, child := if !ok then -1 else if found.None? then 0 else 1, if ok then found else None;
    }

    /** An overcurrent is acknowledged, and all ports are powered again. */
    method Overcurrent(p: nat, port: nat, changed: bool) returns (ok: bool)
      requires Running() && p < count
      modifies this`rootdev, this`devs, this`log, this`sent
      ensures Running() && old(log) <= log && devs == old(devs)
      ensures ok <==> !changed || Answer(|old(log)|).result != 0
      ensures |log| == |old(log)| + if !followed || !changed then 0 else if ok then 1 + devs[p].maxChild else 1
      ensures followed && changed ==> log[|old(log)|].req == ClearPort(port, 19)
      ensures followed && changed && ok ==>
        forall k :: |old(log)| + 1 <= k < |log| ==> log[k].req == SetPort(k - |old(log)| - 1, 8)
    {
      ok := Acknowledge(p, port, FEAT_C_OVER_CURRENT, changed);
      if ok && changed {
        ghost var mid := log;
        PowerOn(p);
        assert followed ==> log[|old(log)|] == mid[|old(log)|];
      }
    }

    /** usb_clear_port_feature where something changed. */
    method Acknowledge(p: nat, port: nat, feature: nat, changed: bool) returns (ok: bool)
      requires Running() && p < count
      modifies this`rootdev, this`devs, this`log, this`sent
      ensures Running() && old(log) <= log && devs == old(devs)
      ensures ok <==> !changed || Answer(|old(log)|).result != 0
      ensures |log| == |old(log)| + if followed && changed then 1 else 0
      ensures followed && changed ==> log[|old(log)|].req == ClearPort(port, feature)
    {
      ok := true;
      if changed {
        var reply := Control(p, ClearPort(port, feature));
        ok := reply.result != 0;
      }
    }

    /** ehci_init as far as routing goes; a controller that does not start leaves rootdev alone. */
    method EhciInit(starts: bool) returns (ret: int)
      modifies this`rootdev
      ensures ret == if starts then 0 else -1
      ensures rootdev == if starts then 0 else old(rootdev)
    {
      if !starts {
        return -1;
      }
      rootdev := 0;
      ret := 0;
    }

    /** usb_init: all device records unknown. */
    method UsbInit()
      requires Valid()
      modifies this`devs, this`count
      ensures Valid() && count == 0 && forall k :: 0 <= k < MAX_DEVICES ==> devs[k].devnum == -1
    {
      var i := 0;
      while i < MAX_DEVICES
        invariant 0 <= i <= MAX_DEVICES && Valid() && count == old(count)
        invariant forall k :: 0 <= k < i ==> devs[k].devnum == -1
      {
        devs := devs[i := UNKNOWN];
        i := i + 1;
      }
      count := 0;
    }

    /** Any number of the rounds of main, each with any sequence of port scans after the root hub is found,
        also on hubs found on the way, whatever the devices answer: every control message ever sent went to
        the virtual hub if it was the root hub's, and otherwise to the bus with a parent whose address could
        be read -- up to the first device whose own description is stored outside its record or ends oddly. */
    method Session(rounds: seq<Round>)
      requires Valid() && AllSafe(log)
      modifies this
      ensures Valid() && old(log) <= log && AllSafe(log)
    {
      for n := 0 to |rounds|
        invariant Valid() && old(log) <= log && AllSafe(log)
      {
        if !followed {
          return;
        }
        var ret := EhciInit(rounds[n].starts);
        if ret < 0 {
          return;
        }
        UsbInit();
        var root;
        ret, root := ScanRootHub();
        if ret < 0 || root.None? {
          return;
        }
        ret := HubInit(root.value);
        if ret < 0 {
          return;
        }
        ScanPorts(rounds[n].scans);
      }
    }

    /** One round of main, from a controller that starts to the scan of port 0, on a virtual hub with up to 31
        ports: n is the message that asks for the port's status.  When nothing but the connection changed, a
        device that comes up after its reset and describes itself well is found as the second record, and
        nothing is found on a port whose connection did not change. */
    method Boot() returns (ret: int, child: Option<nat>, ghost n: nat)
      requires Valid() && AllSafe(log) && followed && 1 <= ports <= 31
      modifies this
      ensures Valid() && old(log) <= log && AllSafe(log)
      ensures HubAnswered(old(sent)) && Answer(n).result != 0 && Calms(Answer(n).Status()) ==>
        if Answer(n).Status().cConnection
        then PortBrings(answers, n + 1, true) ==> ret == 1 && child == Some(1)
        else ret == 0 && child == None
    {
      ghost var from := sent;
      child := None;
      ret := BootRoot();
      ghost var mid := log;
      n := |log|;
      if ret < 0 {
        return;
      }
      ret, child := HubScan(0, 0);
      if AllFromRootHub(answers, log, from, ports, characteristics) {
        FromRootHubBefore(answers, mid, log, from, from, ports, characteristics);
      }
    }

    /** The same round up to the root hub's ports. */
    method BootRoot() returns (ret: int)
      requires Valid() && AllSafe(log) && followed && 1 <= ports <= 31
      modifies this
      ensures Valid() && old(log) <= log && AllSafe(log) && (ret >= 0 ==> Running() && count > 0)
      ensures HubAnswered(old(sent)) ==>
        && ret == 0 && followed && count == 1
        && devs[0].maxChild == ports && devs[0].children == [None, None, None, None, None, None, None, None]
    {
      ghost var from := sent;
      ret := EhciInit(true);
      UsbInit();
      var root;
      ret, root := ScanRootHub();
      ghost var mid := log;
      if ret < 0 || root.None? {
        return -1;
      }
      ret := HubInit(root.value);
      if AllFromRootHub(answers, log, from, ports, characteristics) {
        FromRootHubBefore(answers, mid, log, from, from, ports, characteristics);
        FromRootHubBefore(answers, log, log, from, |mid|, ports, characteristics);
      }
    }

    method ScanPorts(scans: seq<Scan>)
      requires Running()
      modifies this`rootdev, this`devs, this`log, this`sent, this`count, this`followed
      ensures Running() && old(log) <= log
    {
      for k := 0 to |scans|
        invariant Running() && old(log) <= log
      {
        if scans[k].hub < count && scans[k].port < MAX_CHILDREN {
          if scans[k].initialise {
            var _ := HubInit(scans[k].hub);
          }
          var _, _ := HubScan(scans[k].hub, scans[k].port);
        }
      }
    }
  }

  /** The code of a packet size; another size than these counts as 64. */
  function SizeCode(size: nat): nat { if size == 8 then 0 else if size == 16 then 1 else if size == 32 then 2 else 3 }

  datatype Scan = Scan(hub: nat, port: nat, initialise: bool)

  datatype Round = Round(starts: bool, scans: seq<Scan>)

  /** A device with a parent is among the children of that parent. */
  predicate Attached(devs: seq<Device>, i: nat, there: nat)
    requires i < |devs|
  {
    devs[i].parent.Some? ==>
      var p := devs[i].parent.value;
      p < i && devs[p].devnum >= 0 && OnlyAt(devs[p].children, i, there)
  }

  /** This child is at this place and nowhere else. */
  predicate OnlyAt(children: seq<Option<nat>>, i: nat, there: nat)
  {
    there < |children| && forall j :: 0 <= j < |children| ==> (children[j] == Some(i) <==> j == there)
  }

  /** A message as it is logged. */
  function Entry(i: nat, address: int, rootdev: int, d: Device, req: Request): Sent
    requires address >= 0
  {
    Sent(i, address, if address == rootdev then ToRootHub else ToBus, d.parent.Some?, req)
  }

  // ---- what the replies decide, by the number of the message they answer ----

  ghost predicate AllValid(answers: Answers) { forall n :: answers(n).Valid() }

  /** How a port shows up after a reset. */
  datatype Seen = Lost | Enabled | Waits

  /** The port's status after the try of this number, of a reset that begins with message n. */
  ghost function ResetReply(answers: Answers, n: nat, try: nat): Reply { answers(n + 2 * try + 1) }

  /** That try found the port connected as before, but not enabled. */
  ghost predicate Waiting(answers: Answers, n: nat, try: nat)
    requires AllValid(answers)
  {
    var reply := ResetReply(answers, n, try);
    reply.result >= 0 && reply.Status().connection && !reply.Status().enable && !reply.Status().cConnection
  }

  ghost predicate AllWaiting(answers: Answers, n: nat, tries: nat)
    requires AllValid(answers)
  {
    tries == 0 || (AllWaiting(answers, n, tries - 1) && Waiting(answers, n, tries - 1))
  }

  lemma {:induction false} AllWait(answers: Answers, n: nat, tries: nat, try: nat)
    requires AllValid(answers) && AllWaiting(answers, n, tries) && try < tries
    ensures Waiting(answers, n, try)
    decreases tries
  {
    if try < tries - 1 {
      AllWait(answers, n, tries - 1, try);
    }
  }

  /** And that one found it enabled. */
  ghost predicate EnabledBy(answers: Answers, n: nat, try: nat)
    requires AllValid(answers)
  {
    var reply := ResetReply(answers, n, try);
    reply.result >= 0 && reply.Status().connection && reply.Status().enable && !reply.Status().cConnection
  }

  /** It was the first of the five to find it so. */
  ghost predicate EnabledAt(answers: Answers, n: nat, try: nat)
    requires AllValid(answers)
  {
    try < 5 && AllWaiting(answers, n, try) && EnabledBy(answers, n, try)
  }

  /** The number of messages when a reset that begins with message n has succeeded, if it does. */
  ghost function ResetEnd(answers: Answers, n: nat): (end: Option<nat>)
    requires AllValid(answers)
    ensures end.Some? ==> n + 3 <= end.value <= n + 11
  {
    if exists try :: EnabledAt(answers, n, try) then
      var try: nat :| EnabledAt(answers, n, try);
      Some(n + 2 * try + 3)
    else None
  }

  /** What the port showed at the end. */
  ghost function ResetStatus(answers: Answers, n: nat): RootHub.PortStatus
    requires AllValid(answers) && ResetEnd(answers, n).Some?
  {
    answers(ResetEnd(answers, n).value - 2).Status()
  }

  /** The first try that does not find the port waiting decides. */
  ghost predicate Decided(answers: Answers, n: nat, try: nat, ok: bool)
    requires AllValid(answers)
  {
    && AllWaiting(answers, n, try) && try < 5 && (ok <==> EnabledBy(answers, n, try))
    && (!ok ==> try == 4 || !Waiting(answers, n, try))
  }

  lemma ResetEnds(answers: Answers, n: nat, try: nat, ok: bool)
    requires AllValid(answers) && Decided(answers, n, try, ok)
    ensures ResetEnd(answers, n) == if ok then Some(n + 2 * try + 3) else None
    ensures ok ==> ResetStatus(answers, n) == ResetReply(answers, n, try).Status()
  {
    forall other: nat | EnabledAt(answers, n, other)
      ensures ok && other == try
    {
      if other < try {
        AllWait(answers, n, try, other);
      } else if try < other {
        AllWait(answers, n, other, try);
      }
    }
    if ok {
      assert EnabledAt(answers, n, try);
    }
  }

  /** A device answers the first message at the default address, and its port, if it has one, comes up again
      after it: the number of messages then. */
  ghost function GreetEnd(answers: Answers, n: nat, onHub: bool): (end: Option<nat>)
    requires AllValid(answers)
    ensures end.Some? ==> end.value > n
  {
    if answers(n).result < 0 then None else if onHub then ResetEnd(answers, n + 1) else Some(n + 1)
  }

  /** From message n on a device accepts its address, describes itself and takes its configuration. */
  ghost predicate Settles(answers: Answers, n: nat)
    requires AllValid(answers)
  {
    answers(n).result >= 0 && Identified(answers, n + 1)
  }

  /** And its configuration fits. */
  ghost predicate SettlesWell(answers: Answers, n: nat)
    requires AllValid(answers)
  {
    Settles(answers, n) && ConfigFits(Configuration(answers, n + 2))
  }

  ghost predicate AskedOwn(log: seq<Sent>, n: nat, i: nat, answers: Answers)
    requires AllValid(answers)
  {
    n < |log| && log[n].req == SetAddressTo(i + 1) && AskedAll(log, n + 1, answers)
  }

  /** From message n on a device answers like this at both addresses, and its configuration fits. */
  ghost predicate ScanFits(answers: Answers, n: nat, onHub: bool)
    requires AllValid(answers)
  {
    var m := GreetEnd(answers, n, onHub);
    m.Some? && SettlesWell(answers, m.value)
  }

  /** What a successful scan leaves: the packet size code is that of byte 7 of the first reply. */
  ghost predicate Scanned(answers: Answers, n: nat, onHub: bool, code: nat)
    requires AllValid(answers)
  {
    var m := GreetEnd(answers, n, onHub);
    m.Some? && Settles(answers, m.value) && code == SizeCode(answers(n).buffer[7])
  }

  /** No change but perhaps that of the connection. */
  predicate Calms(status: RootHub.PortStatus)
  {
    !status.cEnable && !status.suspend && !status.cOvercurrent && !status.cReset
  }

  /** The number of messages when from message n on all other changes of a port are acknowledged; after an
      overcurrent all ports of the hub are powered again. */
  ghost function FinishEnd(answers: Answers, n: nat, status: RootHub.PortStatus, ports: nat): Option<nat>
  {
    if status.suspend && answers(n).result == 0 then None
    else
      var a := if status.suspend then n + 1 else n;
      if status.cOvercurrent && answers(a).result == 0 then None
      else
        var b := if status.cOvercurrent then a + 1 + ports else a;
        if status.cReset && answers(b).result == 0 then None else Some(if status.cReset then b + 1 else b)
  }

  /** Nothing is connected, and the port is not enabled or had a device. */
  predicate Gone(status: RootHub.PortStatus, empty: bool) { !status.connection && (!status.enable || !empty) }

  /** From message n on a port is reset and brings up a device whose description fits. */
  ghost predicate Brings(answers: Answers, n: nat)
    requires AllValid(answers)
  {
    var m := ResetEnd(answers, n);
    m.Some? && ScanFits(answers, m.value, true)
  }

  /** From message n on a port is found connected, or at least enabled where no device was, and brings one up. */
  ghost predicate PortBrings(answers: Answers, n: nat, empty: bool)
    requires AllValid(answers)
  {
    answers(n).result >= 0 && !Gone(answers(n).Status(), empty) && Brings(answers, n + 2)
  }

  /** And it has been scanned, with the speed the port showed after its reset. */
  ghost predicate Brought(answers: Answers, n: nat, d: Device)
    requires AllValid(answers)
  {
    var m := ResetEnd(answers, n);
    && m.Some? && d.speed == SpeedOf(ResetStatus(answers, n))
    && Scanned(answers, m.value, true, d.maxPacketSize)
  }

  /** From message n on: the status, the change acknowledged, a reset, and the status again. */
  predicate Reset(log: seq<Sent>, n: nat, port: nat)
  {
    && |log| >= n + 4
    && log[n].req == GetPort(port) && log[n + 1].req == ClearPort(port, 16)
    && log[n + 2].req == SetPort(port, 4) && log[n + 3].req == GetPort(port)
  }

  /** High, low or full speed. */
  function SpeedOf(status: RootHub.PortStatus): nat
  {
    if status.highSpeed then 2 else if status.lowSpeed then 1 else 0
  }

  /** The device's place is among the ports its hub announced. */
  predicate InReach(devs: seq<Device>, i: nat, there: nat)
    requires i < |devs|
  {
    devs[i].parent.Some? ==>
      devs[i].parent.value < |devs| && there < devs[devs[i].parent.value].maxChild
  }

  /** The number of the message whose reply is parsed as the configuration: the second one when the first
      brought nine bytes and announces no more than the buffer holds. */
  ghost function ConfigIndex(answers: Answers, n: nat): (c: nat)
    requires AllValid(answers)
    ensures n <= c <= n + 1
  {
    if answers(n).result >= 9 && answers(n).TotalLength() <= 512 then n + 1 else n
  }

  ghost function Configuration(answers: Answers, n: nat): (b: Bytes)
    requires AllValid(answers)
    ensures |b| == BUFFER_SIZE
  {
    answers(ConfigIndex(answers, n)).buffer
  }

  /** From message n on the configuration descriptor was asked for, nine bytes first. */
  ghost predicate AskedDescriptors(log: seq<Sent>, n: nat, answers: Answers)
    requires AllValid(answers)
  {
    && n < |log| && log[n].req == GetDescriptor(0x200, 9)
    && (ConfigIndex(answers, n) == n + 1 ==>
          n + 1 < |log| && log[n + 1].req == GetDescriptor(0x200, answers(n).TotalLength()))
  }

  /** And then set, with the value it gave of itself. */
  ghost predicate AskedConfig(log: seq<Sent>, n: nat, answers: Answers)
    requires AllValid(answers)
  {
    && AskedDescriptors(log, n, answers)
    && var c := ConfigIndex(answers, n);
       && c + 1 < |log| && log[c + 1].req.typeReq == RootHub.SET_CONFIGURATION
       && (UsbConfig.OutcomeOf(answers(c).buffer) == UsbConfig.Filled ==>
             log[c + 1].req == SetConfiguration(answers(c).buffer[5]))
  }

  /** All of a device's descriptors in this order. */
  ghost predicate AskedAll(log: seq<Sent>, n: nat, answers: Answers)
    requires AllValid(answers)
  {
    n < |log| && log[n].req == GetDescriptor(0x100, 18) && AskedConfig(log, n + 1, answers)
  }

  /** A device keeps its address and its packet size code. */
  predicate SameNumbers(a: Device, b: Device) { b.devnum == a.devnum && b.maxPacketSize == a.maxPacketSize }

  /** From message n on, at its own address, a device gives its descriptor and takes its configuration. */
  ghost predicate Identified(answers: Answers, n: nat)
    requires AllValid(answers)
  {
    answers(n).result >= 18 && answers(ConfigIndex(answers, n + 1) + 1).result == 0
  }

  // ---- what the virtual hub answers while it is scanned ----

  lemma RootGreets(answers: Answers, log: seq<Sent>, n: nat, ports: nat, characteristics: nat)
    requires AllValid(answers) && n < |log| && log[n].req == GetDescriptor(0x100, 64)
    ensures AllFromRootHub(answers, log, n, ports, characteristics) && log[n].route == ToRootHub ==>
      answers(n).result == 18
  {
  }

  lemma RootShort(answers: Answers, log: seq<Sent>, n: nat, ports: nat, characteristics: nat)
    requires AllValid(answers) && n < |log| && log[n].req == GetDescriptor(0x200, 9)
    ensures AllFromRootHub(answers, log, n, ports, characteristics) && log[n].route == ToRootHub ==>
      answers(n).result == 9 && answers(n).TotalLength() == 25
  {
    if AllFromRootHub(answers, log, n, ports, characteristics) && log[n].route == ToRootHub {
      var reply := answers(n);
      assert reply.buffer[..9] == RootHub.CONFIG_BYTES[..9];
      assert reply.buffer[..9][2] == 0x19 && reply.buffer[..9][3] == 0;
    }
  }

  lemma RootLong(answers: Answers, log: seq<Sent>, n: nat, ports: nat, characteristics: nat)
    requires AllValid(answers) && n < |log|
    ensures AllFromRootHub(answers, log, n, ports, characteristics) && log[n].route == ToRootHub
            && log[n].req == GetDescriptor(0x200, 25) ==>
      RootHub.CONFIG_BYTES <= answers(n).buffer
  {
    if AllFromRootHub(answers, log, n, ports, characteristics) && log[n].route == ToRootHub
       && log[n].req == GetDescriptor(0x200, 25) {
      assert answers(n).buffer[..25] == RootHub.CONFIG_BYTES;
    }
  }

  lemma RootRecordFits(b: Bytes, was: Bytes, ports: nat, characteristics: nat)
    requires |b| == BUFFER_SIZE && |was| == HUB_RECORD && ports < 0x100 && characteristics < 0x1_0000
    ensures RootHub.Begins(RootHub.HubBytes(ports, characteristics), b) ==>
      b[2] == ports && (ports <= 31 ==> HubFits(b, was))
  {
    if RootHub.Begins(RootHub.HubBytes(ports, characteristics), b) {
      RootDescriptor.RootHubRead(b, ports, characteristics);
      FitsInNumbers(b, was);
    }
  }

  lemma HubShort(reply: Reply, ports: nat, characteristics: nat)
    requires reply.Valid() && FromRootHub(reply, GetHubDescriptor(4), ports, characteristics)
    ensures reply.result == 4 && reply.buffer[0] == 8
  {
    assert reply.buffer[0] == reply.buffer[..4][0] == RootHub.HubBytes(ports, characteristics)[..4][0];
  }

  lemma HubLong(reply: Reply, ports: nat, characteristics: nat)
    requires reply.Valid() && FromRootHub(reply, GetHubDescriptor(8), ports, characteristics)
    ensures reply.result == 8 && RootHub.Begins(RootHub.HubBytes(ports, characteristics), reply.buffer)
  {
    var bytes := RootHub.HubBytes(ports, characteristics);
    assert |bytes| == 8 && bytes[..8] == bytes;
  }

  /** The hub descriptor was asked for from message n on, four bytes first. */
  ghost predicate AskedHub(log: seq<Sent>, n: nat, answers: Answers)
    requires AllValid(answers)
  {
    && |log| == n + 2
    && log[n].req == GetHubDescriptor(4) && log[n + 1].req == GetHubDescriptor(answers(n).buffer[0])
  }

  /** A hub gives its descriptor twice and its status. */
  ghost predicate HubGood(answers: Answers, n: nat)
  {
    answers(n).result >= 0 && answers(n + 1).result >= 0 && answers(n + 2).result >= 0
  }

  ghost predicate AllSafe(log: seq<Sent>) { forall k :: 0 <= k < |log| ==> log[k].Safe() }

  /** Devices keep everything, and once the root hub has its address their speeds too. */
  predicate SameButSpeed(rootdev: int, a: seq<Device>, b: seq<Device>)
  {
    |a| == |b| && forall k :: 0 <= k < |a| ==> b[k] == a[k].(speed := if rootdev == 0 then b[k].speed else a[k].speed)
  }

  /** The devices are the same but for speeds and for one device's address, packet size and identity. */
  predicate SameButIdentity(rootdev: int, a: seq<Device>, b: seq<Device>, i: nat)
  {
    |a| == |b| && forall k :: 0 <= k < |a| ==>
      var speed := if rootdev == 0 then b[k].speed else a[k].speed;
      if k == i then
        b[k] == a[k].(speed := speed, devnum := b[k].devnum, maxPacketSize := b[k].maxPacketSize,
                      identity := b[k].identity)
      else b[k] == a[k].(speed := speed)
  }

  /** Every child is among the first records. */
  predicate ChildrenBelow(children: seq<Option<nat>>, count: nat)
  {
    forall j :: 0 <= j < |children| && children[j].Some? ==> children[j].value < count
  }
}
