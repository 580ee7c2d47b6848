/** usb_set_maxpacket of usb.c: the packet size of every endpoint number and direction, from the parsed
    configuration. */
module MaxPacket {
  import opened UsbConfig

  const NUMBERS := 16

  /** epmaxpacketin and epmaxpacketout */
  datatype Limits = Limits(input: seq<nat>, output: seq<nat>)
  {
    predicate Valid() { |input| == 16 && |output| == 16 }

    function Of(direction: Direction, number: nat): nat
      requires Valid() && number < NUMBERS
    {
      if direction.In? then input[number] else output[number]
    }
  }

  datatype Direction = In | Out

  /** & 0x0f and & 0x80 of the address, & 0x03 of the attributes */
  function Number(e: Endpoint): (n: nat)
    ensures n < NUMBERS
  {
    e.address % 0x10
  }

  function DirectionOf(e: Endpoint): Direction { if e.address / 0x80 % 2 == 0 then Out else In }

  predicate IsControl(e: Endpoint) { e.attributes % 4 == 0 }

  /** usb_set_maxpacket_ep: a control endpoint sets both directions, another one raises its own. */
  method SetEndpoint(limits: Limits, e: Endpoint) returns (now: Limits)
    requires limits.Valid()
    ensures now == Applied(limits, e)
  {
    var b := Number(e);
    now := limits;
    if IsControl(e) {
      now := now.(output := now.output[b := e.maxPacket]);
      now := now.(input := now.input[b := e.maxPacket]);
    } else if DirectionOf(e).Out? {
      if e.maxPacket > now.output[b] {
        now := now.(output := now.output[b := e.maxPacket]);
      }
    } else if e.maxPacket > now.input[b] {
      now := now.(input := now.input[b := e.maxPacket]);
    }
  }

  function Applied(limits: Limits, e: Endpoint): (now: Limits)
    requires limits.Valid()
    ensures now.Valid()
    ensures forall d, n :: 0 <= n < NUMBERS ==>
      now.Of(d, n) == if n == Number(e) && IsControl(e) then e.maxPacket
                      else if n == Number(e) && d == DirectionOf(e) then Max(limits.Of(d, n), e.maxPacket)
                      else limits.Of(d, n)
  {
    var b := Number(e);
    if IsControl(e) then Limits(limits.input[b := e.maxPacket], limits.output[b := e.maxPacket])
    else if DirectionOf(e).Out? then limits.(output := limits.output[b := Max(limits.output[b], e.maxPacket)])
    else limits.(input := limits.input[b := Max(limits.input[b], e.maxPacket)])
  }

  function Max(a: nat, b: nat): nat { if a < b then b else a }

  function AppliedAll(limits: Limits, es: seq<Endpoint>): (now: Limits)
    requires limits.Valid()
    ensures now.Valid()
  {
    if es == [] then limits else Applied(AppliedAll(limits, es[..|es| - 1]), es[|es| - 1])
  }

  /** This endpoint sends or receives on that number in that direction. */
  predicate Concerns(e: Endpoint, d: Direction, n: nat) { Number(e) == n && (IsControl(e) || DirectionOf(e) == d) }

  lemma {:induction false} LargestOf(limits: Limits, es: seq<Endpoint>, d: Direction, n: nat)
    requires limits.Valid() && n < NUMBERS
    requires forall k :: 0 <= k < |es| && Number(es[k]) == n ==> !IsControl(es[k])
    ensures var limit := AppliedAll(limits, es).Of(d, n);
      && limits.Of(d, n) <= limit
      && (forall k :: 0 <= k < |es| && Concerns(es[k], d, n) ==> es[k].maxPacket <= limit)
      && (limit == limits.Of(d, n) || exists k :: 0 <= k < |es| && Concerns(es[k], d, n) && es[k].maxPacket == limit)
    decreases |es|
  {
    if es != [] {
      var most, e := es[..|es| - 1], es[|es| - 1];
      assert forall k :: 0 <= k < |most| ==> most[k] == es[k];
      LargestOf(limits, most, d, n);
      var was, limit := AppliedAll(limits, most).Of(d, n), AppliedAll(limits, es).Of(d, n);
      assert limit == if Concerns(e, d, n) then Max(was, e.maxPacket) else was;
      if Concerns(e, d, n) && limit == e.maxPacket {
        assert es[|es| - 1] == e;
      } else if limit != limits.Of(d, n) {
        var k :| 0 <= k < |most| && Concerns(most[k], d, n) && most[k].maxPacket == limit;
        assert es[k] == most[k];
      }
    }
  }

  lemma {:induction false} AppliedJoin(limits: Limits, a: seq<Endpoint>, b: seq<Endpoint>)
    requires limits.Valid()
    ensures AppliedAll(limits, a + b) == AppliedAll(AppliedAll(limits, a), b)
    decreases |b|
  {
    if b == [] {
      assert a + b == a;
    } else {
      var most, e := b[..|b| - 1], b[|b| - 1];
      assert (a + b)[..|a + b| - 1] == a + most;
      AppliedJoin(limits, a, most);
    }
  }

  lemma LargestSince(limits: Limits, es: seq<Endpoint>, d: Direction, n: nat, last: nat)
    requires limits.Valid() && n < NUMBERS
    requires last < |es| && Number(es[last]) == n && IsControl(es[last])
    requires forall k :: last < k < |es| && Number(es[k]) == n ==> !IsControl(es[k])
    ensures var limit := AppliedAll(limits, es).Of(d, n);
      && (forall k :: last <= k < |es| && Concerns(es[k], d, n) ==> es[k].maxPacket <= limit)
      && exists k :: last <= k < |es| && Concerns(es[k], d, n) && es[k].maxPacket == limit
  {
    var front, back := es[..last + 1], es[last + 1..];
    ControlSets(limits, es, d, n, last);
    assert forall k :: 0 <= k < |back| ==> back[k] == es[last + 1 + k];
    LargestOf(AppliedAll(limits, front), back, d, n);
    var limit := AppliedAll(limits, es).Of(d, n);
    forall k | last <= k < |es| && Concerns(es[k], d, n)
      ensures es[k].maxPacket <= limit
    {
      assert k > last ==> back[k - last - 1] == es[k];
    }
    if limit != es[last].maxPacket {
      var k :| 0 <= k < |back| && Concerns(back[k], d, n) && back[k].maxPacket == limit;
      assert es[last + 1 + k] == back[k];
    }
  }

  /** The arrays after the endpoints of a list, by their address and attribute bytes.  A control endpoint has
      attributes with the two low bits zero; address bit 7 means IN.  Without control endpoints on a number
      its limit is the largest size its endpoints of that direction name: none of them exceeds it, and it is
      one of theirs or what was there before. */
  lemma LimitIsLargest(limits: Limits, es: seq<Endpoint>, n: nat)
    requires limits.Valid() && n < 16
    requires forall k :: 0 <= k < |es| && es[k].address % 16 == n ==> es[k].attributes % 4 != 0
    ensures var was, now := limits.input[n], AppliedAll(limits, es).input[n];
      && was <= now
      && (forall k :: 0 <= k < |es| && es[k].address % 16 == n && es[k].address / 0x80 % 2 == 1 ==>
            es[k].maxPacket <= now)
      && (now == was || exists k :: 0 <= k < |es| && es[k].address % 16 == n && es[k].address / 0x80 % 2 == 1
                                    && es[k].maxPacket == now)
    ensures var was, now := limits.output[n], AppliedAll(limits, es).output[n];
      && was <= now
      && (forall k :: 0 <= k < |es| && es[k].address % 16 == n && es[k].address / 0x80 % 2 == 0 ==>
            es[k].maxPacket <= now)
      && (now == was || exists k :: 0 <= k < |es| && es[k].address % 16 == n && es[k].address / 0x80 % 2 == 0
                                    && es[k].maxPacket == now)
  {
    LargestOf(limits, es, In, n);
    LargestOf(limits, es, Out, n);
  }

  /** With control endpoints the last of them counts, in both directions, and what comes after it: the limit
      is the largest size among those. */
  lemma LimitSinceControl(limits: Limits, es: seq<Endpoint>, n: nat, last: nat)
    requires limits.Valid() && n < 16
    requires last < |es| && es[last].address % 16 == n && es[last].attributes % 4 == 0
    requires forall k :: last < k < |es| && es[k].address % 16 == n ==> es[k].attributes % 4 != 0
    ensures var now := AppliedAll(limits, es).input[n];
      && es[last].maxPacket <= now
      && (forall k :: last < k < |es| && es[k].address % 16 == n && es[k].address / 0x80 % 2 == 1 ==>
            es[k].maxPacket <= now)
      && (now == es[last].maxPacket || exists k :: last < k < |es| && es[k].address % 16 == n
                                                   && es[k].address / 0x80 % 2 == 1 && es[k].maxPacket == now)
    ensures var now := AppliedAll(limits, es).output[n];
      && es[last].maxPacket <= now
      && (forall k :: last < k < |es| && es[k].address % 16 == n && es[k].address / 0x80 % 2 == 0 ==>
            es[k].maxPacket <= now)
      && (now == es[last].maxPacket || exists k :: last < k < |es| && es[k].address % 16 == n
                                                   && es[k].address / 0x80 % 2 == 0 && es[k].maxPacket == now)
  {
    LargestSince(limits, es, In, n, last);
    LargestSince(limits, es, Out, n, last);
    assert Concerns(es[last], In, n) && Concerns(es[last], Out, n);
  }

  /** A control endpoint overrides what was there. */
  lemma ControlSets(limits: Limits, es: seq<Endpoint>, d: Direction, n: nat, last: nat)
    requires limits.Valid() && n < NUMBERS
    requires last < |es| && Number(es[last]) == n && IsControl(es[last])
    ensures AppliedAll(limits, es[..last + 1]).Of(d, n) == es[last].maxPacket
    ensures AppliedAll(limits, es) == AppliedAll(AppliedAll(limits, es[..last + 1]), es[last + 1..])
    ensures Concerns(es[last], d, n)
  {
    var front, back := es[..last + 1], es[last + 1..];
    assert front + back == es;
    AppliedJoin(limits, front, back);
    assert front[..last] == es[..last];
  }

  /** The descriptors announce no more interfaces and endpoints than the arrays have entries. */
  predicate InArrays(slots: seq<Slot>, n: nat)
  {
    n <= |slots| && forall k :: 0 <= k < n ==> slots[k].desc.numEndpoints <= |slots[k].ep|
  }

  /** The entries the two loops visit: of as many interface slots as the configuration announces, as many
      endpoints as the slot's descriptor announces, in use or not. */
  function Visited(slots: seq<Slot>, n: nat): seq<Endpoint>
    requires InArrays(slots, n)
  {
    if n == 0 then [] else Visited(slots, n - 1) + slots[n - 1].ep[..slots[n - 1].desc.numEndpoints]
  }

  /** usb_set_maxpacket.  It reads outside the arrays exactly when the descriptors announce more than they
      hold; the model stops there. */
  method SetMaxPacket(config: Config, limits: Limits) returns (now: Limits, inside: bool)
    requires config.Valid() && limits.Valid()
    ensures now.Valid() && (inside <==> InArrays(config.ifDesc, config.desc.numInterfaces))
    ensures inside ==> now == AppliedAll(limits, Visited(config.ifDesc, config.desc.numInterfaces))
  {
    now, inside := limits, true;
    for i := 0 to config.desc.numInterfaces
      invariant inside && InArrays(config.ifDesc, i) && now == AppliedAll(limits, Visited(config.ifDesc, i))
    {
      if i == MAX_INTERFACES {
        return now, false;
      }
      now, inside := SetInterface(config.ifDesc[i], now);
      if !inside {
        return;
      }
      VisitedNext(config.ifDesc, i, limits);
    }
  }

  lemma VisitedNext(slots: seq<Slot>, i: nat, limits: Limits)
    requires i < |slots| && InArrays(slots, i) && slots[i].desc.numEndpoints <= |slots[i].ep| && limits.Valid()
    ensures InArrays(slots, i + 1)
    ensures AppliedAll(limits, Visited(slots, i + 1))
            == AppliedAll(AppliedAll(limits, Visited(slots, i)), slots[i].ep[..slots[i].desc.numEndpoints])
  {
    AppliedJoin(limits, Visited(slots, i), slots[i].ep[..slots[i].desc.numEndpoints]);
  }

  /** The inner loop. */
  method SetInterface(slot: Slot, limits: Limits) returns (now: Limits, inside: bool)
    requires slot.Valid() && limits.Valid()
    ensures now.Valid() && (inside <==> slot.desc.numEndpoints <= MAX_ENDPOINTS)
    ensures inside ==> now == AppliedAll(limits, slot.ep[..slot.desc.numEndpoints])
  {
    now := limits;
    for ii := 0 to slot.desc.numEndpoints
      invariant ii <= MAX_ENDPOINTS && now == AppliedAll(limits, slot.ep[..ii])
    {
      if ii == MAX_ENDPOINTS {
        return now, false;
      }
      now := SetEndpoint(now, slot.ep[ii]);
      assert slot.ep[..ii + 1][..ii] == slot.ep[..ii];
    }
    inside := true;
  }

  /** Nine bytes that announce nine interfaces and bring none: parsed well, and then read outside. */
  method NinthAnnounced(dev: Config, junk: Bytes, limits: Limits) returns (now: Limits, inside: bool)
    requires dev.Valid() && limits.Valid()
    modifies dev
    ensures !inside
  {
    var d := Description(ConfigDesc(CONFIG_SIZE, 9, 1, 0, 0, 0), [], []);
    assert d.Items() == [] + [];
    var outcome := ParseDescribed(dev, d, junk, 0);
    now, inside := SetMaxPacket(dev, limits);
  }

  /** The endpoints announced, of the interfaces found. */
  function Announced(found: seq<Interface>): seq<Endpoint>
    requires forall k :: 0 <= k < |found| ==> found[k].desc.numEndpoints <= |found[k].endpoints|
  {
    if found == [] then []
    else var last := found[|found| - 1];
         Announced(found[..|found| - 1]) + last.endpoints[..last.desc.numEndpoints]
  }

  /** When no more is announced than was found, the loops visit no stale entry. */
  lemma {:induction false} VisitedFound(slots: seq<Slot>, found: seq<Interface>)
    requires |found| <= |slots|
    requires forall k :: 0 <= k < |found| ==> slots[k].Valid() && found[k] == slots[k].Used()
    requires forall k :: 0 <= k < |found| ==> found[k].desc.numEndpoints <= |found[k].endpoints|
    ensures InArrays(slots, |found|)
    ensures Visited(slots, |found|) == Announced(found)
    decreases |found|
  {
    if found != [] {
      var n := |found| - 1;
      VisitedFound(slots, found[..n]);
      var s := slots[n];
      assert s.ep[..s.noOfEp][..s.desc.numEndpoints] == s.ep[..s.desc.numEndpoints];
    }
  }

  function OwnEndpoints(g: Group): seq<Endpoint>
    requires g.Valid()
  {
    Endpoints(g.settings[0].entries)
  }

  /** Every first setting announces the number of its own endpoints. */
  predicate Honest(groups: seq<Group>)
    requires forall k :: 0 <= k < |groups| ==> groups[k].Valid()
  {
    forall k :: 0 <= k < |groups| ==>
      groups[k].Valid() && Table(groups[k]).desc.numEndpoints == |OwnEndpoints(groups[k])|
  }

  function DefaultEndpoints(groups: seq<Group>): seq<Endpoint>
    requires forall k :: 0 <= k < |groups| ==> groups[k].Valid()
  {
    if groups == [] then []
    else assert groups[|groups| - 1].Valid();
         DefaultEndpoints(groups[..|groups| - 1]) + OwnEndpoints(groups[|groups| - 1])
  }

  /** Although the tables hold the endpoints of all settings, the loops visit exactly those of the default
      settings. */
  lemma {:induction false} AnnouncedAreDefault(groups: seq<Group>)
    requires (forall k :: 0 <= k < |groups| ==> groups[k].Valid()) && Honest(groups)
    ensures forall k :: 0 <= k < |groups| ==> Tables(groups)[k].desc.numEndpoints <= |Tables(groups)[k].endpoints|
    ensures Announced(Tables(groups)) == DefaultEndpoints(groups)
    decreases |groups|
  {
    forall k | 0 <= k < |groups|
      ensures |OwnEndpoints(groups[k])| <= |Table(groups[k]).endpoints|
      ensures Table(groups[k]).endpoints[..|OwnEndpoints(groups[k])|] == OwnEndpoints(groups[k])
    {
      var rest := SettingEndpoints(groups[k].settings[1..]);
      assert Table(groups[k]).endpoints == OwnEndpoints(groups[k]) + rest;
    }
    if groups != [] {
      var most := groups[..|groups| - 1];
      AnnouncedAreDefault(most);
      assert Tables(groups)[..|groups| - 1] == Tables(most);
    }
  }

  /** Parsing and limits together: an honest device gets the packet sizes of its default settings. */
  method LimitsOf(dev: Config, d: Description, junk: Bytes, limits: Limits) returns (now: Limits, inside: bool)
    requires dev.Valid() && limits.Valid() && d.Valid() && Honest(d.groups) && d.value.numInterfaces == |d.groups|
    modifies dev
    ensures inside && now == AppliedAll(limits, DefaultEndpoints(d.groups))
  {
    var outcome := ParseDescribed(dev, d, junk, 0);
    ghost var found := dev.Contents();
    AnnouncedAreDefault(d.groups);
    VisitedFound(dev.ifDesc, found);
    now, inside := SetMaxPacket(dev, limits);
  }
}
