/** The two ends of enumeration meet: the configuration the virtual hub of ehci-hcd.c hands out, read by
    the parser and the hub test of usb.c. */
module RootDescriptor {
  import opened UsbConfig
  import opened MaxPacket
  import opened HubDescriptor
  import opened Bits
  import RootHub

  const ROOT_ENDPOINT := Endpoint(0x81, 3, 8, 255)
  const ROOT_INTERFACE := InterfaceDesc(0, 0, 1, 9, 0, 0, 0)
  const ROOT_GROUP := Group([Setting(ROOT_INTERFACE, [Ep(ROOT_ENDPOINT)])])

  /** What the root hub describes itself as. */
  function RootDescription(): Description
  {
    Description(ConfigDesc(0x19, 1, 1, 0, 0x40, 0), [], [ROOT_GROUP])
  }

  lemma RootItems()
    ensures RootDescription().Items() == [OfInterface(ROOT_INTERFACE), OfEndpoint(ROOT_ENDPOINT)]
    ensures Tables(RootDescription().groups) == [Interface(ROOT_INTERFACE, 1, [ROOT_ENDPOINT])]
  {
    var entries := [Ep(ROOT_ENDPOINT)];
    assert entries[1..] == [];
    assert EntryItems(entries) == [OfEndpoint(ROOT_ENDPOINT)] && Endpoints(entries) == [ROOT_ENDPOINT];
    var settings := ROOT_GROUP.settings;
    assert settings[1..] == [];
    assert SettingItems(settings) == [OfInterface(ROOT_INTERFACE), OfEndpoint(ROOT_ENDPOINT)];
    assert SettingEndpoints(settings) == [ROOT_ENDPOINT];
    assert [ROOT_GROUP][1..] == [];
    assert GroupItems([ROOT_GROUP]) == SettingItems(settings);
    assert Skips([]) == [] && EntryItems([]) == [];
  }

  lemma RootSerial(items: seq<Item>)
    requires items == [OfInterface(ROOT_INTERFACE), OfEndpoint(ROOT_ENDPOINT)]
    ensures AllValid(items)
    ensures Serialise(items) == InterfaceBytes(ROOT_INTERFACE) + EndpointBytes(ROOT_ENDPOINT)
  {
    var interface_, endpoint := OfInterface(ROOT_INTERFACE), OfEndpoint(ROOT_ENDPOINT);
    assert items == [interface_] + [endpoint];
    SerialOne(interface_);
    SerialOne(endpoint);
    SerialJoin([interface_], [endpoint]);
  }

  /** The 25 bytes are the serialised description. */
  lemma RootBytes()
    ensures RootDescription().Valid() && RootDescription().Serial() == RootHub.CONFIG_BYTES
  {
    RootItems();
    RootSerial(RootDescription().Items());
  }

  /** So parsing what the hub answers makes the first interface a hub: the root scan cannot fail there. */
  method ParseRoot(dev: Config, junk: Bytes) returns (outcome: Outcome)
    requires dev.Valid()
    modifies dev
    ensures dev.Valid() && outcome == Filled && dev.noOfIf == 1 && IsHub(dev.ifDesc[0])
    ensures dev.desc.numInterfaces == 1
  {
    RootFills(junk);
    outcome := dev.Parse(RootHub.CONFIG_BYTES + junk, 0);
    RootFirst(dev.Contents(), dev.ifDesc[0]);
  }

  lemma RootFills(junk: Bytes)
    ensures OutcomeOf(RootHub.CONFIG_BYTES + junk) == Filled
    ensures ConfigAt(RootHub.CONFIG_BYTES + junk) == RootDescription().value
    ensures Collect([], Items(RootHub.CONFIG_BYTES + junk).items) == [Interface(ROOT_INTERFACE, 1, [ROOT_ENDPOINT])]
  {
    RootBytes();
    RootItems();
    DescriptionParses(RootDescription(), junk);
  }

  lemma RootFirst(found: seq<Interface>, slot: Slot)
    requires slot.Valid() && found == [Interface(ROOT_INTERFACE, 1, [ROOT_ENDPOINT])] && found[0] == slot.Used()
    ensures IsHub(slot)
  {
    assert slot.ep[..slot.noOfEp][0] == ROOT_ENDPOINT;
  }

  const NO_LIMITS := Limits(seq(16, _ => 0), seq(16, _ => 0))

  /** The hub's only endpoint is number 1, IN, with packets of eight bytes: of all the limits of a cleared
      record that one alone is set. */
  method RootLimits(dev: Config, junk: Bytes) returns (now: Limits, inside: bool)
    requires dev.Valid()
    modifies dev
    ensures inside && now.Valid() && now.input[1] == 8
    ensures forall n :: 0 <= n < 16 ==> now.output[n] == 0 && (n != 1 ==> now.input[n] == 0)
  {
    RootFills(junk);
    var outcome := dev.Parse(RootHub.CONFIG_BYTES + junk, 0);
    RootVisited(dev.ifDesc, dev.Contents());
    now, inside := SetMaxPacket(dev, NO_LIMITS);
    RootApplied();
  }

  lemma {:induction false} RootVisited(slots: seq<Slot>, found: seq<Interface>)
    requires |slots| >= 1 && slots[0].Valid()
    requires found == [Interface(ROOT_INTERFACE, 1, [ROOT_ENDPOINT])] && found[0] == slots[0].Used()
    ensures InArrays(slots, 1) && Visited(slots, 1) == [ROOT_ENDPOINT]
  {
    VisitedFound(slots, found);
    assert found[..0] == [] && Announced([]) == [];
    assert [ROOT_ENDPOINT][..1] == [ROOT_ENDPOINT];
  }

  lemma RootApplied()
    ensures var now := AppliedAll(NO_LIMITS, [ROOT_ENDPOINT]);
      && now.input[1] == 8 && forall n :: 0 <= n < 16 ==> now.output[n] == 0 && (n != 1 ==> now.input[n] == 0)
  {
    assert [ROOT_ENDPOINT][..0] == [];
    assert AppliedAll(NO_LIMITS, []) == NO_LIMITS;
  }

  /** The hub descriptor the virtual hub hands out, read by usb_hub_init: eight bytes of type 0x29 with the
      number of ports and the characteristics, which fit for up to 31 ports. */
  method RootRecord(b: Bytes, was: Bytes, ports: nat, characteristics: nat) returns (record: Bytes, inside: bool)
    requires |b| == 512 && |was| == 11 && ports < 0x100 && characteristics < 0x1_0000
    requires RootHub.Begins(RootHub.HubBytes(ports, characteristics), b)
    ensures |record| == 11 && (inside <==> ports <= 31) && b[2] == ports
    ensures inside ==>
      && record[0] == 8 && record[1] == 0x29 && record[2] == ports
      && record[3] as int + 0x100 * record[4] as int == characteristics
  {
    RootHubRead(b, ports, characteristics);
    FitsInNumbers(b, was);
    record, inside := TakeHubDescriptor(b, was);
  }

  lemma RootHubRead(b: Bytes, ports: nat, characteristics: nat)
    requires |b| == 512 && ports < 0x100 && characteristics < 0x1_0000
    requires RootHub.Begins(RootHub.HubBytes(ports, characteristics), b)
    ensures b[0] == 8 && b[1] == 0x29 && b[2] == ports && b[3] as int + 0x100 * b[4] as int == characteristics
  {
    DivModUnique(characteristics, 0x100, characteristics / 0x100, characteristics % 0x100);
    SmallDiv(characteristics / 0x100, 0x100);
  }
}
