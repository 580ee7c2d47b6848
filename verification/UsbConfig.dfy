/** usb_parse_config of usb.c: filling the nested interface and endpoint tables from the bytes of a
    configuration (sections 9.6.3, 9.6.5 and 9.6.6 of USB 2.0). */
module UsbConfig {
  type Byte = x: int | 0 <= x < 0x100
  type Bytes = seq<Byte>

  const DT_CONFIG := 2
  const DT_INTERFACE := 4
  const DT_ENDPOINT := 5
  const CONFIG_SIZE := 9
  const INTERFACE_SIZE := 9
  const ENDPOINT_SIZE := 7
  const MAX_INTERFACES := 8
  const MAX_ENDPOINTS := 16

  // ---- descriptors and their bytes ----

  datatype ConfigDesc = ConfigDesc(totalLength: nat, numInterfaces: Byte, value: Byte, name: Byte, attributes: Byte,
                                   maxPower: Byte)

  datatype InterfaceDesc = InterfaceDesc(number: Byte, alternate: Byte, numEndpoints: Byte, class_: Byte,
                                         subClass: Byte, protocol: Byte, name: Byte)

  datatype Endpoint = Endpoint(address: Byte, attributes: Byte, maxPacket: nat, interval: Byte)
  {
    predicate Valid() { maxPacket < 0x1_0000 }
  }

  function ConfigBytes(c: ConfigDesc): Bytes
    requires c.totalLength < 0x1_0000
  {
    [CONFIG_SIZE, DT_CONFIG, c.totalLength % 0x100, c.totalLength / 0x100, c.numInterfaces, c.value, c.name,
     c.attributes, c.maxPower]
  }

  function InterfaceBytes(d: InterfaceDesc): Bytes
  {
    [INTERFACE_SIZE, DT_INTERFACE, d.number, d.alternate, d.numEndpoints, d.class_, d.subClass, d.protocol, d.name]
  }

  function EndpointBytes(e: Endpoint): Bytes
    requires e.Valid()
  {
    [ENDPOINT_SIZE, DT_ENDPOINT, e.address, e.attributes, e.maxPacket % 0x100, e.maxPacket / 0x100, e.interval]
  }

  /** The descriptors that follow the configuration's own. */
  datatype Item = OfInterface(desc: InterfaceDesc) | OfEndpoint(ep: Endpoint) | Unknown(bytes: Bytes)
  {
    predicate Valid()
    {
      match this
      case OfInterface(_) => true
      case OfEndpoint(e) => e.Valid()
      case Unknown(b) => |b| >= 2 && b[0] == |b| && b[1] != DT_INTERFACE && b[1] != DT_ENDPOINT
    }

    function Serial(): (b: Bytes)
      requires Valid()
      ensures |b| >= 2
    {
      match this
      case OfInterface(d) => InterfaceBytes(d)
      case OfEndpoint(e) => EndpointBytes(e)
      case Unknown(b) => b
    }
  }

  predicate AllValid(items: seq<Item>) { forall k :: 0 <= k < |items| ==> items[k].Valid() }

  function Serialise(items: seq<Item>): Bytes
    requires AllValid(items)
  {
    Joined(Pieces(items))
  }

  function Pieces(items: seq<Item>): (p: seq<Bytes>)
    requires AllValid(items)
    ensures |p| == |items|
  {
    seq(|items|, k requires 0 <= k < |items| => items[k].Serial())
  }

  function Joined(pieces: seq<Bytes>): Bytes { if pieces == [] then [] else pieces[0] + Joined(pieces[1..]) }

  lemma {:induction false} JoinedTwice(a: seq<Bytes>, b: seq<Bytes>)
    ensures Joined(a + b) == Joined(a) + Joined(b)
    decreases |a|
  {
    if a == [] {
      assert [] + b == b;
    } else {
      assert (a + b)[1..] == a[1..] + b;
      JoinedTwice(a[1..], b);
    }
  }

  lemma SerialJoin(a: seq<Item>, b: seq<Item>)
    requires AllValid(a) && AllValid(b)
    ensures AllValid(a + b) && Serialise(a + b) == Serialise(a) + Serialise(b)
  {
    assert Pieces(a + b) == Pieces(a) + Pieces(b);
    JoinedTwice(Pieces(a), Pieces(b));
  }

  lemma SerialOne(x: Item)
    requires x.Valid()
    ensures AllValid([x]) && Serialise([x]) == x.Serial()
  {
    var p := Pieces([x]);
    assert p[0] == x.Serial() && p[1..] == [];
    assert Joined(p) == p[0] + Joined([]);
  }

  // ---- tables ----

  /** One interface as found: the descriptor of its first setting, how many settings it has (one byte), and
      the endpoints of all of them in order. */
  datatype Interface = Interface(desc: InterfaceDesc, settings: nat, endpoints: seq<Endpoint>)

  /** One descriptor more. */
  function Collected(found: seq<Interface>, x: Item): seq<Interface>
  {
    match x
    case Unknown(_) => found
    case OfInterface(d) =>
      if found != [] && found[|found| - 1].desc.number == d.number
      then found[|found| - 1 := found[|found| - 1].(settings := (found[|found| - 1].settings + 1) % 0x100)]
      else found + [Interface(d, 1, [])]
    case OfEndpoint(e) =>
      if found == [] then []
      else found[|found| - 1 := found[|found| - 1].(endpoints := found[|found| - 1].endpoints + [e])]
  }

  function Collect(found: seq<Interface>, items: seq<Item>): seq<Interface>
    decreases |items|
  {
    if items == [] then found else Collect(Collected(found, items[0]), items[1..])
  }

  // ---- structured configurations ----

  /** An endpoint or a descriptor the parser does not know, such as a class descriptor. */
  datatype Entry = Ep(ep: Endpoint) | Skip(bytes: Bytes)

  datatype Setting = Setting(desc: InterfaceDesc, entries: seq<Entry>)

  /** One interface: its settings, all of one number. */
  datatype Group = Group(settings: seq<Setting>)
  {
    predicate Valid()
    {
      settings != [] && forall k :: 0 <= k < |settings| ==> settings[k].desc.number == settings[0].desc.number
    }

    function Number(): Byte
      requires Valid()
    {
      settings[0].desc.number
    }
  }

  /** Neighbouring interfaces have different numbers. */
  predicate WellFormed(groups: seq<Group>)
  {
    && (forall k :: 0 <= k < |groups| ==> groups[k].Valid())
    && (forall k :: 0 < k < |groups| ==> groups[k].Number() != groups[k - 1].Number())
  }

  function EntryItems(entries: seq<Entry>): seq<Item>
  {
    if entries == [] then []
    else [if entries[0].Ep? then OfEndpoint(entries[0].ep) else Unknown(entries[0].bytes)] + EntryItems(entries[1..])
  }

  function SettingItems(settings: seq<Setting>): seq<Item>
  {
    if settings == [] then []
    else [OfInterface(settings[0].desc)] + EntryItems(settings[0].entries) + SettingItems(settings[1..])
  }

  function GroupItems(groups: seq<Group>): seq<Item>
  {
    if groups == [] then [] else SettingItems(groups[0].settings) + GroupItems(groups[1..])
  }

  function Endpoints(entries: seq<Entry>): seq<Endpoint>
  {
    if entries == [] then [] else (if entries[0].Ep? then [entries[0].ep] else []) + Endpoints(entries[1..])
  }

  function SettingEndpoints(settings: seq<Setting>): seq<Endpoint>
  {
    if settings == [] then [] else Endpoints(settings[0].entries) + SettingEndpoints(settings[1..])
  }

  /** The table a group stands for. */
  function Table(g: Group): Interface
    requires g.Valid()
  {
    Interface(g.settings[0].desc, |g.settings| % 0x100, SettingEndpoints(g.settings))
  }

  lemma {:induction false} CollectJoin(found: seq<Interface>, a: seq<Item>, b: seq<Item>)
    ensures Collect(found, a + b) == Collect(Collect(found, a), b)
    decreases |a|
  {
    if a == [] {
      assert [] + b == b;
    } else {
      assert (a + b)[1..] == a[1..] + b;
      CollectJoin(Collected(found, a[0]), a[1..], b);
    }
  }

  lemma {:induction false} CollectEntries(found: seq<Interface>, last: Interface, entries: seq<Entry>)
    ensures Collect(found + [last], EntryItems(entries))
            == found + [last.(endpoints := last.endpoints + Endpoints(entries))]
    decreases |entries|
  {
    if entries == [] {
      assert last.endpoints + [] == last.endpoints;
    } else {
      var rest := entries[1..];
      if entries[0].Ep? {
        var e := entries[0].ep;
        var next := last.(endpoints := last.endpoints + [e]);
        CollectHead(found + [last], OfEndpoint(e), found + [next], EntryItems(rest));
        CollectEntries(found, next, rest);
        assert last.endpoints + [e] + Endpoints(rest) == last.endpoints + ([e] + Endpoints(rest));
      } else {
        CollectHead(found + [last], Unknown(entries[0].bytes), found + [last], EntryItems(rest));
        CollectEntries(found, last, rest);
        assert [] + Endpoints(rest) == Endpoints(rest);
      }
    }
  }

  lemma CollectHead(found: seq<Interface>, x: Item, next: seq<Interface>, rest: seq<Item>)
    requires Collected(found, x) == next
    ensures Collect(found, [x] + rest) == Collect(next, rest)
  {
    assert ([x] + rest)[1..] == rest;
  }

  /** The interface after some more settings. */
  function Extended(last: Interface, settings: seq<Setting>): Interface
  {
    last.(settings := (last.settings + |settings|) % 0x100,
          endpoints := last.endpoints + SettingEndpoints(settings))
  }

  lemma {:induction false} CollectSettings(found: seq<Interface>, last: Interface, settings: seq<Setting>)
    requires forall k :: 0 <= k < |settings| ==> settings[k].desc.number == last.desc.number
    requires last.settings < 0x100
    ensures Collect(found + [last], SettingItems(settings)) == found + [Extended(last, settings)]
    decreases |settings|
  {
    if settings == [] {
      assert last.endpoints + [] == last.endpoints;
    } else {
      var s, rest := settings[0], settings[1..];
      var next := last.(settings := (last.settings + 1) % 0x100);
      var later := next.(endpoints := next.endpoints + Endpoints(s.entries));
      CollectSetting(found, last, s, SettingItems(rest));
      CollectSettings(found, later, rest);
      ExtendedTwice(last, settings);
    }
  }

  /** One more setting of the last interface. */
  lemma CollectSetting(found: seq<Interface>, last: Interface, s: Setting, rest: seq<Item>)
    requires s.desc.number == last.desc.number
    ensures Collect(found + [last], [OfInterface(s.desc)] + EntryItems(s.entries) + rest)
            == Collect(found + [last.(settings := (last.settings + 1) % 0x100,
                                      endpoints := last.endpoints + Endpoints(s.entries))], rest)
  {
    var next := last.(settings := (last.settings + 1) % 0x100);
    assert Collected(found + [last], OfInterface(s.desc)) == found + [next];
    CollectOne(found + [last], OfInterface(s.desc), found + [next], EntryItems(s.entries), rest);
    CollectEntries(found, next, s.entries);
  }

  lemma CountOn(s: nat, n: nat)
    ensures ((s + 1) % 0x100 + n) % 0x100 == (s + (n + 1)) % 0x100
  {
  }

  lemma ExtendedTwice(last: Interface, settings: seq<Setting>)
    requires settings != []
    ensures var later := last.(settings := (last.settings + 1) % 0x100,
                               endpoints := last.endpoints + Endpoints(settings[0].entries));
      Extended(later, settings[1..]) == Extended(last, settings)
  {
    CountOn(last.settings, |settings| - 1);
    assert (last.endpoints + Endpoints(settings[0].entries)) + SettingEndpoints(settings[1..])
        == last.endpoints + (Endpoints(settings[0].entries) + SettingEndpoints(settings[1..]));
  }

  lemma CollectOne(found: seq<Interface>, x: Item, next: seq<Interface>, a: seq<Item>, b: seq<Item>)
    requires Collected(found, x) == next
    ensures Collect(found, [x] + a + b) == Collect(Collect(next, a), b)
  {
    assert ([x] + a + b)[1..] == a + b;
    CollectJoin(next, a, b);
  }

  /** A new interface and everything up to the next. */
  lemma {:induction false} CollectGroup(found: seq<Interface>, g: Group)
    requires g.Valid() && (found != [] ==> found[|found| - 1].desc.number != g.Number())
    ensures Collect(found, SettingItems(g.settings)) == found + [Table(g)]
  {
    var s, rest := g.settings[0], g.settings[1..];
    var begun := Interface(s.desc, 1, []);
    var later := begun.(endpoints := [] + Endpoints(s.entries));
    assert SettingItems(g.settings) == [OfInterface(s.desc)] + EntryItems(s.entries) + SettingItems(rest);
    CollectOne(found, OfInterface(s.desc), found + [begun], EntryItems(s.entries), SettingItems(rest));
    CollectEntries(found, begun, s.entries);
    CollectSettings(found, later, rest);
    assert later.endpoints + SettingEndpoints(rest) == SettingEndpoints(g.settings);
  }

  function Tables(groups: seq<Group>): seq<Interface>
    requires forall k :: 0 <= k < |groups| ==> groups[k].Valid()
  {
    seq(|groups|, k requires 0 <= k < |groups| => Table(groups[k]))
  }

  lemma WellFormedTail(groups: seq<Group>)
    requires WellFormed(groups) && groups != []
    ensures WellFormed(groups[1..]) && groups[0].Valid()
    ensures |groups| > 1 ==> groups[1..][0].Valid() && Table(groups[0]).desc.number != groups[1..][0].Number()
  {
    assert groups[0].Valid();
    if |groups| > 1 {
      assert groups[1].Valid() && groups[1].Number() != groups[0].Number();
    }
  }

  lemma TablesStep(found: seq<Interface>, groups: seq<Group>)
    requires groups != [] && forall k :: 0 <= k < |groups| ==> groups[k].Valid()
    ensures found + [Table(groups[0])] + Tables(groups[1..]) == found + Tables(groups)
  {
    assert Tables(groups) == [Table(groups[0])] + Tables(groups[1..]);
  }

  /** Collecting the descriptors of a well-formed configuration rebuilds its interfaces, their numbers of
      settings and their endpoints in order; what is unknown leaves no trace. */
  lemma {:induction false} CollectGroups(found: seq<Interface>, groups: seq<Group>)
    requires WellFormed(groups)
    requires found != [] && groups != [] ==> found[|found| - 1].desc.number != groups[0].Number()
    ensures Collect(found, GroupItems(groups)) == found + Tables(groups)
    decreases |groups|
  {
    if groups != [] {
      var g, rest := groups[0], groups[1..];
      WellFormedTail(groups);
      CollectGroup(found, g);
      CollectJoin(found, SettingItems(g.settings), GroupItems(rest));
      CollectGroups(found + [Table(g)], rest);
      TablesStep(found, groups);
    }
  }

  // ---- reading ----

  function Word16(low: Byte, high: Byte): (w: nat)
    ensures w < 0x1_0000
  {
    (low as int) + 0x100 * (high as int)
  }

  function InterfaceAt(b: Bytes, i: nat): InterfaceDesc
    requires i + INTERFACE_SIZE <= |b|
  {
    InterfaceDesc(b[i + 2], b[i + 3], b[i + 4], b[i + 5], b[i + 6], b[i + 7], b[i + 8])
  }

  function EndpointAt(b: Bytes, i: nat): Endpoint
    requires i + ENDPOINT_SIZE <= |b|
  {
    Endpoint(b[i + 2], b[i + 3], Word16(b[i + 4], b[i + 5]), b[i + 6])
  }

  function ConfigAt(b: Bytes): ConfigDesc
    requires CONFIG_SIZE <= |b|
  {
    ConfigDesc(Word16(b[2], b[3]), b[4], b[5], b[6], b[7], b[8])
  }

  /** What stands at a place in the buffer: the end of the parsing (an unknown descriptor of length zero),
      an interface or endpoint descriptor of another length than its structure, or a descriptor. */
  datatype Head = End | Odd | Next(item: Item, length: nat)

  function HeadAt(b: Bytes, i: nat): (h: Head)
    requires i + 1 < |b|
    ensures h.Next? ==> h.length > 0
  {
    var n := b[i];
    if b[i + 1] == DT_INTERFACE then
      if n == INTERFACE_SIZE && i + INTERFACE_SIZE <= |b| then Next(OfInterface(InterfaceAt(b, i)), n) else Odd
    else if b[i + 1] == DT_ENDPOINT then
      if n == ENDPOINT_SIZE && i + ENDPOINT_SIZE <= |b| then Next(OfEndpoint(EndpointAt(b, i)), n) else Odd
    else if n == 0 then End
    else Next(Unknown(b[i..if i + n < |b| then i + n else |b|]), n)
  }

  /** The descriptors from a place on, and whether they are proper to the end: none is odd, and none is
      looked for behind the buffer. */
  datatype Reading = Reading(items: seq<Item>, proper: bool)

  function ReadFrom(b: Bytes, i: nat, total: nat): Reading
    decreases |b| - i
  {
    if i + 1 >= total then Reading([], true)
    else if i + 1 >= |b| then Reading([], false)
    else
      match HeadAt(b, i)
      case End => Reading([], true)
      case Odd => Reading([], false)
      case Next(x, n) => var r := ReadFrom(b, i + n, total); Reading([x] + r.items, r.proper)
  }

  /** How parsing a buffer ends: it is no configuration; the tables are filled; something is written outside
      them; or it comes to a descriptor of odd length or to the end of the buffer, behind which nothing is
      modelled. */
  datatype Outcome = Refused | Filled | Overrun | Malformed

  function OutcomeOf(b: Bytes): Outcome
    requires |b| >= CONFIG_SIZE
  {
    if b[1] != DT_CONFIG then Refused
    else if b[0] != CONFIG_SIZE then Malformed
    else
      var r := Items(b);
      if !Contained(r.items) then Overrun else if r.proper then Filled else Malformed
  }

  /** What a configuration's buffer holds behind the first descriptor. */
  function Items(b: Bytes): Reading
    requires |b| >= CONFIG_SIZE
  {
    ReadFrom(b, CONFIG_SIZE, ConfigAt(b).totalLength)
  }

  /** No endpoint comes before the first interface. */
  predicate Sound(found: seq<Interface>, items: seq<Item>)
    decreases |items|
  {
    items != [] ==> (items[0].OfEndpoint? ==> found != []) && Sound(Collected(found, items[0]), items[1..])
  }

  /** The tables are large enough. */
  predicate Bounded(found: seq<Interface>)
  {
    |found| <= 8 && forall k :: 0 <= k < |found| ==> |found[k].endpoints| <= 16
  }

  /** Collecting only adds. */
  lemma {:induction false} CollectGrows(found: seq<Interface>, items: seq<Item>)
    ensures |found| <= |Collect(found, items)|
    ensures forall k :: 0 <= k < |found| ==> |found[k].endpoints| <= |Collect(found, items)[k].endpoints|
    decreases |items|
  {
    if items != [] {
      CollectGrows(Collected(found, items[0]), items[1..]);
    }
  }

  /** The bytes of the first of several descriptors. */
  lemma FirstBytes(b: Bytes, i: nat, at: nat, items: seq<Item>)
    requires i <= at <= |b| && AllValid(items) && items != [] && b[i..at] == Serialise(items)
    ensures var first := items[0].Serial();
      && i + |first| <= at && (forall k :: 0 <= k < |first| ==> b[i + k] == first[k])
      && b[i + |first|..at] == Serialise(items[1..])
  {
    SerialStep(items);
    FirstPart(b, i, at, items[0].Serial(), Serialise(items[1..]));
  }

  lemma SerialStep(items: seq<Item>)
    requires AllValid(items) && items != []
    ensures Serialise(items) == items[0].Serial() + Serialise(items[1..])
  {
    assert Pieces(items)[1..] == Pieces(items[1..]);
  }

  lemma FirstPart(b: Bytes, i: nat, at: nat, first: Bytes, rest: Bytes)
    requires i <= at <= |b| && b[i..at] == first + rest
    ensures i + |first| <= at && b[i + |first|..at] == rest
    ensures forall k :: 0 <= k < |first| ==> b[i + k] == first[k]
  {
    assert |b[i..at]| == |first| + |rest|;
    assert b[i + |first|..at] == b[i..at][|first|..];
    forall k | 0 <= k < |first|
      ensures b[i + k] == first[k]
    {
      assert b[i..at][k] == first[k];
    }
  }

  /** A descriptor is read back from its bytes. */
  lemma ItemReads(b: Bytes, i: nat, x: Item)
    requires x.Valid() && i + |x.Serial()| <= |b| && forall k :: 0 <= k < |x.Serial()| ==> b[i + k] == x.Serial()[k]
    ensures i + 1 < |b| && HeadAt(b, i) == Next(x, |x.Serial()|)
  {
    var s := x.Serial();
    assert b[i + 0] == s[0] && b[i + 1] == s[1];
    match x
    case OfInterface(d) =>
      assert s == InterfaceBytes(d);
      assert b[i + 2] == s[2] && b[i + 3] == s[3] && b[i + 4] == s[4] && b[i + 5] == s[5];
      assert b[i + 6] == s[6] && b[i + 7] == s[7] && b[i + 8] == s[8];
    case OfEndpoint(e) =>
      assert s == EndpointBytes(e);
      assert b[i + 2] == s[2] && b[i + 3] == s[3] && b[i + 4] == s[4] && b[i + 5] == s[5] && b[i + 6] == s[6];
    case Unknown(bytes) =>
      assert b[i..i + |bytes|] == bytes;
  }

  /** Descriptors one after the other are read back from their bytes, whatever follows. */
  lemma {:induction false} ReadSerial(b: Bytes, i: nat, at: nat, items: seq<Item>)
    requires i <= at <= |b| && AllValid(items) && b[i..at] == Serialise(items)
    ensures ReadFrom(b, i, at) == Reading(items, true)
    decreases |items|
  {
    if items != [] {
      var n := FirstRead(b, i, at, items);
      ReadSerial(b, i + n, at, items[1..]);
      ReadOn(b, i, at, items[0], n, items[1..]);
      assert [items[0]] + items[1..] == items;
    }
  }

  lemma ReadOn(b: Bytes, i: nat, total: nat, x: Item, n: nat, rest: seq<Item>)
    requires i + 1 < total && i + 1 < |b| && HeadAt(b, i) == Next(x, n)
    requires ReadFrom(b, i + n, total) == Reading(rest, true)
    ensures ReadFrom(b, i, total) == Reading([x] + rest, true)
  {
    ReadStep(b, i, total, x, n);
  }

  /** The first of several descriptors. */
  lemma FirstRead(b: Bytes, i: nat, at: nat, items: seq<Item>) returns (n: nat)
    requires i <= at <= |b| && AllValid(items) && items != [] && b[i..at] == Serialise(items)
    ensures 2 <= n && i + n <= at && HeadAt(b, i) == Next(items[0], n) && b[i + n..at] == Serialise(items[1..])
  {
    n := |items[0].Serial()|;
    FirstBytes(b, i, at, items);
    ItemReads(b, i, items[0]);
  }

  lemma ReadStep(b: Bytes, i: nat, total: nat, x: Item, n: nat)
    requires i + 1 < total && i + 1 < |b| && HeadAt(b, i) == Next(x, n)
    ensures n > 0
    ensures ReadFrom(b, i, total) == Reading([x] + ReadFrom(b, i + n, total).items, ReadFrom(b, i + n, total).proper)
  {
  }

  // ---- the tables in the device record ----

  /** An entry of if_desc: fixed storage and how much of it is in use. */
  datatype Slot = Slot(desc: InterfaceDesc, noOfEp: nat, numSettings: nat, ep: seq<Endpoint>)
  {
    predicate Valid() { |ep| == MAX_ENDPOINTS && noOfEp <= MAX_ENDPOINTS }

    function Used(): Interface
      requires Valid()
    {
      Interface(desc, numSettings, ep[..noOfEp])
    }
  }

  /** usb_is_hub on an interface table entry; the first endpoint slot exists whether or not it is used. */
  predicate IsHub(slot: Slot)
    requires slot.Valid()
  {
    && slot.desc.class_ == 9
    && (slot.desc.subClass == 0 || slot.desc.subClass == 1)
    && slot.desc.numEndpoints == 1
    && slot.ep[0].address / 0x80 % 2 == 1
    && slot.ep[0].attributes % 4 == 3
  }

  class Config {
    var configno: int
    var desc: ConfigDesc
    var noOfIf: nat
    var ifDesc: seq<Slot>

    ghost predicate Valid()
      reads this
    {
      && |ifDesc| == MAX_INTERFACES && noOfIf <= MAX_INTERFACES
      && forall k :: 0 <= k < MAX_INTERFACES ==> ifDesc[k].Valid()
    }

    ghost function Contents(): (s: seq<Interface>)
      requires Valid()
      reads this
      ensures |s| == noOfIf && forall k :: 0 <= k < noOfIf ==> s[k] == ifDesc[k].Used()
    {
      seq(noOfIf, k requires 0 <= k < noOfIf reads this requires Valid() => ifDesc[k].Used())
    }

    /** Empty tables, as in a cleared device record. */
    constructor ()
      ensures Valid() && noOfIf == 0 && configno == 0 && desc == ConfigDesc(0, 0, 0, 0, 0, 0)
    {
      var none := Endpoint(0, 0, 0, 0);
      var slot := Slot(InterfaceDesc(0, 0, 0, 0, 0, 0, 0), 0, 0, seq(MAX_ENDPOINTS, k => none));
      configno, noOfIf, desc := 0, 0, ConfigDesc(0, 0, 0, 0, 0, 0);
      ifDesc := seq(MAX_INTERFACES, k => slot);
    }

    /** An interface descriptor: a new interface, or one more setting of the current one.  A ninth interface
        would be written behind the table. */
    method TakeInterface(d: InterfaceDesc, ifno0: int, currIfNum0: int)
      returns (inside: bool, ifno: int, currIfNum: int)
      requires Valid() && Current(ifno0, currIfNum0)
      modifies this`noOfIf, this`ifDesc
      ensures inside <==> Bounded(Collected(old(Contents()), OfInterface(d)))
      ensures inside ==> Valid() && Current(ifno, currIfNum)
      ensures inside ==> Contents() == Collected(old(Contents()), OfInterface(d))
    {
      ghost var found := Contents();
      inside, ifno, currIfNum := true, ifno0, currIfNum0;
      if d.number != currIfNum {
        assert Collected(found, OfInterface(d)) == found + [Interface(d, 1, [])];
        ifno := noOfIf;
        if ifno == MAX_INTERFACES {
          inside := false;
          return;
        }
        noOfIf := noOfIf + 1;
        ifDesc := ifDesc[ifno := ifDesc[ifno].(desc := d, noOfEp := 0, numSettings := 1)];
        currIfNum := ifDesc[ifno].desc.number;
        assert Contents() == found + [Interface(d, 1, [])];
      } else {
        var slot := ifDesc[ifno];
        ifDesc := ifDesc[ifno := slot.(numSettings := (slot.numSettings + 1) % 0x100)];
        assert Contents() == Collected(found, OfInterface(d));
      }
    }

    /** An endpoint descriptor goes to the current interface.  With no interface yet, or sixteen endpoints
        already, it would be written outside the table. */
    method TakeEndpoint(e: Endpoint, ifno: int) returns (inside: bool)
      requires Valid() && ifno == noOfIf - 1
      modifies this`ifDesc
      ensures inside <==> noOfIf > 0 && Bounded(Collected(old(Contents()), OfEndpoint(e)))
      ensures inside ==> Valid() && ifDesc[ifno].desc == old(ifDesc)[ifno].desc
      ensures inside ==> Contents() == Collected(old(Contents()), OfEndpoint(e))
    {
      ghost var found := Contents();
      if ifno < 0 {
        return false;
      }
      var slot := ifDesc[ifno];
      var epno := slot.noOfEp;
      assert |Collected(found, OfEndpoint(e))[ifno].endpoints| == epno + 1;
      if epno == MAX_ENDPOINTS {
        return false;
      }
      ifDesc := ifDesc[ifno := slot.(noOfEp := epno + 1, ep := slot.ep[epno := e])];
      assert slot.ep[epno := e][..epno + 1] == slot.ep[..epno] + [e];
      assert Contents() == Collected(found, OfEndpoint(e));
      inside := true;
    }

    /** The parser's own account of where it is. */
    ghost predicate Current(ifno: int, currIfNum: int)
      requires Valid()
      reads this
    {
      ifno == noOfIf - 1 && currIfNum == if noOfIf == 0 then -1 else ifDesc[noOfIf - 1].desc.number
    }

    /** usb_parse_config, on any buffer: it refuses one that starts with another descriptor, and otherwise
        fills the tables with what the descriptors say, unless it writes outside them.  That happens exactly
        when an endpoint comes before the first interface or the descriptors are more than the tables hold. */
    method Parse(buffer: Bytes, cfgno: int) returns (outcome: Outcome)
      requires Valid() && |buffer| >= CONFIG_SIZE
      modifies this
      ensures configno == cfgno && outcome == OutcomeOf(buffer)
      ensures outcome == Refused ==> Valid() && desc == old(desc) && noOfIf == old(noOfIf) && ifDesc == old(ifDesc)
      ensures outcome == Filled ==> Valid() && desc == ConfigAt(buffer)
      ensures outcome == Filled ==> Contents() == Collect([], Items(buffer).items)
    {
      configno := cfgno;
      if buffer[1] != DT_CONFIG {
        return Refused;
      }
      if buffer[0] != CONFIG_SIZE {
        return Malformed;
      }
      desc := ConfigAt(buffer);
      noOfIf := 0;
      assert Contents() == [];
      outcome := ParseItems(buffer, Items(buffer));
    }

    /** The parser's loop. */
    method ParseItems(buffer: Bytes, ghost all: Reading) returns (outcome: Outcome)
      requires Valid() && noOfIf == 0
      requires Ahead(Contents(), ReadFrom(buffer, CONFIG_SIZE, desc.totalLength), all)
      modifies this`noOfIf, this`ifDesc
      ensures outcome == if !Contained(all.items) then Overrun else if all.proper then Filled else Malformed
      ensures outcome == Filled ==> Valid() && Contents() == Collect([], all.items)
    {
      var index: nat, ifno, currIfNum := CONFIG_SIZE, -1, -1;
      while index + 1 < desc.totalLength
        invariant Valid() && Current(ifno, currIfNum)
        invariant Ahead(Contents(), ReadFrom(buffer, index, desc.totalLength), all)
        decreases |buffer| - index
      {
        if index + 1 >= |buffer| {
          AheadEnds(Contents(), ReadFrom(buffer, index, desc.totalLength), all);
          return Malformed;
        }
        var step;
        step, ifno, currIfNum := Turn(buffer, index, ifno, currIfNum, all);
        match step
        case Finished => return Filled;
        case Bad => return Malformed;
        case Over => return Overrun;
        case More => index := index + buffer[index];
      }
      AheadEnds(Contents(), ReadFrom(buffer, index, desc.totalLength), all);
      outcome := Filled;
    }

    /** One turn of the parser's loop, with what it means for the whole. */
    method Turn(buffer: Bytes, index: nat, ifno0: int, currIfNum0: int, ghost all: Reading)
      returns (step: Step, ifno: int, currIfNum: int)
      requires Valid() && Current(ifno0, currIfNum0) && index + 1 < |buffer| && index + 1 < desc.totalLength
      requires Ahead(Contents(), ReadFrom(buffer, index, desc.totalLength), all)
      modifies this`noOfIf, this`ifDesc
      ensures step == Finished ==> Valid() && Contained(all.items) && Contents() == Collect([], all.items) && all.proper
      ensures step == Bad ==> Contained(all.items) && !all.proper
      ensures step == Over ==> !Contained(all.items)
      ensures step == More ==> Valid() && Current(ifno, currIfNum) && buffer[index] > 0
      ensures step == More ==> Ahead(Contents(), ReadFrom(buffer, index + buffer[index], desc.totalLength), all)
    {
      AheadTurn(buffer, index, desc.totalLength, Contents(), all);
      step, ifno, currIfNum := TakeItem(buffer, index, ifno0, currIfNum0);
    }

    /** The switch on the descriptor's type. */
    method TakeItem(buffer: Bytes, index: nat, ifno0: int, currIfNum0: int)
      returns (step: Step, ifno: int, currIfNum: int)
      requires Valid() && Current(ifno0, currIfNum0) && index + 1 < |buffer|
      modifies this`noOfIf, this`ifDesc
      ensures var h := HeadAt(buffer, index);
        && (step == Finished <==> h.End?) && (step == Bad <==> h.Odd?)
        && (h.Next? ==> (step == More <==> Fits(old(Contents()), h.item)))
        && (step == More ==> h.Next? && Valid() && Current(ifno, currIfNum)
                             && Contents() == Collected(old(Contents()), h.item))
        && (step == Finished || step == Bad ==> Valid() && Contents() == old(Contents()))
    {
      step, ifno, currIfNum := More, ifno0, currIfNum0;
      var length, inside := buffer[index], true;
      if buffer[index + 1] == DT_INTERFACE {
        if length != INTERFACE_SIZE || index + INTERFACE_SIZE > |buffer| {
          return Bad, ifno, currIfNum;
        }
        inside, ifno, currIfNum := TakeInterface(InterfaceAt(buffer, index), ifno, currIfNum);
      } else if buffer[index + 1] == DT_ENDPOINT {
        if length != ENDPOINT_SIZE || index + ENDPOINT_SIZE > |buffer| {
          return Bad, ifno, currIfNum;
        }
        inside := TakeEndpoint(EndpointAt(buffer, index), ifno);
      } else if length == 0 {
        return Finished, ifno, currIfNum;
      }
      step := if inside then More else Over;
    }
  }

  /** How one turn of the loop goes. */
  datatype Step = More | Finished | Over | Bad

  /** No endpoint comes before the first interface, and the tables hold everything. */
  predicate Contained(items: seq<Item>) { Sound([], items) && Bounded(Collect([], items)) }

  /** One descriptor more still goes into the tables. */
  predicate Fits(found: seq<Interface>, x: Item)
  {
    (x.OfEndpoint? ==> found != []) && Bounded(Collected(found, x))
  }

  /** What is found so far and what is still ahead make up the whole. */
  predicate Ahead(found: seq<Interface>, rest: Reading, all: Reading)
  {
    && Bounded(found) && rest.proper == all.proper
    && Sound(found, rest.items) == Sound([], all.items) && Collect(found, rest.items) == Collect([], all.items)
  }

  /** One turn, by what stands at the index. */
  lemma AheadTurn(b: Bytes, i: nat, total: nat, found: seq<Interface>, all: Reading)
    requires i + 1 < total && i + 1 < |b| && Ahead(found, ReadFrom(b, i, total), all)
    ensures var h := HeadAt(b, i);
      && (h.End? ==> Contained(all.items) && found == Collect([], all.items) && all.proper)
      && (h.Odd? ==> Contained(all.items) && !all.proper)
      && (h.Next? && Fits(found, h.item) ==> Ahead(Collected(found, h.item), ReadFrom(b, i + b[i], total), all))
      && (h.Next? && !Fits(found, h.item) ==> !Contained(all.items))
      && (h.Next? ==> b[i] > 0)
  {
    var rest := ReadFrom(b, i, total);
    match HeadAt(b, i)
    case End => AheadEnds(found, rest, all);
    case Odd => AheadEnds(found, rest, all);
    case Next(x, n) =>
      ReadStep(b, i, total, x, n);
      assert rest.items[1..] == ReadFrom(b, i + n, total).items;
      AheadNext(found, x, rest, ReadFrom(b, i + n, total), all);
  }

  lemma AheadNext(found: seq<Interface>, x: Item, rest: Reading, more: Reading, all: Reading)
    requires Ahead(found, rest, all) && rest.items != [] && rest.items[0] == x
    requires rest.items[1..] == more.items && rest.proper == more.proper
    ensures if Fits(found, x) then Ahead(Collected(found, x), more, all) else !Contained(all.items)
  {
    if Fits(found, x) {
      AheadMore(found, rest, all);
    } else {
      AheadOver(found, rest, all);
    }
  }

  lemma AheadEnds(found: seq<Interface>, rest: Reading, all: Reading)
    requires Ahead(found, rest, all) && rest.items == []
    ensures Contained(all.items) && found == Collect([], all.items)
  {
  }

  lemma AheadOver(found: seq<Interface>, rest: Reading, all: Reading)
    requires Ahead(found, rest, all) && rest.items != [] && !Fits(found, rest.items[0])
    ensures !Contained(all.items)
  {
    CollectGrows(Collected(found, rest.items[0]), rest.items[1..]);
  }

  lemma AheadMore(found: seq<Interface>, rest: Reading, all: Reading)
    requires Ahead(found, rest, all) && rest.items != [] && Fits(found, rest.items[0])
    ensures Ahead(Collected(found, rest.items[0]), Reading(rest.items[1..], rest.proper), all)
  {
  }

  // ---- parsing undoes serialising ----

  /** A configuration as a device describes itself: what stands before the first interface is unknown to
      the parser. */
  datatype Description = Description(value: ConfigDesc, before: seq<Bytes>, groups: seq<Group>)
  {
    function Items(): seq<Item> { EntryItems(Skips(before)) + GroupItems(groups) }

    /** Numbers differ between neighbours, descriptors have proper bytes, they tile the total length, and
        the fixed tables hold them. */
    predicate Valid()
    {
      && WellFormed(groups) && AllValid(Items())
      && value.totalLength == CONFIG_SIZE + |Serialise(Items())| < 0x1_0000
      && Bounded(Tables(groups))
    }

    function Serial(): Bytes
      requires Valid()
    {
      ConfigBytes(value) + Serialise(Items())
    }
  }

  function Skips(before: seq<Bytes>): seq<Entry>
  {
    if before == [] then [] else [Skip(before[0])] + Skips(before[1..])
  }

  lemma {:induction false} CollectSkips(before: seq<Bytes>, rest: seq<Item>)
    ensures Collect([], EntryItems(Skips(before)) + rest) == Collect([], rest)
    ensures Sound([], EntryItems(Skips(before)) + rest) == Sound([], rest)
    decreases |before|
  {
    if before == [] {
      assert [] + rest == rest;
    } else {
      var tail := EntryItems(Skips(before[1..])) + rest;
      assert Skips(before)[1..] == Skips(before[1..]);
      assert EntryItems(Skips(before)) + rest == [Unknown(before[0])] + tail;
      CollectHead([], Unknown(before[0]), [], tail);
      assert ([Unknown(before[0])] + tail)[1..] == tail;
      CollectSkips(before[1..], rest);
    }
  }

  lemma {:induction false} SoundLater(found: seq<Interface>, items: seq<Item>)
    requires found != []
    ensures Sound(found, items)
    decreases |items|
  {
    if items != [] {
      SoundLater(Collected(found, items[0]), items[1..]);
    }
  }

  /** Every described configuration is laid out in its own bytes, followed by anything, and parsing those
      bytes collects exactly its interfaces. */
  lemma DescriptionParses(d: Description, junk: Bytes)
    requires d.Valid()
    ensures var b := d.Serial() + junk;
      |b| >= CONFIG_SIZE && ConfigAt(b) == d.value && Items(b) == Reading(d.Items(), true) && OutcomeOf(b) == Filled
    ensures Contained(d.Items()) && Collect([], d.Items()) == Tables(d.groups)
  {
    var b := d.Serial() + junk;
    assert b[..CONFIG_SIZE] == ConfigBytes(d.value);
    HeaderReads(b, d.value);
    assert b[CONFIG_SIZE..d.value.totalLength] == Serialise(d.Items());
    ReadSerial(b, CONFIG_SIZE, d.value.totalLength, d.Items());
    CollectSkips(d.before, GroupItems(d.groups));
    CollectGroups([], d.groups);
    if d.groups != [] {
      var g := GroupItems(d.groups);
      SoundLater(Collected([], g[0]), g[1..]);
    }
  }

  lemma HeaderReads(b: Bytes, c: ConfigDesc)
    requires c.totalLength < 0x1_0000 && CONFIG_SIZE <= |b| && b[..CONFIG_SIZE] == ConfigBytes(c)
    ensures b[0] == CONFIG_SIZE && b[1] == DT_CONFIG && ConfigAt(b) == c
  {
    var h := b[..CONFIG_SIZE];
    assert h[0] == b[0] && h[1] == b[1] && h[2] == b[2] && h[3] == b[3] && h[4] == b[4] && h[5] == b[5];
    assert h[6] == b[6] && h[7] == b[7] && h[8] == b[8];
  }

  /** The round trip: usb_parse_config on the bytes of a description rebuilds it. */
  method ParseDescribed(dev: Config, d: Description, junk: Bytes, cfgno: int) returns (outcome: Outcome)
    requires dev.Valid() && d.Valid()
    modifies dev
    ensures dev.Valid() && outcome == Filled && dev.desc == d.value && dev.Contents() == Tables(d.groups)
  {
    DescriptionParses(d, junk);
    outcome := dev.Parse(d.Serial() + junk, cfgno);
  }

  // ---- what the tables do not hold ----

  function Numbered(n: nat): seq<Item>
    requires n <= 0x100
  {
    if n == 0 then [] else Numbered(n - 1) + [OfInterface(InterfaceDesc(n - 1, 0, 0, 0, 0, 0, 0))]
  }

  lemma {:induction false} NumberedCollects(n: nat)
    requires n <= 0x100
    ensures |Numbered(n)| == n && AllValid(Numbered(n)) && |Serialise(Numbered(n))| == INTERFACE_SIZE * n
    ensures |Collect([], Numbered(n))| == n
    ensures n > 0 ==> Collect([], Numbered(n))[n - 1].desc.number == n - 1
    ensures n > 0 ==> Collect([], Numbered(n))[n - 1].endpoints == []
  {
    if n > 0 {
      NumberedCollects(n - 1);
      var x := OfInterface(InterfaceDesc(n - 1, 0, 0, 0, 0, 0, 0));
      CollectJoin([], Numbered(n - 1), [x]);
      SerialJoin(Numbered(n - 1), [x]);
      SerialOne(x);
    }
  }

  function Repeated(e: Endpoint, n: nat): seq<Entry> { if n == 0 then [] else [Ep(e)] + Repeated(e, n - 1) }

  lemma {:induction false} RepeatedItems(e: Endpoint, n: nat)
    requires e.Valid()
    ensures AllValid(EntryItems(Repeated(e, n))) && |Serialise(EntryItems(Repeated(e, n)))| == ENDPOINT_SIZE * n
    ensures |Endpoints(Repeated(e, n))| == n
  {
    if n > 0 {
      RepeatedItems(e, n - 1);
      var rest := EntryItems(Repeated(e, n - 1));
      assert EntryItems(Repeated(e, n)) == [OfEndpoint(e)] + rest;
      SerialJoin([OfEndpoint(e)], rest);
      SerialOne(OfEndpoint(e));
    }
  }

  /** Nine interfaces, five endpoints in the ninth. */
  function NineItems(e: Endpoint): seq<Item> { Numbered(9) + EntryItems(Repeated(e, 5)) }

  /** They take 125 bytes, and the table does not hold them. */
  lemma NineInterfaces(e: Endpoint)
    requires e.Valid()
    ensures AllValid(NineItems(e)) && CONFIG_SIZE + |Serialise(NineItems(e))| == 125
    ensures |Collect([], NineItems(e))| == 9 && |Collect([], NineItems(e))[8].endpoints| == 5
    ensures !Contained(NineItems(e))
  {
    var entries := Repeated(e, 5);
    NumberedCollects(9);
    RepeatedItems(e, 5);
    SerialJoin(Numbered(9), EntryItems(entries));
    CollectJoin([], Numbered(9), EntryItems(entries));
    var found := Collect([], Numbered(9));
    assert found == found[..8] + [found[8]];
    CollectEntries(found[..8], found[8], entries);
  }

  /** A buffer of 512 bytes that holds them. */
  function NineBuffer(e: Endpoint): (b: Bytes)
    requires e.Valid()
    ensures |b| == 512
  {
    NineInterfaces(e);
    ConfigBytes(ConfigDesc(125, 9, 1, 0, 0, 0)) + Serialise(NineItems(e)) + seq(387, k => 0)
  }

  lemma NineRead(e: Endpoint)
    requires e.Valid()
    ensures OutcomeOf(NineBuffer(e)) == Overrun
  {
    NineInterfaces(e);
    var b, c := NineBuffer(e), ConfigDesc(125, 9, 1, 0, 0, 0);
    assert b[..CONFIG_SIZE] == ConfigBytes(c);
    HeaderReads(b, c);
    assert b[CONFIG_SIZE..125] == Serialise(NineItems(e));
    ReadSerial(b, CONFIG_SIZE, 125, NineItems(e));
  }

  /** usb_parse_config on that buffer: the ninth interface and its endpoints are written behind the table. */
  method NineOverrun(dev: Config, e: Endpoint) returns (outcome: Outcome)
    requires dev.Valid() && e.Valid()
    modifies dev
    ensures outcome == Overrun
  {
    NineRead(e);
    outcome := dev.Parse(NineBuffer(e), 0);
  }

  /** A total length of zero, or any up to ten, is harmless: nothing is stored. */
  lemma ShortTotal(b: Bytes)
    requires |b| >= CONFIG_SIZE && b[0] == CONFIG_SIZE && b[1] == DT_CONFIG
    requires ConfigAt(b).totalLength <= CONFIG_SIZE + 1
    ensures OutcomeOf(b) == Filled && Items(b).items == []
  {
  }
}
