/** The hub descriptor in the device record: what usb_hub_init of usb.c stores, and whether it stays inside
    the record (section 11.23.2.1 of USB 2.0). */
module HubDescriptor {
  import opened UsbConfig

  const HUB_RECORD := 11 // sizeof(struct usb_hub_descriptor)
  const HUB_BITMAPS := 7
  const BUFFER_SIZE := 512

  /** (bNbrPorts + 1 + 7) / 8 */
  function BitmapBytes(ports: nat): nat { (ports + 8) / 8 }

  /** bNbrPorts of the record after the copy: a descriptor of fewer than three bytes leaves it alone. */
  function PortsOf(b: Bytes, was: Bytes): Byte
    requires |b| == BUFFER_SIZE && |was| == HUB_RECORD
  {
    if b[0] >= 3 then b[2] else was[2]
  }

  /** A descriptor no longer than the record, whose ports need no more bitmap bytes than lie there. */
  predicate HubFits(b: Bytes, was: Bytes)
    requires |b| == BUFFER_SIZE && |was| == HUB_RECORD
  {
    b[0] <= HUB_RECORD && BitmapBytes(PortsOf(b, was)) <= HUB_RECORD - HUB_BITMAPS
  }

  /** Copying the hub descriptor and its bitmaps over the record; both loops fill DeviceRemovable, running on
      into the mask behind it when there are many ports.  Something is written behind the record exactly when
      the descriptor does not fit; the model stops there. */
  method TakeHubDescriptor(b: Bytes, was: Bytes) returns (record: Bytes, inside: bool)
    requires |b| == BUFFER_SIZE && |was| == HUB_RECORD
    ensures |record| == 11 && (inside <==> HubFits(b, was))
    ensures inside ==> forall k :: 0 <= k < HUB_BITMAPS ==>
      record[k] == if k < b[0] || k == 3 || k == 4 then b[k] else was[k]
    ensures inside ==> forall k :: HUB_BITMAPS <= k < HUB_BITMAPS + BitmapBytes(PortsOf(b, was)) ==>
      record[k] == b[k + 2]
  {
    record := was;
    if b[0] > HUB_RECORD {
      return record, false;
    }
    record := CopyFront(b, was);
    record, inside := CopyBitmap(record, b, HUB_BITMAPS);
    if inside {
      record, inside := CopyBitmap(record, b, HUB_BITMAPS + 2);
    }
  }

  /** The memcpy, the characteristics, and the two memsets. */
  method CopyFront(b: Bytes, was: Bytes) returns (record: Bytes)
    requires |b| == BUFFER_SIZE && |was| == HUB_RECORD && b[0] <= HUB_RECORD
    ensures |record| == HUB_RECORD && record[2] == PortsOf(b, was)
    ensures forall k :: 0 <= k < HUB_BITMAPS ==>
      record[k] == if k < b[0] || k == 3 || k == 4 then b[k] else was[k]
  {
    var n: nat := b[0];
    record := b[..n] + was[n..];
    record := record[3 := b[3]][4 := b[4]];
    record := record[..HUB_BITMAPS] + [0xff, 0xff, 0xff, 0xff];
  }

  /** One of the two loops, from this place in the buffer. */
  method CopyBitmap(record0: Bytes, b: Bytes, from: nat) returns (record: Bytes, inside: bool)
    requires |b| == BUFFER_SIZE && |record0| == HUB_RECORD && from < 10
    ensures |record| == HUB_RECORD && record[..HUB_BITMAPS] == record0[..HUB_BITMAPS]
    ensures inside <==> BitmapBytes(record0[2]) <= HUB_RECORD - HUB_BITMAPS
    ensures inside ==> forall k :: HUB_BITMAPS <= k < HUB_BITMAPS + BitmapBytes(record0[2]) ==>
      record[k] == b[k - HUB_BITMAPS + from]
  {
    record := record0;
    var i: nat := 0;
    while i < BitmapBytes(record[2])
      invariant |record| == HUB_RECORD && record[..HUB_BITMAPS] == record0[..HUB_BITMAPS]
      invariant i <= BitmapBytes(record0[2]) && record[2] == record0[2] && i <= HUB_RECORD - HUB_BITMAPS
      invariant forall k :: HUB_BITMAPS <= k < HUB_BITMAPS + i ==> record[k] == b[k - HUB_BITMAPS + from]
    {
      if HUB_BITMAPS + i == HUB_RECORD {
        return record, false;
      }
      record := record[HUB_BITMAPS + i := b[from + i]];
      i := i + 1;
    }
    inside := true;
  }

  /** A descriptor fits when it has at most eleven bytes and its hub at most 31 ports. */
  lemma FitsInNumbers(b: Bytes, was: Bytes)
    requires |b| == 512 && |was| == 11
    ensures HubFits(b, was) <==> b[0] <= 11 && (if b[0] >= 3 then b[2] else was[2]) <= 31
  {
  }

  /** A hub that follows the standard has two bitmaps behind the seven bytes, each with a bit for every port
      and one more. */
  predicate Compliant(b: Bytes)
    requires |b| == BUFFER_SIZE
  {
    b[0] == HUB_BITMAPS + 2 * BitmapBytes(b[2])
  }

  /** Among those exactly the hubs with up to fifteen ports fit. */
  lemma CompliantFits(b: Bytes, was: Bytes)
    requires |b| == BUFFER_SIZE && |was| == HUB_RECORD && Compliant(b)
    ensures HubFits(b, was) <==> b[2] <= 15
  {
  }

  /** A hub with sixteen ports: thirteen bytes. */
  function SixteenPorts(): (b: Bytes)
    ensures |b| == BUFFER_SIZE && Compliant(b)
  {
    [13, 0x29, 16, 0, 0, 50, 0, 0, 0, 0, 0xff, 0xff, 0xff] + seq(499, k => 0)
  }

  /** usb_hub_init writes behind the record for it. */
  method SixteenPortsOverrun(was: Bytes) returns (record: Bytes, inside: bool)
    requires |was| == HUB_RECORD
    ensures !inside
  {
    record, inside := TakeHubDescriptor(SixteenPorts(), was);
  }
}
