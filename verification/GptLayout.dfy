/**
  Laying out a native root and an optional ESP on 1 MiB boundaries, and writing
  both GPT copies around their contents.
  */
module GptLayout {
  import opened Wrappers
  import opened Bytes
  import opened Fields
  import opened Crc
  import opened Gpt
  import opened Devices
  import opened GptReader

  /** 1 MiB in device-mapper sectors. */
  const ALIGNMENT := 2048

  datatype Layout = Layout(root: Partition, esp: Option<Partition>, sectors: nat) {
    function Bytes(): nat {
      sectors * 512
    }

    /** The last block of the logical disk, which holds the backup header. */
    function End(): nat
      requires sectors >= 8
    {
      sectors / 8 - 1
    }
  }

  // ---- Extents ----

  function PartitionSectors(limit: Limit, bytes: nat): (sectors: Option<nat>)
    ensures sectors.Some? ==> sectors.value > 0 && sectors.value % 8 == 0 && sectors.value * 512 == bytes
  {
    if bytes == 0 || bytes % SECTOR_SIZE != 0 || bytes > limit then None
    else
      SectorsOfBlocks(bytes, bytes / SECTOR_SIZE);
      Some(bytes / 512)
  }

  lemma SectorsOfBlocks(bytes: nat, blocks: nat)
    requires bytes == SECTOR_SIZE * blocks
    ensures bytes / 512 == 8 * blocks
  {
    assert bytes == 512 * (8 * blocks);
  }

  function RoundUp(value: nat): (rounded: nat)
    ensures value <= rounded && rounded % ALIGNMENT == 0
    ensures forall other: nat | value <= other && other % ALIGNMENT == 0 :: rounded <= other
  {
    (value + ALIGNMENT - 1) / ALIGNMENT * ALIGNMENT
  }

  /** Extents for the given content sizes, if the disk fits the limit. */
  function Arrange(limit: Limit, rootBytes: nat, espBytes: Option<nat>): Option<Layout> {
    var esp :- ArrangeEsp(limit, espBytes);
    var start := if esp == None then ALIGNMENT else RoundUp(esp.value.start + esp.value.sectors);
    var root :- PartitionSectors(limit, rootBytes);
    var sectors := RoundUp(start + root + 40);
    if sectors > limit / 512 then None else Some(Layout(Partition(start, root), esp, sectors))
  }

  function ArrangeEsp(limit: Limit, bytes: Option<nat>): Option<Option<Partition>> {
    if bytes == None then Some(None)
    else
      var sectors :- PartitionSectors(limit, bytes.value);
      Some(Some(Partition(ALIGNMENT, sectors)))
  }

  predicate Whole(p: Partition) {
    p.start % ALIGNMENT == 0 && p.start >= ALIGNMENT && p.sectors > 0 && p.sectors % 8 == 0
  }

  /** Aligned, disjoint extents in order, then room for the backup copy, in a disk that fits. */
  predicate Placed(limit: Limit, layout: Layout) {
    && Whole(layout.root) && (layout.esp.Some? ==> Whole(layout.esp.value))
    && (layout.esp.Some? ==> layout.esp.value.start + layout.esp.value.sectors <= layout.root.start)
    && layout.root.start + layout.root.sectors + 40 <= layout.sectors
    && layout.sectors % ALIGNMENT == 0 && layout.Bytes() <= limit
  }

  /** The logical disk is a whole number of blocks, far more than the metadata needs. */
  lemma EndOf(limit: Limit, layout: Layout)
    requires Placed(limit, layout)
    ensures layout.sectors >= 8 && layout.End() >= 511 && layout.Bytes() == (layout.End() + 1) * SECTOR_SIZE
  {
    EndOfUnits(layout.sectors, layout.sectors / ALIGNMENT);
  }

  lemma EndOfUnits(sectors: nat, units: nat)
    requires sectors == ALIGNMENT * units && sectors > ALIGNMENT
    ensures units >= 2 && sectors / 8 == 256 * units && sectors * 512 == sectors / 8 * SECTOR_SIZE
  {
    assert sectors == 8 * (256 * units);
  }

  function Content(layout: Layout): (nat, Option<nat>) {
    (layout.root.sectors * 512,
     match layout.esp case None => None case Some(esp) => Some(esp.sectors * 512))
  }

  /**
    Every layout is placed and holds exactly the contents asked for, and there is
    one whenever contents of these sizes can be placed at all: it is the smallest.
    */
  lemma ArrangesExactly(limit: Limit, rootBytes: nat, espBytes: Option<nat>)
    ensures
      match Arrange(limit, rootBytes, espBytes)
      case Some(layout) =>
        && Placed(limit, layout) && Content(layout) == (rootBytes, espBytes)
        && forall other | Placed(limit, other) && Content(other) == (rootBytes, espBytes) :: layout.sectors <= other.sectors
      case None =>
        forall other | Placed(limit, other) :: Content(other) != (rootBytes, espBytes)
  {
    hide RoundUp, Placed, Content, Arrange;
    if Arrange(limit, rootBytes, espBytes).Some? {
      ArrangedIsPlaced(limit, rootBytes, espBytes);
    }
    forall other | Placed(limit, other) && Content(other) == (rootBytes, espBytes)
      ensures Arrange(limit, rootBytes, espBytes).Some?
      ensures Arrange(limit, rootBytes, espBytes).value.sectors <= other.sectors
    {
      ArrangesIfPlaced(limit, other);
    }
  }

  lemma ArrangedIsPlaced(limit: Limit, rootBytes: nat, espBytes: Option<nat>)
    requires Arrange(limit, rootBytes, espBytes).Some?
    ensures
      var layout := Arrange(limit, rootBytes, espBytes).value;
      Placed(limit, layout) && Content(layout) == (rootBytes, espBytes)
  {
    hide RoundUp, PartitionSectors;
  }

  lemma ArrangesIfPlaced(limit: Limit, other: Layout)
    requires Placed(limit, other)
    ensures
      var arranged := Arrange(limit, Content(other).0, Content(other).1);
      arranged.Some? && arranged.value.sectors <= other.sectors
  {
    hide RoundUp;
    assert other.root.sectors * 512 / 512 == other.root.sectors;
    if other.esp.Some? {
      assert other.esp.value.sectors * 512 / 512 == other.esp.value.sectors;
    }
  }

  // ---- The metadata blocks ----

  /** The fresh identifiers of one write. */
  datatype Identities = Identities(root: Uuid, esp: Uuid, disk: Uuid)

  function Protective(end: nat): MbrEntry {
    MbrEntry([0], [0, 2, 0], [0xEE], [0xFF, 0xFF, 0xFF], 1, Saturated(end))
  }

  function MbrBlock(end: nat): (block: seq<Byte>)
    ensures |block| == SECTOR_SIZE
  {
    MbrSized(end);
    Put(Put(Zeros(SECTOR_SIZE), 446, MbrBytes(Protective(end))), 510, [0x55, 0xAA])
  }

  lemma MbrSized(end: nat)
    ensures |MbrBytes(Protective(end))| == 16 && MbrOf(MbrBytes(Protective(end))) == Protective(end)
  {
    MbrRoundTrip(Protective(end));
  }

  function RecordFor(kind: Uuid, identity: Uuid, p: Partition): Record
    requires p.start + p.sectors >= 8
  {
    Record(Swap(kind), Swap(identity), p.start / 8, (p.start + p.sectors) / 8 - 1, 0, Zeros(72))
  }

  const TABLE_SIZE := 128 * RECORD_SIZE

  lemma RecordSized(kind: Uuid, identity: Uuid, p: Partition)
    requires p.start + p.sectors >= 8 && (p.start + p.sectors) / 8 < U64
    ensures |RecordBytes(RecordFor(kind, identity, p))| == RECORD_SIZE
    ensures RecordOf(RecordBytes(RecordFor(kind, identity, p))) == RecordFor(kind, identity, p)
  {
    hide RecordBytes, RecordOf;
    RecordRoundTrip(RecordFor(kind, identity, p));
  }

  /** The root first, then the ESP, then unused slots. */
  function TableBytes(limit: Limit, layout: Layout, ids: Identities, native: Uuid): (table: seq<Byte>)
    requires Placed(limit, layout)
    ensures |table| == TABLE_SIZE
  {
    RecordSized(native, ids.root, layout.root);
    var table := Put(Zeros(TABLE_SIZE), 0, RecordBytes(RecordFor(native, ids.root, layout.root)));
    match layout.esp
    case None => table
    case Some(esp) =>
      RecordSized(ESP_TYPE, ids.esp, esp);
      Put(table, RECORD_SIZE, RecordBytes(RecordFor(ESP_TYPE, ids.esp, esp)))
  }

  function Zeroed(end: nat, disk: Uuid, sum: nat, current: nat, backup: nat, partStart: nat): Header
    requires end >= 5
  {
    Header(SIGNATURE, REVISION, HEADER_SIZE, 0, 0, current, backup, 6, end - 5, Swap(disk),
           partStart, 128, RECORD_SIZE, sum)
  }

  function Sealed(h: Header): Header {
    h.(crc := Checksum(HeaderBytes(h)))
  }

  lemma SealedSized(h: Header)
    requires |h.signature| == 8 && |h.diskGuid| == 16
    ensures |HeaderBytes(Sealed(h))| == HEADER_SIZE
  {
    hide HeaderBytes;
    HeaderParts(Sealed(h));
  }

  function HeaderBlock(h: Header): (block: seq<Byte>)
    requires |h.signature| == 8 && |h.diskGuid| == 16
    ensures |block| == SECTOR_SIZE
  {
    SealedSized(h);
    HeaderBytes(Sealed(h)) + Zeros(SECTOR_SIZE - HEADER_SIZE)
  }

  /** The image after all five writes. */
  function Written(limit: Limit, layout: Layout, image: seq<Byte>, ids: Identities, native: Uuid): (written: seq<Byte>)
    requires Placed(limit, layout) && layout.Bytes() <= |image|
    ensures |written| == |image|
  {
    var table := TableBytes(limit, layout, ids, native);
    Stamped(image, layout.End(), MbrBlock(layout.End()), table, ids.disk, Checksum(table))
  }

  /** An image with a protective MBR, a table in both places and a header for each. */
  function Stamped(image: seq<Byte>, end: nat, mbr: seq<Byte>, table: seq<Byte>, disk: Uuid, sum: nat): (written: seq<Byte>)
    requires |mbr| == SECTOR_SIZE && |table| == TABLE_SIZE && end >= 11 && (end + 1) * SECTOR_SIZE <= |image|
    ensures |written| == |image|
  {
    Stamps(image, end, mbr, table, HeaderBlock(Zeroed(end, disk, sum, 1, end, 2)),
           HeaderBlock(Zeroed(end, disk, sum, end, 1, end - 4)))
  }

  function Stamps(image: seq<Byte>, end: nat, mbr: seq<Byte>, table: seq<Byte>, primary: seq<Byte>, backup: seq<Byte>):
    (written: seq<Byte>)
    requires |mbr| == |primary| == |backup| == SECTOR_SIZE && |table| == TABLE_SIZE
    requires end >= 11 && (end + 1) * SECTOR_SIZE <= |image|
    ensures |written| == |image|
  {
    var tables := Put(Put(Put(image, 0, mbr), 2 * SECTOR_SIZE, table), (end - 4) * SECTOR_SIZE, table);
    Put(Put(tables, SECTOR_SIZE, primary), end * SECTOR_SIZE, backup)
  }

  /** May a disk of this layout be written to a backing of this capacity? */
  predicate Accepts(limit: Limit, layout: Layout, capacity: nat) {
    layout.Bytes() <= capacity <= limit && capacity % SECTOR_SIZE == 0
  }

  method WriteAt(device: Device, lba: nat, bytes: seq<Byte>) returns (ok: bool)
    modifies device
    ensures ok <==> lba * SECTOR_SIZE + |bytes| <= |old(device.image)|
    ensures device.image == if ok then Put(old(device.image), lba * SECTOR_SIZE, bytes) else old(device.image)
  {
    device.Seek(lba * SECTOR_SIZE);
    ok := device.WriteAll(bytes);
  }

  /** Write the protective MBR, the tables and the headers. */
  method Write(limit: Limit, layout: Layout, device: Device, capacity: nat, ids: Identities, native: Uuid)
    returns (ok: bool)
    requires Placed(limit, layout)
    modifies device
    ensures ok <==> Accepts(limit, layout, capacity) && layout.Bytes() <= |old(device.image)|
    ensures ok ==> device.image == Written(limit, layout, old(device.image), ids, native)
    ensures !Accepts(limit, layout, capacity) ==> device.image == old(device.image)
  {
    hide Put, Stamped, TableBytes, Checksum, MbrBlock, Placed, Layout.Bytes, Layout.End;
    EndOf(limit, layout);
    if capacity < layout.Bytes() || capacity > limit || capacity % SECTOR_SIZE != 0 {
      return false;
    }
    var end := layout.End();
    var mbr := Put(Zeros(SECTOR_SIZE), 446, ProtectiveBytes(end));
    mbr := Put(mbr, 510, [0x55, 0xAA]);
    MbrBlockIs(end, mbr);
    var table := FillTable(limit, layout, ids, native);
    ok := Stamp(device, end, mbr, table, ids.disk, Checksum(table));
  }

  /** Fill the slots of an empty table. */
  method FillTable(limit: Limit, layout: Layout, ids: Identities, native: Uuid) returns (table: seq<Byte>)
    requires Placed(limit, layout)
    ensures table == TableBytes(limit, layout, ids, native)
  {
    hide Put, RecordBytes, RecordOf;
    RecordSized(native, ids.root, layout.root);
    table := Put(Zeros(TABLE_SIZE), 0, RecordBytes(RecordFor(native, ids.root, layout.root)));
    if layout.esp.Some? {
      RecordSized(ESP_TYPE, ids.esp, layout.esp.value);
      table := Put(table, RECORD_SIZE, RecordBytes(RecordFor(ESP_TYPE, ids.esp, layout.esp.value)));
    }
  }

  /** Write all metadata of one disk, stopping at the first failure. */
  method Stamp(device: Device, end: nat, mbr: seq<Byte>, table: seq<Byte>, disk: Uuid, sum: nat) returns (ok: bool)
    requires |mbr| == SECTOR_SIZE && |table| == TABLE_SIZE && end >= 11
    modifies device
    ensures ok <==> (end + 1) * SECTOR_SIZE <= |old(device.image)|
    ensures ok ==> device.image == Stamped(old(device.image), end, mbr, table, disk, sum)
  {
    hide Put, HeaderBlock;
    ok := WriteAt(device, 0, mbr);
    if !ok {
      return;
    }
    ok := WriteAt(device, 2, table);
    if !ok {
      return;
    }
    ok := WriteAt(device, end - 4, table);
    if !ok {
      return;
    }
    ok := WriteHeader(device, Zeroed(end, disk, sum, 1, end, 2));
    if !ok {
      return;
    }
    ok := WriteHeader(device, Zeroed(end, disk, sum, end, 1, end - 4));
  }

  function ProtectiveBytes(end: nat): (bytes: seq<Byte>)
    ensures |bytes| == 16
  {
    MbrSized(end);
    MbrBytes(Protective(end))
  }

  lemma MbrBlockIs(end: nat, mbr: seq<Byte>)
    requires mbr == Put(Put(Zeros(SECTOR_SIZE), 446, ProtectiveBytes(end)), 510, [0x55, 0xAA])
    ensures mbr == MbrBlock(end)
  {
    hide Put, MbrBytes;
  }

  /** Seal one header and write its block. */
  method WriteHeader(device: Device, h: Header) returns (ok: bool)
    requires |h.signature| == 8 && |h.diskGuid| == 16 && h.crc == 0
    modifies device
    ensures ok <==> (h.currentLba + 1) * SECTOR_SIZE <= |old(device.image)|
    ensures device.image == if ok then Put(old(device.image), h.currentLba * SECTOR_SIZE, HeaderBlock(h))
                            else old(device.image)
  {
    hide HeaderBytes, Checksum, Put;
    var header := h.(crc := Checksum(HeaderBytes(h)));
    SealedSized(h);
    ok := WriteAt(device, h.currentLba, HeaderBytes(header) + Zeros(SECTOR_SIZE - HEADER_SIZE));
  }

  // ---- What a write leaves alone ----

  /** A write changes only blocks 0 to 5 and the last five blocks of the logical disk. */
  lemma WrittenFrame(limit: Limit, layout: Layout, image: seq<Byte>, ids: Identities, native: Uuid, i: nat)
    requires Placed(limit, layout) && layout.Bytes() <= |image| && i < |image|
    requires 6 * SECTOR_SIZE <= i < layout.Bytes() - 5 * SECTOR_SIZE || layout.Bytes() <= i
    ensures Written(limit, layout, image, ids, native)[i] == image[i]
  {
    hide TableBytes, MbrBlock, HeaderBlock, Stamps, Checksum, Placed, Layout.Bytes, Layout.End;
    EndOf(limit, layout);
    var end, table := layout.End(), TableBytes(limit, layout, ids, native);
    StampsFrame(image, end, MbrBlock(end), table, HeaderBlock(Zeroed(end, ids.disk, Checksum(table), 1, end, 2)),
                HeaderBlock(Zeroed(end, ids.disk, Checksum(table), end, 1, end - 4)), i);
  }

  lemma StampsFrame(image: seq<Byte>, end: nat, mbr: seq<Byte>, table: seq<Byte>, primary: seq<Byte>, backup: seq<Byte>, i: nat)
    requires |mbr| == |primary| == |backup| == SECTOR_SIZE && |table| == TABLE_SIZE
    requires end >= 11 && (end + 1) * SECTOR_SIZE <= |image| && i < |image|
    requires 6 * SECTOR_SIZE <= i < (end - 4) * SECTOR_SIZE || (end + 1) * SECTOR_SIZE <= i
    ensures Stamps(image, end, mbr, table, primary, backup)[i] == image[i]
  {
    hide Put;
    var first := Put(image, 0, mbr);
    var second := Put(first, 2 * SECTOR_SIZE, table);
    var third := Put(second, (end - 4) * SECTOR_SIZE, table);
    var fourth := Put(third, SECTOR_SIZE, primary);
    PutElsewhere(image, 0, mbr, i);
    PutElsewhere(first, 2 * SECTOR_SIZE, table, i);
    PutElsewhere(second, (end - 4) * SECTOR_SIZE, table, i);
    PutElsewhere(third, SECTOR_SIZE, primary, i);
    PutElsewhere(fourth, end * SECTOR_SIZE, backup, i);
  }

  /** So partition contents and the backing tail survive. */
  lemma ContentsSurvive(limit: Limit, layout: Layout, image: seq<Byte>, ids: Identities, native: Uuid, p: Partition)
    requires Placed(limit, layout) && layout.Bytes() <= |image|
    requires p == layout.root || layout.esp == Some(p)
    ensures (p.start + p.sectors) * 512 <= |image|
    ensures Slice(Written(limit, layout, image, ids, native), p.start * 512, p.sectors * 512) ==
            Slice(image, p.start * 512, p.sectors * 512)
    ensures Written(limit, layout, image, ids, native)[layout.Bytes()..] == image[layout.Bytes()..]
  {
    hide Written;
    var written := Written(limit, layout, image, ids, native);
    forall i: nat | (p.start * 512 <= i < (p.start + p.sectors) * 512 || layout.Bytes() <= i) && i < |image|
      ensures written[i] == image[i]
    {
      WrittenFrame(limit, layout, image, ids, native, i);
    }
  }
}
