/** Reading back what was written gives the layout. */
module GptRoundTrip {
  import opened Wrappers
  import opened Bytes
  import opened Orders
  import opened Fields
  import opened Crc
  import opened Gpt
  import opened Devices
  import opened GptReader
  import opened GptLayout

  // ---- The five writes do not touch each other ----

  lemma StampsBlocks(image: seq<Byte>, end: nat, mbr: seq<Byte>, table: seq<Byte>, primary: seq<Byte>, backup: seq<Byte>)
    requires |mbr| == |primary| == |backup| == SECTOR_SIZE && |table| == TABLE_SIZE
    requires end >= 11 && (end + 1) * SECTOR_SIZE <= |image|
    ensures
      var written := Stamps(image, end, mbr, table, primary, backup);
      && Slice(written, 0, SECTOR_SIZE) == mbr && Slice(written, SECTOR_SIZE, SECTOR_SIZE) == primary
      && Slice(written, 2 * SECTOR_SIZE, TABLE_SIZE) == table
      && Slice(written, (end - 4) * SECTOR_SIZE, TABLE_SIZE) == table
      && Slice(written, end * SECTOR_SIZE, SECTOR_SIZE) == backup
  {
    hide Put, Slice;
    var first := Put(image, 0, mbr);
    var second := Put(first, 2 * SECTOR_SIZE, table);
    var third := Put(second, (end - 4) * SECTOR_SIZE, table);
    var fourth := Put(third, SECTOR_SIZE, primary);
    PutSame(image, 0, mbr);
    PutApart(first, 2 * SECTOR_SIZE, table, 0, SECTOR_SIZE);
    PutApart(second, (end - 4) * SECTOR_SIZE, table, 0, SECTOR_SIZE);
    PutApart(third, SECTOR_SIZE, primary, 0, SECTOR_SIZE);
    PutApart(fourth, end * SECTOR_SIZE, backup, 0, SECTOR_SIZE);
    PutSame(first, 2 * SECTOR_SIZE, table);
    PutApart(second, (end - 4) * SECTOR_SIZE, table, 2 * SECTOR_SIZE, TABLE_SIZE);
    PutApart(third, SECTOR_SIZE, primary, 2 * SECTOR_SIZE, TABLE_SIZE);
    PutApart(fourth, end * SECTOR_SIZE, backup, 2 * SECTOR_SIZE, TABLE_SIZE);
    PutSame(second, (end - 4) * SECTOR_SIZE, table);
    PutApart(third, SECTOR_SIZE, primary, (end - 4) * SECTOR_SIZE, TABLE_SIZE);
    PutApart(fourth, end * SECTOR_SIZE, backup, (end - 4) * SECTOR_SIZE, TABLE_SIZE);
    PutSame(third, SECTOR_SIZE, primary);
    PutApart(fourth, end * SECTOR_SIZE, backup, SECTOR_SIZE, SECTOR_SIZE);
    PutSame(fourth, end * SECTOR_SIZE, backup);
  }

  // ---- Each block reads back ----

  /** A sealed header block is accepted and decodes to its header. */
  lemma HeaderReads(h: Header)
    requires h.Fits() && h.crc == 0 && h.signature == SIGNATURE && h.revision == REVISION && h.size == HEADER_SIZE
    requires h.reserved == 0 && h.partSize == RECORD_SIZE && 128 <= h.numParts <= MAX_ENTRIES && h.diskGuid != Zeros(16)
    ensures HeaderIn(HeaderBlock(h)) == Some(Sealed(h))
  {
    hide HeaderBytes, HeaderOf, Checksum;
    var sealed, block := Sealed(h), HeaderBlock(h);
    HeaderRoundTrip(sealed);
    CoveredIsZeroed(sealed);
    assert sealed.(crc := 0) == h;
    assert block[..HEADER_SIZE] == HeaderBytes(sealed);
    assert block[HEADER_SIZE..] == Zeros(SECTOR_SIZE - HEADER_SIZE);
    assert Covered(block) == Covered(HeaderBytes(sealed)) by {
      assert block[..16] == HeaderBytes(sealed)[..16];
      assert block[20..HEADER_SIZE] == HeaderBytes(sealed)[20..HEADER_SIZE];
    }
  }

  lemma MbrSlotSlice(block: seq<Byte>, j: nat)
    requires |block| == SECTOR_SIZE && j < 4
    ensures MbrSlot(block, j) == Slice(block, 446 + 16 * j, 16)
  {
  }

  lemma MbrReads(end: nat)
    ensures ProtectiveMbr(MbrBlock(end), end + 1)
  {
    hide MbrOf, MbrBytes, Put;
    MbrSized(end);
    var block, bytes := MbrBlock(end), MbrBytes(Protective(end));
    var inner := Put(Zeros(SECTOR_SIZE), 446, bytes);
    PutSame(Zeros(SECTOR_SIZE), 446, bytes);
    PutApart(inner, 510, [0x55, 0xAA], 446, 16);
    PutSame(inner, 510, [0x55, 0xAA]);
    MbrSlotSlice(block, 0);
    forall j | 1 <= j < 4
      ensures MbrSlot(block, j) == Zeros(16)
    {
      MbrSlotSlice(block, j);
      PutApart(inner, 510, [0x55, 0xAA], 446 + 16 * j, 16);
      PutApart(Zeros(SECTOR_SIZE), 446, bytes, 446 + 16 * j, 16);
      ZeroSlice(SECTOR_SIZE, 446 + 16 * j, 16);
    }
    PutApart(inner, 510, [0x55, 0xAA], 512, 3584);
    PutApart(Zeros(SECTOR_SIZE), 446, bytes, 512, 3584);
    ZeroSlice(SECTOR_SIZE, 512, 3584);
    assert block[512..] == Slice(block, 512, 3584) == Zeros(3584);
    assert block[510..512] == Slice(block, 510, 2);
    assert MbrOf(MbrSlot(block, 0)).Protects(end + 1);
  }

  lemma {:induction false} ZeroSlots(table: seq<Byte>, number: nat)
    requires forall b <- table :: b == 0
    ensures Slots(table, number) == []
    decreases |table|
  {
    hide RecordOf;
    if |table| >= RECORD_SIZE {
      assert forall i | 0 <= i < RECORD_SIZE :: table[i] in table;
      assert table[..RECORD_SIZE] == Zeros(RECORD_SIZE);
      ZeroRecord(table[..RECORD_SIZE]);
      assert forall b <- table[RECORD_SIZE..] :: b in table;
      ZeroSlots(table[RECORD_SIZE..], number + 1);
    }
  }

  /** Two records and unused slots, or one. */
  lemma FilledSlots(first: seq<Byte>, rest: seq<Byte>, number: nat)
    requires |first| == RECORD_SIZE && RecordOf(first).Used()
    ensures Slots(first + rest, number) == [EntryOf(number, RecordOf(first))] + Slots(rest, number + 1)
  {
    hide RecordOf, EntryOf, Slots;
    SlotsConcat(first, rest, number);
    OneSlot(first, number);
  }

  function EntryFor(kind: Uuid, p: Partition, number: nat): Entry
    requires p.start + p.sectors >= 8
  {
    Entry(number, kind, p.start / 8, (p.start + p.sectors) / 8 - 1, true)
  }

  lemma RecordReads(kind: Uuid, identity: Uuid, p: Partition, number: nat)
    requires p.start + p.sectors >= 8 && (p.start + p.sectors) / 8 < U64 && kind != Zeros(16)
    ensures
      var bytes := RecordBytes(RecordFor(kind, identity, p));
      && |bytes| == RECORD_SIZE && RecordOf(bytes).Used()
      && EntryOf(number, RecordOf(bytes)) == EntryFor(kind, p, number)
  {
    hide RecordBytes, RecordOf;
    RecordSized(kind, identity, p);
    SwapSwap(kind);
  }

  /** Each written record holds its type, its own fresh identifier, its extent and nothing else. */
  lemma TableRecords(limit: Limit, layout: Layout, ids: Identities, native: Uuid)
    requires Placed(limit, layout)
    ensures
      var table := TableBytes(limit, layout, ids, native);
      && RecordOf(table[..RECORD_SIZE]) == RecordFor(native, ids.root, layout.root)
      && (layout.esp.Some? ==>
            RecordOf(table[RECORD_SIZE..2 * RECORD_SIZE]) == RecordFor(ESP_TYPE, ids.esp, layout.esp.value))
      && var used := if layout.esp.Some? then 2 * RECORD_SIZE else RECORD_SIZE;
         table[used..] == Zeros(TABLE_SIZE - used)
  {
    hide RecordBytes, RecordOf, RecordFor, Placed;
    PlacedWhole(limit, layout);
    SizedRecord(native, ids.root, layout.root, layout.sectors);
    var first := RecordBytes(RecordFor(native, ids.root, layout.root));
    TableIs(limit, layout, ids, native);
    hide TableBytes;
    match layout.esp
    case None =>
      FrontAndRest(first, Zeros(TABLE_SIZE - RECORD_SIZE));
    case Some(esp) =>
      SizedRecord(ESP_TYPE, ids.esp, esp, layout.sectors);
      var second, rest := RecordBytes(RecordFor(ESP_TYPE, ids.esp, esp)), Zeros(TABLE_SIZE - 2 * RECORD_SIZE);
      FrontAndRest(first, second + rest);
      SecondAndRest(first, second, rest);
  }

  /** The table: the root's record, the ESP's if there is one, and zeros. */
  lemma TableIs(limit: Limit, layout: Layout, ids: Identities, native: Uuid)
    requires Placed(limit, layout)
    ensures
      layout.root.start + layout.root.sectors >= 8
      && (layout.esp.Some? ==> layout.esp.value.start + layout.esp.value.sectors >= 8)
      && var first := RecordBytes(RecordFor(native, ids.root, layout.root));
         |first| == RECORD_SIZE && TableBytes(limit, layout, ids, native) == first +
         match layout.esp
         case None => Zeros(TABLE_SIZE - RECORD_SIZE)
         case Some(esp) => RecordBytes(RecordFor(ESP_TYPE, ids.esp, esp)) + Zeros(TABLE_SIZE - 2 * RECORD_SIZE)
  {
    hide RecordBytes, RecordOf, RecordFor, Put, Placed;
    PlacedWhole(limit, layout);
    SizedRecord(native, ids.root, layout.root, layout.sectors);
    var first := RecordBytes(RecordFor(native, ids.root, layout.root));
    PutFront(TABLE_SIZE, first);
    if layout.esp.Some? {
      SizedRecord(ESP_TYPE, ids.esp, layout.esp.value, layout.sectors);
      PutNext(first, TABLE_SIZE - RECORD_SIZE, RecordBytes(RecordFor(ESP_TYPE, ids.esp, layout.esp.value)));
    }
  }

  lemma FrontAndRest(first: seq<Byte>, rest: seq<Byte>)
    requires |first| == RECORD_SIZE
    ensures (first + rest)[..RECORD_SIZE] == first && (first + rest)[RECORD_SIZE..] == rest
  {
  }

  lemma SecondAndRest(first: seq<Byte>, second: seq<Byte>, rest: seq<Byte>)
    requires |first| == |second| == RECORD_SIZE
    ensures var table := first + (second + rest);
      table[RECORD_SIZE..2 * RECORD_SIZE] == second && table[2 * RECORD_SIZE..] == rest
  {
    var table := first + (second + rest);
    assert table == (first + second) + rest;
    assert (first + second)[RECORD_SIZE..] == second;
    assert table[..2 * RECORD_SIZE] == first + second;
    assert table[RECORD_SIZE..2 * RECORD_SIZE] == table[..2 * RECORD_SIZE][RECORD_SIZE..];
  }

  lemma SizedRecord(kind: Uuid, identity: Uuid, p: Partition, sectors: nat)
    requires 8 <= p.start + p.sectors <= sectors <= 0x4000_0000_0000_0000 / 512
    ensures |RecordBytes(RecordFor(kind, identity, p))| == RECORD_SIZE
    ensures RecordOf(RecordBytes(RecordFor(kind, identity, p))) == RecordFor(kind, identity, p)
  {
    hide RecordBytes, RecordOf;
    RecordSized(kind, identity, p);
  }

  function EntriesOf(limit: Limit, layout: Layout, native: Uuid): seq<Entry>
    requires Placed(limit, layout)
  {
    [EntryFor(native, layout.root, 1)] +
    match layout.esp case None => [] case Some(esp) => [EntryFor(ESP_TYPE, esp, 2)]
  }

  lemma TableReads(limit: Limit, layout: Layout, ids: Identities, native: Uuid)
    requires Placed(limit, layout) && native != Zeros(16)
    ensures Slots(TableBytes(limit, layout, ids, native), 1) == EntriesOf(limit, layout, native)
  {
    hide Slots, RecordOf, RecordBytes, EntryOf;
    TableIs(limit, layout, ids, native);
    RecordReads(native, ids.root, layout.root, 1);
    var first := RecordBytes(RecordFor(native, ids.root, layout.root));
    hide TableBytes;
    match layout.esp
    case None =>
      var rest := Zeros(TABLE_SIZE - RECORD_SIZE);
      FilledSlots(first, rest, 1);
      ZeroSlots(rest, 2);
    case Some(esp) =>
      RecordReads(ESP_TYPE, ids.esp, esp, 2);
      var second, rest := RecordBytes(RecordFor(ESP_TYPE, ids.esp, esp)), Zeros(TABLE_SIZE - 2 * RECORD_SIZE);
      FilledSlots(first, second + rest, 1);
      FilledSlots(second, rest, 2);
      ZeroSlots(rest, 3);
  }

  // ---- The whole disk reads back ----

  lemma BlockIsSlice(image: seq<Byte>, lba: nat)
    requires (lba + 1) * SECTOR_SIZE <= |image| && lba * SECTOR_SIZE < U64
    ensures BlockAt(image, lba) == Some(Slice(image, lba * SECTOR_SIZE, SECTOR_SIZE))
  {
  }

  lemma HeadersRead(image: seq<Byte>, end: nat, mbr: seq<Byte>, table: seq<Byte>, disk: Uuid, sum: nat, capacity: nat)
    requires |mbr| == SECTOR_SIZE && |table| == TABLE_SIZE && 11 <= end < U64 / SECTOR_SIZE && sum < U32
    requires (end + 1) * SECTOR_SIZE <= |image| && end < capacity / SECTOR_SIZE && disk != Zeros(16)
    requires end >= 511
    ensures HeadersIn(Stamped(image, end, mbr, table, disk, sum), capacity) ==
            Some((Sealed(Zeroed(end, disk, sum, 1, end, 2)), Sealed(Zeroed(end, disk, sum, end, 1, end - 4))))
  {
    hide HeaderIn, HeaderBlock, Checksum, HeaderBytes, Stamps, BlockAt;
    var primary, backup := Zeroed(end, disk, sum, 1, end, 2), Zeroed(end, disk, sum, end, 1, end - 4);
    var written := Stamped(image, end, mbr, table, disk, sum);
    StampsBlocks(image, end, mbr, table, HeaderBlock(primary), HeaderBlock(backup));
    SwapSwap(disk);
    HeaderReads(primary);
    HeaderReads(backup);
    BlockIsSlice(written, 1);
    BlockIsSlice(written, end);
    assert HeaderAt(written, 1) == Some(Sealed(primary));
    assert HeaderAt(written, end) == Some(Sealed(backup));
  }

  /** Root and ESP, sorted by where they start, are usable and apart. */
  lemma EntriesFit(limit: Limit, layout: Layout, native: Uuid, h: Header)
    requires Placed(limit, layout) && layout.sectors >= 8
    requires h.firstUsable == 6 && h.lastUsable == layout.sectors / 8 - 6
    ensures AllUsable(EntriesOf(limit, layout, native), h)
    ensures
      var root := EntryFor(native, layout.root, 1);
      var sorted := Sort(ByStart, EntriesOf(limit, layout, native));
      && sorted == (match layout.esp case None => [root] case Some(esp) => [EntryFor(ESP_TYPE, esp, 2), root])
      && Separated(sorted)
  {
    hide Sort, Placed, Whole;
    PlacedWhole(limit, layout);
    var root := EntryFor(native, layout.root, 1);
    ExtentWhole(layout.root, layout.sectors);
    match layout.esp
    case None =>
      assert EntriesOf(limit, layout, native) == [root];
      SortOne(root);
    case Some(esp) =>
      ExtentWhole(esp, layout.sectors);
      EndsBefore(limit, layout, esp);
      var other := EntryFor(ESP_TYPE, esp, 2);
      assert EntriesOf(limit, layout, native) == [root, other];
      SortTwo(root, other);
  }

  lemma SortOne(e: Entry)
    ensures Sort(ByStart, [e]) == [e]
  {
    assert [e][1..] == [];
  }

  lemma SortTwo(later: Entry, earlier: Entry)
    requires earlier.start < later.start
    ensures Sort(ByStart, [later, earlier]) == [earlier, later]
  {
    assert [later, earlier][1..] == [earlier] && [earlier][1..] == [];
    SortOne(earlier);
    assert Insert(ByStart, later, []) == [later];
  }

  /** The ESP ends before the root starts, in blocks as in sectors. */
  lemma EndsBefore(limit: Limit, layout: Layout, esp: Partition)
    requires Placed(limit, layout) && layout.esp == Some(esp) && esp.start + esp.sectors >= 8
    ensures esp.start / 8 <= (esp.start + esp.sectors) / 8 - 1 < layout.root.start / 8
  {
    AlignedBlocks(esp.start, esp.start / ALIGNMENT);
    AlignedBlocks(layout.root.start, layout.root.start / ALIGNMENT);
    SumOfBlocks(esp.start / 8, esp.sectors / 8);
  }

  lemma AlignedBlocks(start: nat, units: nat)
    requires start == ALIGNMENT * units
    ensures start == 8 * (start / 8)
  {
    assert start == 8 * (256 * units);
  }

  lemma SumOfBlocks(a: nat, b: nat)
    ensures (8 * a + 8 * b) / 8 == a + b
  {
    assert 8 * a + 8 * b == 8 * (a + b);
  }

  lemma ExtentWhole(p: Partition, sectors: nat)
    requires Whole(p) && p.start + p.sectors + 40 <= sectors && sectors % 8 == 0 && sectors <= 0x4000_0000_0000_0000 / 512
    ensures p.start % 8 == 0 && 6 <= p.start / 8 <= (p.start + p.sectors) / 8 - 1 <= sectors / 8 - 6
    ensures forall kind: Uuid, number: nat :: Extent(EntryFor(kind, p, number)) == Some(p)
  {
    var a, b := p.start / 8, p.sectors / 8;
    AlignedBlocks(p.start, p.start / ALIGNMENT);
    SumOfBlocks(a, b);
    assert p.start == 8 * a && p.sectors == 8 * b;
  }

  lemma Discovered(limit: Limit, layout: Layout, native: Uuid)
    requires Placed(limit, layout) && NativeRoot(native)
    ensures
      var root := EntryFor(native, layout.root, 1);
      var sorted := match layout.esp case None => [root] case Some(esp) => [EntryFor(ESP_TYPE, esp, 2), root];
      Discover(sorted, native) == Some(Disk(layout.root, layout.esp))
  {
    hide Extent, EntryFor, Placed, Select, Whole;
    PlacedWhole(limit, layout);
    var root := EntryFor(native, layout.root, 1);
    RootExtent(limit, layout, native);
    match layout.esp
    case None => DiscoveredRoot(root, native);
    case Some(esp) => DiscoveredBoth(EntryFor(ESP_TYPE, esp, 2), root, native);
  }

  /** The entries of a layout convert back to its extents. */
  lemma RootExtent(limit: Limit, layout: Layout, native: Uuid)
    requires Placed(limit, layout) && NativeRoot(native) && layout.root.start + layout.root.sectors >= 8
    requires layout.esp.Some? ==> layout.esp.value.start + layout.esp.value.sectors >= 8
    ensures
      var root := EntryFor(native, layout.root, 1);
      Extent(root) == Some(layout.root) && root.kind == native && root.eligible && native != ESP_TYPE
    ensures layout.esp.Some? ==>
              Extent(EntryFor(ESP_TYPE, layout.esp.value, 2)) == Some(layout.esp.value)
              && EntryFor(ESP_TYPE, layout.esp.value, 2).kind == ESP_TYPE
  {
    hide Extent, Placed, Whole;
    PlacedWhole(limit, layout);
    ExtentWhole(layout.root, layout.sectors);
    if layout.esp.Some? {
      ExtentWhole(layout.esp.value, layout.sectors);
    }
    assert native[0] != ESP_TYPE[0];
  }

  /** Each extent of a layout lies whole inside it. */
  lemma PlacedWhole(limit: Limit, layout: Layout)
    requires Placed(limit, layout)
    ensures layout.sectors % 8 == 0 && layout.sectors <= 0x4000_0000_0000_0000 / 512
    ensures Whole(layout.root) && layout.root.start + layout.root.sectors + 40 <= layout.sectors
    ensures layout.root.start + layout.root.sectors >= 8
    ensures layout.esp.Some? ==>
              var p := layout.esp.value; Whole(p) && 8 <= p.start + p.sectors && p.start + p.sectors + 40 <= layout.sectors
  {
    EndOfUnits(layout.sectors, layout.sectors / ALIGNMENT);
  }

  lemma DiscoveredRoot(root: Entry, native: Uuid)
    requires root.kind == native && root.eligible && native != ESP_TYPE && Extent(root).Some?
    ensures Discover([root], native) == Some(Disk(Extent(root).value, None))
  {
    hide Extent, Select;
    SelectOne(root, (e: Entry) => e.kind == native && e.eligible);
    SelectOne(root, (e: Entry) => e.kind == ESP_TYPE);
  }

  lemma DiscoveredBoth(esp: Entry, root: Entry, native: Uuid)
    requires root.kind == native && root.eligible && native != ESP_TYPE && esp.kind == ESP_TYPE
    requires Extent(root).Some? && Extent(esp).Some?
    ensures Discover([esp, root], native) == Some(Disk(Extent(root).value, Some(Extent(esp).value)))
  {
    hide Extent, Select;
    SelectTwo(esp, root, (e: Entry) => e.kind == native && e.eligible);
    SelectTwo(esp, root, (e: Entry) => e.kind == ESP_TYPE);
  }

  lemma SelectOne(e: Entry, wanted: Entry -> bool)
    ensures Select([e], wanted) == if wanted(e) then [e] else []
  {
    assert [e][1..] == [];
  }

  lemma SelectTwo(a: Entry, b: Entry, wanted: Entry -> bool)
    ensures Select([a, b], wanted) == (if wanted(a) then [a] else []) + (if wanted(b) then [b] else [])
  {
    assert [a, b][1..] == [b];
    SelectOne(b, wanted);
  }

  /**
    Writing then reading is the identity: over any previous contents, and for
    every capacity that holds the disk, the reader finds the layout's extents.
    */
  lemma WriteThenRead(limit: Limit, layout: Layout, image: seq<Byte>, ids: Identities, native: Uuid, capacity: nat)
    requires Placed(limit, layout) && layout.Bytes() <= |image|
    requires NativeRoot(native) && ids.disk != Zeros(16)
    requires layout.Bytes() <= capacity && ValidCapacity(limit, capacity)
    ensures DiskIn(limit, Written(limit, layout, image, ids, native), capacity, native) ==
            Some(Disk(layout.root, layout.esp))
  {
    hide TableBytes, MbrBlock, Stamped, HeadersIn, Placed, ProtectiveMbr, Discover, Checksum, Layout.Bytes, Layout.End,
         BlockAt, TableEntries, Table, HeaderBytes, EntriesOf;
    EndOf(limit, layout);
    var end, table := layout.End(), TableBytes(limit, layout, ids, native);
    var written := Written(limit, layout, image, ids, native);
    HeadersRead(image, end, MbrBlock(end), table, ids.disk, Checksum(table), capacity);
    BlocksRead(image, end, MbrBlock(end), table, ids.disk, Checksum(table));
    MbrReads(end);
    TablesRead(limit, layout, ids, native);
    Discovered(limit, layout, native);
  }

  lemma BlocksRead(image: seq<Byte>, end: nat, mbr: seq<Byte>, table: seq<Byte>, disk: Uuid, sum: nat)
    requires |mbr| == SECTOR_SIZE && |table| == TABLE_SIZE && end >= 11 && (end + 1) * SECTOR_SIZE <= |image|
    ensures
      var written := Stamped(image, end, mbr, table, disk, sum);
      var (primary, backup) := (Sealed(Zeroed(end, disk, sum, 1, end, 2)), Sealed(Zeroed(end, disk, sum, end, 1, end - 4)));
      && BlockAt(written, 0) == Some(mbr)
      && TableBlocks(primary) == TableBlocks(backup) == 4
      && Table(written, primary) == table && Table(written, backup) == table
  {
    hide HeaderBlock, Checksum, HeaderBytes, Stamps, Slice;
    var primary, backup := Zeroed(end, disk, sum, 1, end, 2), Zeroed(end, disk, sum, end, 1, end - 4);
    StampsBlocks(image, end, mbr, table, HeaderBlock(primary), HeaderBlock(backup));
    BlockIsSlice(Stamped(image, end, mbr, table, disk, sum), 0);
  }

  lemma TablesRead(limit: Limit, layout: Layout, ids: Identities, native: Uuid)
    requires Placed(limit, layout) && NativeRoot(native) && layout.sectors >= 8 && layout.End() >= 11
    ensures
      var end, table := layout.End(), TableBytes(limit, layout, ids, native);
      var sum := Checksum(table);
      var (primary, backup) := (Sealed(Zeroed(end, ids.disk, sum, 1, end, 2)), Sealed(Zeroed(end, ids.disk, sum, end, 1, end - 4)));
      var root := EntryFor(native, layout.root, 1);
      TableEntries(primary, backup, table, table) ==
      Some(match layout.esp case None => [root] case Some(esp) => [EntryFor(ESP_TYPE, esp, 2), root])
  {
    hide TableBytes, Checksum, HeaderBytes, Slots, EntriesOf, Sort, EntryFor;
    var end, table := layout.End(), TableBytes(limit, layout, ids, native);
    assert native[0] != 0;
    TableReads(limit, layout, ids, native);
    EntriesFit(limit, layout, native, Sealed(Zeroed(end, ids.disk, Checksum(table), 1, end, 2)));
  }
}
