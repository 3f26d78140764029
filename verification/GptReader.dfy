/**
  Validating both copies of a GPT and discovering the root and ESP extents:
  what an image must hold, and the reader that checks it block by block.
  */
module GptReader {
  import opened Wrappers
  import opened Bytes
  import opened Orders
  import opened Crc
  import opened Fields
  import opened Gpt
  import opened Devices
  import opened Strings

  // ---- Headers ----

  /** Both copies describe the same disk. */
  predicate Agree(primary: Header, backup: Header) {
    && backup.currentLba == primary.backupLba && backup.backupLba == primary.currentLba
    && backup.diskGuid == primary.diskGuid
    && backup.firstUsable == primary.firstUsable && backup.lastUsable == primary.lastUsable
    && backup.numParts == primary.numParts && backup.crcParts == primary.crcParts
  }

  function TableBlocks(h: Header): nat {
    (h.numParts * RECORD_SIZE + SECTOR_SIZE - 1) / SECTOR_SIZE
  }

  /** Primary table, usable blocks, backup table and backup header follow each other. */
  predicate Apart(primary: Header, backup: Header) {
    var blocks, end := TableBlocks(primary), backup.currentLba;
    && 2 <= primary.partStart <= end
    && primary.partStart + blocks <= primary.firstUsable <= primary.lastUsable < backup.partStart
    && backup.partStart <= end && backup.partStart + blocks <= end
  }

  method ValidateHeaders(primary: Header, backup: Header) returns (ok: bool)
    requires primary.numParts <= MAX_ENTRIES && primary.backupLba < U64 / 2
    ensures ok <==> Agree(primary, backup) && Apart(primary, backup)
  {
    if || backup.currentLba != primary.backupLba || backup.backupLba != primary.currentLba
       || backup.diskGuid != primary.diskGuid
       || backup.firstUsable != primary.firstUsable || backup.lastUsable != primary.lastUsable
       || backup.numParts != primary.numParts || backup.crcParts != primary.crcParts {
      return false;
    }
    var blocks, end := TableBlocks(primary), backup.currentLba;
    if primary.partStart < 2 || primary.partStart > end {
      return false;
    }
    assert primary.partStart + blocks < U64;
    if || primary.partStart + blocks > primary.firstUsable || primary.firstUsable > primary.lastUsable
       || primary.lastUsable >= backup.partStart || backup.partStart > end {
      return false;
    }
    assert backup.partStart + blocks < U64;
    return backup.partStart + blocks <= end;
  }

  // ---- Protective MBR ----

  function MbrSlot(block: seq<Byte>, i: nat): seq<Byte>
    requires |block| == SECTOR_SIZE && i < 4
  {
    block[446 + 16 * i..446 + 16 * (i + 1)]
  }

  /** One slot protects the disk, the others are empty, and nothing follows the signature. */
  predicate ProtectiveMbr(block: seq<Byte>, sectors: nat)
    requires |block| == SECTOR_SIZE
  {
    && (forall b <- block[512..] :: b == 0)
    && block[510..512] == [0x55, 0xAA]
    && exists i | 0 <= i < 4 ::
         && MbrOf(MbrSlot(block, i)).Protects(sectors)
         && forall j | 0 <= j < 4 && j != i :: MbrSlot(block, j) == Zeros(16)
  }

  method CheckMbr(block: seq<Byte>, sectors: nat) returns (ok: bool)
    requires |block| == SECTOR_SIZE
    ensures ok <==> ProtectiveMbr(block, sectors)
  {
    hide MbrOf;
    if !(forall b <- block[512..] :: b == 0) || block[510..512] != [0x55, 0xAA] {
      return false;
    }
    var protective := 0;
    ghost var at: nat := 0;
    for i := 0 to 4
      invariant protective == 0 ==> forall j | 0 <= j < i :: MbrSlot(block, j) == Zeros(16)
      invariant protective > 0 ==> at < i && MbrOf(MbrSlot(block, at)).Protects(sectors)
      invariant protective == 1 ==> forall j | 0 <= j < i && j != at :: MbrSlot(block, j) == Zeros(16)
      invariant protective > 1 ==> exists j | 0 <= j < i && j != at :: MbrOf(MbrSlot(block, j)).Protects(sectors)
      invariant protective >= 0
    {
      var slot := MbrSlot(block, i);
      ZeroMbr(Zeros(16), sectors);
      if MbrOf(slot).Protects(sectors) {
        protective := protective + 1;
        if protective == 1 {
          at := i;
        } else {
          assert i != at;
        }
      } else if slot != Zeros(16) {
        return false;
      }
    }
    ZeroMbr(Zeros(16), sectors);
    return protective == 1;
  }

  // ---- Partition table ----

  datatype Entry = Entry(number: nat, kind: Uuid, start: nat, end: nat, eligible: bool)

  function EntryOf(number: nat, r: Record): Entry
    requires |r.kind| == 16
  {
    Entry(number, Swap(r.kind), r.start, r.end, r.attributes < NO_AUTO)
  }

  /** The occupied slots of a table, numbered from `number`. */
  function Slots(table: seq<Byte>, number: nat): seq<Entry> {
    if |table| < RECORD_SIZE then []
    else
      var r := RecordOf(table[..RECORD_SIZE]);
      (if r.Used() then [EntryOf(number, r)] else []) + Slots(table[RECORD_SIZE..], number + 1)
  }

  predicate Usable(e: Entry, h: Header) {
    h.firstUsable <= e.start <= e.end <= h.lastUsable
  }

  predicate AllUsable(entries: seq<Entry>, h: Header) {
    forall e <- entries :: Usable(e, h)
  }

  predicate ByStart(a: Entry, b: Entry) {
    a.start < b.start
  }

  /** Neighbours do not overlap. */
  predicate Separated(entries: seq<Entry>) {
    forall i | 0 <= i < |entries| - 1 :: entries[i].end < entries[i + 1].start
  }

  /** What two whole tables hold, if they are sound: both sums right, equal, and no two partitions overlapping. */
  function TableEntries(primary: Header, backup: Header, table: seq<Byte>, other: seq<Byte>): Option<seq<Entry>> {
    var entries := Slots(table, 1);
    if Checksum(table) != primary.crcParts || Checksum(other) != backup.crcParts || table != other then None
    else if !AllUsable(entries, primary) || !Separated(Sort(ByStart, entries)) then None
    else Some(Sort(ByStart, entries))
  }

  /** The declared table of a header: its slots and no padding. */
  function Table(image: seq<Byte>, h: Header): (table: seq<Byte>)
    requires (h.partStart + TableBlocks(h)) * SECTOR_SIZE <= |image|
    ensures |table| == h.numParts * RECORD_SIZE
  {
    Slice(image, h.partStart * SECTOR_SIZE, h.numParts * RECORD_SIZE)
  }

  lemma {:induction false} SlotsConcat(a: seq<Byte>, b: seq<Byte>, number: nat)
    requires |a| % RECORD_SIZE == 0
    ensures Slots(a + b, number) == Slots(a, number) + Slots(b, number + |a| / RECORD_SIZE)
    decreases |a|
  {
    hide Slots;
    if a == [] {
      NoSlots(a, number);
      assert a + b == b;
    } else {
      var rest, count := a[RECORD_SIZE..], |a| / RECORD_SIZE;
      SlotCount(|a|, count);
      SlotsConcat(rest, b, number + 1);
      FrontSlices(a, b);
      FirstSlot(a, number);
      FirstSlot(a + b, number);
      Assoc(FirstOf(a, number), Slots(rest, number + 1), Slots(b, number + count));
    }
  }

  /** The entry of the first slot, if it is occupied. */
  function FirstOf(table: seq<Byte>, number: nat): seq<Entry>
    requires |table| >= RECORD_SIZE
  {
    var r := RecordOf(table[..RECORD_SIZE]);
    if r.Used() then [EntryOf(number, r)] else []
  }

  lemma FirstSlot(table: seq<Byte>, number: nat)
    requires |table| >= RECORD_SIZE
    ensures Slots(table, number) == FirstOf(table, number) + Slots(table[RECORD_SIZE..], number + 1)
  {
    hide RecordOf, EntryOf;
  }

  lemma SlotCount(length: nat, count: nat)
    requires length > 0 && length % RECORD_SIZE == 0 && count == length / RECORD_SIZE
    ensures length >= RECORD_SIZE && (length - RECORD_SIZE) % RECORD_SIZE == 0
    ensures (length - RECORD_SIZE) / RECORD_SIZE == count - 1
  {
    assert length == RECORD_SIZE * count;
    assert length - RECORD_SIZE == RECORD_SIZE * (count - 1);
  }

  lemma FrontSlices(a: seq<Byte>, b: seq<Byte>)
    requires |a| >= RECORD_SIZE
    ensures (a + b)[..RECORD_SIZE] == a[..RECORD_SIZE] && (a + b)[RECORD_SIZE..] == a[RECORD_SIZE..] + b
  {
  }

  /** The occupied slots of one block, each in bounds. */
  method BlockEntries(bytes: seq<Byte>, number: nat, primary: Header) returns (entries: Option<seq<Entry>>)
    requires |bytes| % RECORD_SIZE == 0
    ensures entries == if AllUsable(Slots(bytes, number), primary) then Some(Slots(bytes, number)) else None
  {
    hide RecordOf, EntryOf, Usable, Slots;
    var found: seq<Entry> := [];
    var count := |bytes| / RECORD_SIZE;
    NoSlots(bytes[..0], number);
    for slot := 0 to count
      invariant found == Slots(bytes[..slot * RECORD_SIZE], number) && AllUsable(found, primary)
    {
      var at := slot * RECORD_SIZE;
      var raw := bytes[at..at + RECORD_SIZE];
      assert bytes[..(slot + 1) * RECORD_SIZE] == bytes[..at] + raw;
      assert bytes == bytes[..(slot + 1) * RECORD_SIZE] + bytes[(slot + 1) * RECORD_SIZE..];
      SlotsConcat(bytes[..at], raw, number);
      SlotsConcat(bytes[..(slot + 1) * RECORD_SIZE], bytes[(slot + 1) * RECORD_SIZE..], number);
      OneSlot(raw, number + slot);
      var r := RecordOf(raw);
      if r.Used() {
        var entry := EntryOf(number + slot, r);
        if !Usable(entry, primary) {
          assert entry in Slots(bytes, number);
          return None;
        }
        found := found + [entry];
      }
    }
    assert bytes[..count * RECORD_SIZE] == bytes;
    return Some(found);
  }

  lemma NoSlots(bytes: seq<Byte>, number: nat)
    requires bytes == []
    ensures Slots(bytes, number) == []
  {
  }

  lemma OneSlot(raw: seq<Byte>, number: nat)
    requires |raw| == RECORD_SIZE
    ensures var r := RecordOf(raw); Slots(raw, number) == if r.Used() then [EntryOf(number, r)] else []
  {
    hide RecordOf, EntryOf;
    assert raw[..RECORD_SIZE] == raw && raw[RECORD_SIZE..] == [];
  }

  /** The position of the first difference. */
  method FirstDifference(a: seq<Byte>, b: seq<Byte>) returns (position: Option<nat>)
    requires |a| == |b|
    ensures position.None? <==> a == b
    ensures position.Some? ==> position.value < |a| && a[position.value] != b[position.value] &&
                               a[..position.value] == b[..position.value]
  {
    for i := 0 to |a|
      invariant a[..i] == b[..i]
    {
      if a[i] != b[i] {
        return Some(i);
      }
      assert a[..i + 1] == a[..i] + [a[i]] && b[..i + 1] == b[..i] + [b[i]];
    }
    assert a[..|a|] == a && b[..|b|] == b;
    return None;
  }

  /** A block of a table, cut to the declared length, is the table's piece there. */
  lemma TablePiece(image: seq<Byte>, h: Header, offset: nat, used: nat)
    requires (h.partStart + TableBlocks(h)) * SECTOR_SIZE <= |image| && |image| < U64
    requires offset % SECTOR_SIZE == 0 && offset < h.numParts * RECORD_SIZE
    requires used <= SECTOR_SIZE && offset + used <= h.numParts * RECORD_SIZE
    ensures
      var lba, table := h.partStart + offset / SECTOR_SIZE, Table(image, h);
      && BlockAt(image, lba).Some?
      && BlockAt(image, lba).value[..used] == table[offset..offset + used]
      && table[..offset + used] == table[..offset] + table[offset..offset + used]
  {
    var lba := h.partStart + offset / SECTOR_SIZE;
    assert offset / SECTOR_SIZE < TableBlocks(h);
    assert lba * SECTOR_SIZE == h.partStart * SECTOR_SIZE + offset;
    SlicePiece(image, h.partStart * SECTOR_SIZE, h.numParts * RECORD_SIZE, offset, used);
    SlicePiece(image, lba * SECTOR_SIZE, SECTOR_SIZE, 0, used);
  }

  lemma SlicePiece(image: seq<Byte>, from: nat, count: nat, offset: nat, used: nat)
    requires from + count <= |image| && offset + used <= count
    ensures Slice(image, from, count)[offset..offset + used] == Slice(image, from + offset, used)
    ensures Slice(image, from, count)[..used] == Slice(image, from, used)
  {
    var whole, piece := image[from..from + count], image[from + offset..from + offset + used];
    forall i | 0 <= i < used
      ensures whole[offset..offset + used][i] == piece[i]
    {
      assert whole[offset + i] == image[from + (offset + i)];
      assert piece[i] == image[from + offset + i];
    }
    assert whole[offset..offset + used] == piece;
  }

  lemma Aligned(offset: nat, length: nat)
    requires offset % SECTOR_SIZE == 0 && length % RECORD_SIZE == 0 && offset < length
    ensures offset % RECORD_SIZE == 0 && (offset + SECTOR_SIZE) % SECTOR_SIZE == 0
    ensures (length - offset) % RECORD_SIZE == 0 && SECTOR_SIZE % RECORD_SIZE == 0
  {
  }

  /** How far the streaming check has come: what it knows after `done` bytes of both tables. */
  ghost predicate Streamed(table: seq<Byte>, other: seq<Byte>, done: nat, sum: bv32, otherSum: bv32, same: bool,
                           found: seq<Entry>, h: Header)
  {
    && done <= |table| == |other|
    && sum == Crc.Update(ONES, table[..done]) && otherSum == Crc.Update(ONES, other[..done])
    && (same <==> table[..done] == other[..done])
    && found == Slots(table[..done], 1) && AllUsable(found, h)
  }

  lemma StreamStart(table: seq<Byte>, other: seq<Byte>, h: Header)
    requires |table| == |other|
    ensures Streamed(table, other, 0, ONES, ONES, true, [], h)
  {
    assert table[..0] == [] && other[..0] == [];
  }

  lemma StreamStep(table: seq<Byte>, other: seq<Byte>, done: nat, sum: bv32, otherSum: bv32, same: bool,
                   found: seq<Entry>, h: Header, used: nat)
    requires Streamed(table, other, done, sum, otherSum, same, found, h)
    requires done % RECORD_SIZE == 0 && used % RECORD_SIZE == 0 && done + used <= |table|
    ensures
      var piece, pair := table[done..done + used], other[done..done + used];
      var more := Slots(piece, done / RECORD_SIZE + 1);
      if AllUsable(more, h) then
        Streamed(table, other, done + used, Crc.Update(sum, piece), Crc.Update(otherSum, pair), same && piece == pair,
                 found + more, h)
      else !AllUsable(Slots(table, 1), h)
  {
    hide Crc.Update, Slots, Usable;
    var piece, pair := table[done..done + used], other[done..done + used];
    assert table[..done + used] == table[..done] + piece && other[..done + used] == other[..done] + pair;
    Streams(ONES, table[..done], piece);
    Streams(ONES, other[..done], pair);
    PiecesEqual(table[..done], other[..done], piece, pair);
    SlotsConcat(table[..done], piece, 1);
    if !AllUsable(Slots(piece, done / RECORD_SIZE + 1), h) {
      Unusable(table, done + used, h);
    }
  }

  lemma StreamEnd(table: seq<Byte>, other: seq<Byte>, sum: bv32, otherSum: bv32, same: bool, found: seq<Entry>, h: Header)
    requires Streamed(table, other, |table|, sum, otherSum, same, found, h)
    ensures Finalize(sum) == Checksum(table) && Finalize(otherSum) == Checksum(other) && (same <==> table == other)
    ensures found == Slots(table, 1) && AllUsable(found, h)
  {
    hide Crc.Update, Slots, Usable;
    assert table[..|table|] == table && other[..|other|] == other;
  }

  /** Headers that lie apart place both tables, of the same length, before the backup header. */
  /** The slots of one block of a declared table, without its padding. */
  method TableBlock(device: Device, h: Header, offset: nat, used: nat) returns (piece: seq<Byte>)
    requires (h.partStart + TableBlocks(h)) * SECTOR_SIZE <= |device.image| < U64
    requires offset % SECTOR_SIZE == 0 && offset < h.numParts * RECORD_SIZE
    requires used <= SECTOR_SIZE && offset + used <= h.numParts * RECORD_SIZE
    modifies device`position
    ensures piece == Table(device.image, h)[offset..offset + used]
  {
    hide Table, BlockAt, TableBlocks;
    TablePiece(device.image, h, offset, used);
    var block := device.Block(h.partStart + offset / SECTOR_SIZE);
    piece := block.value[..used];
  }

  lemma TablesOnDevice(image: seq<Byte>, primary: Header, backup: Header)
    requires Agree(primary, backup) && Apart(primary, backup) && backup.currentLba * SECTOR_SIZE <= |image|
    ensures (primary.partStart + TableBlocks(primary)) * SECTOR_SIZE <= |image|
    ensures (backup.partStart + TableBlocks(backup)) * SECTOR_SIZE <= |image|
    ensures backup.numParts == primary.numParts
  {
  }

  /**
    The streaming table check: it accepts exactly what the check of the whole
    tables accepts, whatever the padding after them is.
    */
  method Entries(device: Device, primary: Header, backup: Header) returns (entries: Option<seq<Entry>>)
    requires primary.numParts <= MAX_ENTRIES && Agree(primary, backup) && Apart(primary, backup)
    requires backup.currentLba * SECTOR_SIZE <= |device.image| < U64
    modifies device`position
    ensures entries == TableEntries(primary, backup, Table(device.image, primary), Table(device.image, backup))
  {
    hide Streamed, Slots, AllUsable, Table, BlockAt, Sort, Separated, Crc.Update, Finalize, Checksum,
         Agree, Apart, TableBlocks;
    TablesOnDevice(device.image, primary, backup);
    ghost var table, other := Table(device.image, primary), Table(device.image, backup);
    var length := primary.numParts * RECORD_SIZE;
    var primaryCrc, backupCrc := ONES, ONES;
    var disagreement: Option<nat> := None;
    var found: seq<Entry> := [];
    StreamStart(table, other, primary);
    var offset := 0;
    ghost var done: nat := 0;
    while offset < length
      invariant offset % SECTOR_SIZE == 0 && done == (if offset < length then offset else length)
      invariant Streamed(table, other, done, primaryCrc, backupCrc, disagreement == None, found, primary)
      decreases length - offset
    {
      var used := if length - offset < SECTOR_SIZE then length - offset else SECTOR_SIZE;
      Aligned(offset, length);
      var block := TableBlock(device, primary, offset, used);
      var twin := TableBlock(device, backup, offset, used);
      StreamStep(table, other, offset, primaryCrc, backupCrc, disagreement == None, found, primary, used);
      primaryCrc := Crc.Update(primaryCrc, block);
      backupCrc := Crc.Update(backupCrc, twin);
      if disagreement == None {
        var byte := FirstDifference(block, twin);
        disagreement := if byte == None then None else Some((offset + byte.value) / RECORD_SIZE + 1);
      }
      var more := BlockEntries(block, offset / RECORD_SIZE + 1, primary);
      if more == None {
        return None;
      }
      found := found + more.value;
      done := offset + used;
      offset := offset + SECTOR_SIZE;
    }
    StreamEnd(table, other, primaryCrc, backupCrc, disagreement == None, found, primary);
    if Finalize(primaryCrc) != primary.crcParts || Finalize(backupCrc) != backup.crcParts || disagreement != None {
      return None;
    }
    found := Sort(ByStart, found);
    if !Separated(found) {
      return None;
    }
    return Some(found);
  }

  lemma PiecesEqual(a: seq<Byte>, b: seq<Byte>, c: seq<Byte>, d: seq<Byte>)
    requires |a| == |b|
    ensures a + c == b + d <==> a == b && c == d
  {
    if a + c == b + d {
      assert a == (a + c)[..|a|] && b == (b + d)[..|b|];
      assert c == (a + c)[|a|..] && d == (b + d)[|b|..];
    }
  }

  /** A slot out of bounds in a prefix of the table refuses the table. */
  lemma Unusable(table: seq<Byte>, done: nat, h: Header)
    requires done <= |table| && done % RECORD_SIZE == 0 && !AllUsable(Slots(table[..done], 1), h)
    ensures !AllUsable(Slots(table, 1), h)
  {
    hide Slots, Usable;
    SlotsConcat(table[..done], table[done..], 1);
    assert table == table[..done] + table[done..];
  }

  // ---- Discovery ----

  /** An extent in 512-byte device-mapper sectors. */
  datatype Partition = Partition(start: nat, sectors: nat)

  datatype Disk = Disk(root: Partition, esp: Option<Partition>)

  function Extent(e: Entry): Option<Partition> {
    if e.start * 8 >= U64 || e.end < e.start || e.end - e.start + 1 >= U64 || (e.end - e.start + 1) * 8 >= U64 then None
    else Some(Partition(e.start * 8, (e.end - e.start + 1) * 8))
  }

  function Select(entries: seq<Entry>, wanted: Entry -> bool): seq<Entry> {
    if entries == [] then []
    else (if wanted(entries[0]) then [entries[0]] else []) + Select(entries[1..], wanted)
  }

  function Roots(entries: seq<Entry>, rootType: Uuid): seq<Entry> {
    Select(entries, (e: Entry) => e.kind == rootType && e.eligible)
  }

  function Esps(entries: seq<Entry>): seq<Entry> {
    Select(entries, (e: Entry) => e.kind == ESP_TYPE)
  }

  /** Exactly one eligible root and at most one ESP. */
  function Discover(entries: seq<Entry>, rootType: Uuid): Option<Disk> {
    var roots, esps := Roots(entries, rootType), Esps(entries);
    if |roots| != 1 || |esps| > 1 then None
    else
      var root :- Extent(roots[0]);
      if esps == [] then Some(Disk(root, None))
      else
        var esp :- Extent(esps[0]);
        Some(Disk(root, Some(esp)))
  }

  // ---- The reader ----

  function HeaderAt(image: seq<Byte>, lba: nat): Option<Header> {
    var block :- BlockAt(image, lba);
    HeaderIn(block)
  }

  predicate ValidCapacity(limit: Limit, capacity: nat) {
    capacity <= limit && capacity % SECTOR_SIZE == 0 && capacity >= 12 * SECTOR_SIZE
  }

  /** Both headers of an image, if they are sound and fit the capacity. */
  function HeadersIn(image: seq<Byte>, capacity: nat): Option<(Header, Header)> {
    var primary :- HeaderAt(image, 1);
    if primary.currentLba != 1 || !(11 <= primary.backupLba < capacity / SECTOR_SIZE) then None
    else
      var backup :- HeaderAt(image, primary.backupLba);
      if Agree(primary, backup) && Apart(primary, backup) then Some((primary, backup)) else None
  }

  /** Both tables lie before the backup header, which is on the device. */
  lemma TablesFit(image: seq<Byte>, capacity: nat)
    requires HeadersIn(image, capacity).Some?
    ensures
      var (primary, backup) := HeadersIn(image, capacity).value;
      && (backup.currentLba + 1) * SECTOR_SIZE <= |image|
      && backup.currentLba == primary.backupLba
      && backup.currentLba * SECTOR_SIZE < U64 && backup.currentLba + 1 <= capacity / SECTOR_SIZE
      && primary.numParts <= MAX_ENTRIES && Agree(primary, backup) && Apart(primary, backup)
      && (primary.partStart + TableBlocks(primary)) * SECTOR_SIZE <= |image|
      && (backup.partStart + TableBlocks(backup)) * SECTOR_SIZE <= |image|
      && TableBlocks(backup) == TableBlocks(primary)
  {
    hide HeaderOf, Crc.Update;
  }

  /** What a whole image holds for a backing capacity and a root type. */
  function DiskIn(limit: Limit, image: seq<Byte>, capacity: nat, rootType: Uuid): Option<Disk> {
    if !ValidCapacity(limit, capacity) then None
    else
      var (primary, backup) :- HeadersIn(image, capacity);
      var mbr :- BlockAt(image, 0);
      if !ProtectiveMbr(mbr, backup.currentLba + 1) then None
      else
        TablesFit(image, capacity);
        var entries :- TableEntries(primary, backup, Table(image, primary), Table(image, backup));
        Discover(entries, rootType)
  }

  /** Read the root and ESP of a disk; only the read position changes. */
  method Read(limit: Limit, device: Device, capacity: nat, rootType: Uuid) returns (disk: Option<Disk>)
    requires |device.image| < U64
    modifies device`position
    ensures disk == DiskIn(limit, device.image, capacity, rootType)
  {
    hide HeaderIn, ProtectiveMbr, Agree, Apart, TableEntries, Discover, Table, TableBlocks, BlockAt;
    if capacity > limit || capacity % SECTOR_SIZE != 0 || capacity < 12 * SECTOR_SIZE {
      return None;
    }
    var primary := HeaderFrom(device, 1);
    if primary == None {
      return None;
    }
    var end := primary.value.backupLba;
    if primary.value.currentLba != 1 || !(11 <= end < capacity / SECTOR_SIZE) {
      return None;
    }
    var backup := HeaderFrom(device, end);
    if backup == None {
      return None;
    }
    HeaderBounds(device.image, 1);
    var agreed := ValidateHeaders(primary.value, backup.value);
    if !agreed {
      return None;
    }
    TablesFit(device.image, capacity);
    var mbr := device.Block(0);
    if mbr == None {
      return None;
    }
    var protected_ := CheckMbr(mbr.value, end + 1);
    if !protected_ {
      return None;
    }
    var entries := Entries(device, primary.value, backup.value);
    if entries == None {
      return None;
    }
    return Discover(entries.value, rootType);
  }

  method HeaderFrom(device: Device, lba: nat) returns (header: Option<Header>)
    modifies device`position
    ensures header == HeaderAt(device.image, lba)
  {
    hide HeaderIn, BlockAt;
    var block := device.Block(lba);
    if block == None {
      return None;
    }
    header := ReadHeader(block.value);
  }

  lemma HeaderBounds(image: seq<Byte>, lba: nat)
    requires HeaderAt(image, lba).Some?
    ensures HeaderAt(image, lba).value.numParts <= MAX_ENTRIES
  {
    hide HeaderOf, Crc.Update;
  }
}
