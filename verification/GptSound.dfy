/** What an accepted GPT disk guarantees. */
module GptSound {
  import opened Wrappers
  import opened Bytes
  import opened Orders
  import opened Crc
  import opened Gpt
  import opened Devices
  import opened GptReader

  /** The record of slot `k`. */
  function SlotAt(table: seq<Byte>, k: nat): Record
    requires (k + 1) * RECORD_SIZE <= |table|
  {
    RecordOf(table[k * RECORD_SIZE..(k + 1) * RECORD_SIZE])
  }

  /** `e` is the partition in slot `k`, with slots numbered from `number`. */
  ghost predicate OccupiesAt(table: seq<Byte>, number: nat, k: nat, e: Entry) {
    && (k + 1) * RECORD_SIZE <= |table|
    && SlotAt(table, k).Used() && e == EntryOf(number + k, SlotAt(table, k))
  }

  /** `e` is the partition in some occupied slot, numbered from `number`. */
  ghost predicate Occupies(table: seq<Byte>, number: nat, e: Entry) {
    exists k: nat :: OccupiesAt(table, number, k, e)
  }

  ghost predicate Numbered(entries: seq<Entry>, number: nat) {
    && (forall i | 0 <= i < |entries| :: number <= entries[i].number)
    && forall i, j | 0 <= i < j < |entries| :: entries[i].number < entries[j].number
  }

  lemma {:induction false} SlotsNumbered(table: seq<Byte>, number: nat)
    ensures Numbered(Slots(table, number), number)
    decreases |table|
  {
    hide RecordOf;
    if |table| >= RECORD_SIZE {
      SlotsNumbered(table[RECORD_SIZE..], number + 1);
      var r, tail := RecordOf(table[..RECORD_SIZE]), Slots(table[RECORD_SIZE..], number + 1);
      if r.Used() {
        NumberedCons(EntryOf(number, r), tail, number);
      } else {
        assert Slots(table, number) == tail;
      }
    }
  }

  lemma NumberedCons(e: Entry, tail: seq<Entry>, number: nat)
    requires e.number == number && Numbered(tail, number + 1)
    ensures Numbered([e] + tail, number)
  {
  }

  /** Dropping the first slot shifts the others by one. */
  lemma SlotShift(table: seq<Byte>, number: nat, k: nat, e: Entry)
    requires |table| >= RECORD_SIZE
    ensures OccupiesAt(table[RECORD_SIZE..], number + 1, k, e) <==> OccupiesAt(table, number, k + 1, e)
  {
    hide RecordOf, EntryOf;
    var rest := table[RECORD_SIZE..];
    if (k + 1) * RECORD_SIZE <= |rest| {
      assert rest[k * RECORD_SIZE..(k + 1) * RECORD_SIZE] == table[(k + 1) * RECORD_SIZE..(k + 2) * RECORD_SIZE];
    }
  }

  lemma FirstOccupies(table: seq<Byte>, number: nat, e: Entry)
    requires |table| >= RECORD_SIZE
    ensures e in FirstOf(table, number) <==> OccupiesAt(table, number, 0, e)
  {
    hide RecordOf, EntryOf;
    assert table[0 * RECORD_SIZE..(0 + 1) * RECORD_SIZE] == table[..RECORD_SIZE];
  }

  /** The decoded entries are exactly the occupied slots. */
  lemma {:induction false} SlotsExactly(table: seq<Byte>, number: nat)
    ensures forall e :: e in Slots(table, number) <==> Occupies(table, number, e)
    decreases |table|
  {
    hide OccupiesAt, FirstOf;
    forall e
      ensures e in Slots(table, number) <==> Occupies(table, number, e)
    {
      if |table| < RECORD_SIZE {
        NoneOccupied(table, number, e);
      } else {
        SlotsExactly(table[RECORD_SIZE..], number + 1);
        FirstSlot(table, number);
        hide Slots;
        FirstOccupies(table, number, e);
        OccupiesSplit(table, number, e);
      }
    }
  }

  lemma NoneOccupied(table: seq<Byte>, number: nat, e: Entry)
    requires |table| < RECORD_SIZE
    ensures !Occupies(table, number, e)
  {
  }

  lemma OccupiesSplit(table: seq<Byte>, number: nat, e: Entry)
    requires |table| >= RECORD_SIZE
    ensures Occupies(table, number, e) <==>
            OccupiesAt(table, number, 0, e) || Occupies(table[RECORD_SIZE..], number + 1, e)
  {
    hide OccupiesAt;
    if k: nat :| OccupiesAt(table, number, k, e) {
      if k > 0 {
        SlotShift(table, number, k - 1, e);
        assert OccupiesAt(table[RECORD_SIZE..], number + 1, k - 1, e);
      }
    }
    var rest, next := table[RECORD_SIZE..], number + 1;
    if k: nat :| OccupiesAt(rest, next, k, e) {
      SlotShift(table, number, k, e);
    }
  }

  // ---- Sorting by start ----

  ghost predicate Ordered(entries: seq<Entry>) {
    forall i, j | 0 <= i < j < |entries| :: entries[i].start <= entries[j].start
  }

  /** An element that starts no later than all others, in front of them. */
  lemma ConsOrdered(e: Entry, tail: seq<Entry>)
    requires Ordered(tail) && Distinct(tail) && forall other <- tail :: e.start <= other.start && other != e
    ensures Ordered([e] + tail) && Distinct([e] + tail)
  {
    assert forall i | 0 <= i < |tail| :: tail[i] in tail;
  }

  lemma OrderedHead(entries: seq<Entry>)
    requires Ordered(entries) && Distinct(entries) && entries != []
    ensures Ordered(entries[1..]) && Distinct(entries[1..])
    ensures forall other <- entries[1..] :: entries[0].start <= other.start && other != entries[0]
  {
    forall other | other in entries[1..]
      ensures entries[0].start <= other.start && other != entries[0]
    {
      var i :| 1 <= i < |entries| && entries[i] == other;
    }
  }

  lemma {:induction false} InsertMembers(e: Entry, entries: seq<Entry>)
    ensures forall other :: other in Insert(ByStart, e, entries) <==> other == e || other in entries
  {
    if entries != [] && ByStart(entries[0], e) {
      InsertMembers(e, entries[1..]);
      assert forall other :: other in entries <==> other == entries[0] || other in entries[1..];
    }
  }

  lemma {:induction false} InsertOrdered(e: Entry, entries: seq<Entry>)
    requires Ordered(entries) && Distinct(entries) && e !in entries
    ensures Ordered(Insert(ByStart, e, entries)) && Distinct(Insert(ByStart, e, entries))
  {
    hide Ordered, Distinct;
    if entries == [] {
      ConsOrdered(e, entries);
    } else {
      OrderedHead(entries);
      assert entries[0] in entries && forall other <- entries[1..] :: other in entries;
      assert forall other <- entries :: other == entries[0] || other in entries[1..];
      if ByStart(entries[0], e) {
        InsertOrdered(e, entries[1..]);
        InsertMembers(e, entries[1..]);
        ConsOrdered(entries[0], Insert(ByStart, e, entries[1..]));
      } else {
        ConsOrdered(e, entries);
      }
    }
  }

  lemma {:induction false} SortOrdered(entries: seq<Entry>)
    requires Distinct(entries)
    ensures Ordered(Sort(ByStart, entries)) && Distinct(Sort(ByStart, entries))
    ensures forall e :: e in Sort(ByStart, entries) <==> e in entries
  {
    if entries != [] {
      SortOrdered(entries[1..]);
      assert forall e :: e in entries <==> e == entries[0] || e in entries[1..];
      InsertOrdered(entries[0], Sort(ByStart, entries[1..]));
      InsertMembers(entries[0], Sort(ByStart, entries[1..]));
    }
  }

  // ---- Overlap ----

  predicate Disjoint(a: Entry, b: Entry) {
    a.end < b.start || b.end < a.start
  }

  ghost predicate PairwiseDisjoint(entries: seq<Entry>) {
    forall a, b | a in entries && b in entries && a != b :: Disjoint(a, b)
  }

  lemma {:induction false} SeparatedChain(entries: seq<Entry>, i: nat, j: nat)
    requires Separated(entries) && i < j < |entries| && forall e <- entries :: e.start <= e.end
    ensures entries[i].end < entries[j].start
    decreases j
  {
    if i < j - 1 {
      SeparatedChain(entries, i, j - 1);
      assert entries[j - 1] in entries;
    }
  }

  /** Checking sorted neighbours decides whether any two partitions overlap. */
  lemma NeighboursDecide(entries: seq<Entry>)
    requires Distinct(entries) && forall e <- entries :: e.start <= e.end
    ensures Separated(Sort(ByStart, entries)) <==> PairwiseDisjoint(entries)
  {
    hide Sort, Separated, Disjoint;
    SortOrdered(entries);
    var sorted := Sort(ByStart, entries);
    if Separated(sorted) {
      forall a, b | a in entries && b in entries && a != b
        ensures Disjoint(a, b)
      {
        SeparatedDisjoint(sorted, a, b);
      }
    }
    if PairwiseDisjoint(sorted) {
      DisjointSeparated(sorted);
    }
  }

  lemma SeparatedDisjoint(sorted: seq<Entry>, a: Entry, b: Entry)
    requires Separated(sorted) && (forall e <- sorted :: e.start <= e.end)
    requires a in sorted && b in sorted && a != b
    ensures Disjoint(a, b)
  {
    hide Separated;
    var i :| 0 <= i < |sorted| && sorted[i] == a;
    var j :| 0 <= j < |sorted| && sorted[j] == b;
    if i < j {
      SeparatedChain(sorted, i, j);
    } else {
      SeparatedChain(sorted, j, i);
    }
  }

  lemma DisjointSeparated(sorted: seq<Entry>)
    requires Ordered(sorted) && Distinct(sorted) && PairwiseDisjoint(sorted) && forall e <- sorted :: e.start <= e.end
    ensures Separated(sorted)
  {
    forall i | 0 <= i < |sorted| - 1
      ensures sorted[i].end < sorted[i + 1].start
    {
      assert sorted[i] in sorted && sorted[i + 1] in sorted;
      assert Disjoint(sorted[i], sorted[i + 1]);
    }
  }

  /**
    The table check accepts exactly two equal tables with the right sums whose
    occupied slots are in bounds and pairwise disjoint, and yields those slots.
    */
  lemma TableAcceptedExactly(primary: Header, backup: Header, table: seq<Byte>, other: seq<Byte>)
    ensures TableEntries(primary, backup, table, other).Some? <==>
              && Checksum(table) == primary.crcParts && Checksum(other) == backup.crcParts && table == other
              && (forall e | Occupies(table, 1, e) :: Usable(e, primary))
              && (forall a, b | Occupies(table, 1, a) && Occupies(table, 1, b) && a.number != b.number :: Disjoint(a, b))
    ensures TableEntries(primary, backup, table, other).Some? ==>
              var entries := TableEntries(primary, backup, table, other).value;
              Distinct(entries) && forall e :: e in entries <==> Occupies(table, 1, e)
  {
    hide Checksum, Occupies, Slots, Sort, Separated;
    var entries := Slots(table, 1);
    SlotsExactly(table, 1);
    SlotsNumbered(table, 1);
    assert Distinct(entries);
    SortOrdered(entries);
    NumbersDiffer(entries);
    if AllUsable(entries, primary) {
      NeighboursDecide(entries);
    }
  }

  lemma NumbersDiffer(entries: seq<Entry>)
    requires forall i, j | 0 <= i < j < |entries| :: entries[i].number < entries[j].number
    ensures forall a, b | a in entries && b in entries :: a == b <==> a.number == b.number
  {
  }

  // ---- Discovery ----

  lemma {:induction false} SelectMembers(entries: seq<Entry>, wanted: Entry -> bool)
    ensures forall e :: e in Select(entries, wanted) <==> e in entries && wanted(e)
  {
    if entries != [] {
      SelectMembers(entries[1..], wanted);
      assert forall e :: e in entries <==> e == entries[0] || e in entries[1..];
    }
  }

  predicate IsRoot(e: Entry, rootType: Uuid) {
    e.kind == rootType && e.eligible
  }

  lemma DiscoveredOnly(entries: seq<Entry>, rootType: Uuid)
    requires Discover(entries, rootType).Some?
    ensures
      var disk := Discover(entries, rootType).value;
      && (exists e | e in entries && IsRoot(e, rootType) ::
            Extent(e) == Some(disk.root) && forall o <- entries | IsRoot(o, rootType) :: o == e)
      && match disk.esp
         case None => forall o <- entries :: o.kind != ESP_TYPE
         case Some(esp) => exists e | e in entries && e.kind == ESP_TYPE ::
             Extent(e) == Some(esp) && forall o <- entries | o.kind == ESP_TYPE :: o == e
  {
    hide Extent, Select;
    var isRoot, isEsp := (e: Entry) => e.kind == rootType && e.eligible, (e: Entry) => e.kind == ESP_TYPE;
    SelectMembers(entries, isRoot);
    SelectMembers(entries, isEsp);
    var roots, esps := Roots(entries, rootType), Esps(entries);
    assert roots[0] in roots;
    forall o | o in entries && IsRoot(o, rootType)
      ensures o == roots[0]
    {
      assert o in roots;
    }
    forall o | o in entries && o.kind == ESP_TYPE
      ensures |esps| == 1 && o == esps[0]
    {
      assert o in esps;
    }
    if |esps| == 1 {
      assert esps[0] in esps;
    }
  }

  /** An extent in bytes. */
  function From(p: Partition): nat {
    p.start * 512
  }

  function To(p: Partition): nat {
    (p.start + p.sectors) * 512
  }

  /**
    A sound disk: headers, tables and partitions lie apart inside the capacity,
    both tables are the declared ones, occupied slots are pairwise disjoint and
    usable, and the extents are those of the one eligible root and the only ESP.
    */
  ghost predicate SoundDisk(limit: Limit, image: seq<Byte>, capacity: nat, rootType: Uuid,
                            primary: Header, backup: Header, disk: Disk)
  {
    var end, blocks := primary.backupLba, TableBlocks(primary);
    && (end + 1) * SECTOR_SIZE <= capacity <= limit && (end + 1) * SECTOR_SIZE <= |image|
    && 1 < primary.partStart && backup.partStart + blocks <= end && blocks == TableBlocks(backup)
    && primary.partStart + blocks <= primary.firstUsable <= primary.lastUsable < backup.partStart
    && var table := Table(image, primary);
       && table == Table(image, backup) && Checksum(table) == primary.crcParts == backup.crcParts
       && (forall e | Occupies(table, 1, e) :: Usable(e, primary))
       && (forall a, b | Occupies(table, 1, a) && Occupies(table, 1, b) && a.number != b.number :: Disjoint(a, b))
       && OnlyRoot(table, rootType, disk.root)
       && match disk.esp
          case None => forall o | Occupies(table, 1, o) :: o.kind != ESP_TYPE
          case Some(esp) => OnlyEsp(table, esp)
  }

  ghost predicate OnlyRoot(table: seq<Byte>, rootType: Uuid, root: Partition) {
    exists e | Occupies(table, 1, e) && IsRoot(e, rootType) ::
      Extent(e) == Some(root) && forall o | Occupies(table, 1, o) && IsRoot(o, rootType) :: o == e
  }

  ghost predicate OnlyEsp(table: seq<Byte>, esp: Partition) {
    exists e | Occupies(table, 1, e) && e.kind == ESP_TYPE ::
      Extent(e) == Some(esp) && forall o | Occupies(table, 1, o) && o.kind == ESP_TYPE :: o == e
  }

  /** Whatever the reader accepts is sound. */
  lemma AcceptedIsSound(limit: Limit, image: seq<Byte>, capacity: nat, rootType: Uuid)
    requires DiskIn(limit, image, capacity, rootType).Some?
    ensures HeadersIn(image, capacity).Some?
    ensures SoundDisk(limit, image, capacity, rootType, HeadersIn(image, capacity).value.0,
                      HeadersIn(image, capacity).value.1, DiskIn(limit, image, capacity, rootType).value)
  {
    hide Occupies, HeadersIn, Table, TableEntries, Discover, ProtectiveMbr, TableBlocks, Disjoint, Extent, Checksum;
    TablesFit(image, capacity);
    var (primary, backup) := HeadersIn(image, capacity).value;
    var table, other := Table(image, primary), Table(image, backup);
    var entries := TableEntries(primary, backup, table, other).value;
    TableAcceptedExactly(primary, backup, table, other);
    DiscoveredOnly(entries, rootType);
  }

  /**
    The byte extents of the partitions of a sound disk: they convert without
    overflow, lie between the tables and inside the capacity, and do not overlap.
    */
  lemma SoundExtents(limit: Limit, image: seq<Byte>, capacity: nat, rootType: Uuid, primary: Header, backup: Header,
                     disk: Disk, a: Entry, b: Entry)
    requires SoundDisk(limit, image, capacity, rootType, primary, backup, disk)
    requires Occupies(Table(image, primary), 1, a) && Occupies(Table(image, primary), 1, b)
    ensures Extent(a).Some? && Extent(b).Some?
    ensures
      var (p, q) := (Extent(a).value, Extent(b).value);
      && (primary.partStart + TableBlocks(primary)) * SECTOR_SIZE <= From(p)
      && From(p) < To(p) <= backup.partStart * SECTOR_SIZE <= capacity
      && (a.number != b.number ==> To(p) <= From(q) || To(q) <= From(p))
  {
    hide Occupies, Table, OnlyRoot, OnlyEsp, Checksum;
    assert Usable(a, primary) && Usable(b, primary);
    assert backup.partStart * SECTOR_SIZE <= capacity;
  }

  // ---- What the reader looks at ----

  /** Two images with the same first `capacity` bytes. */
  ghost predicate SameDisk(a: seq<Byte>, b: seq<Byte>, capacity: nat) {
    capacity <= |a| && capacity <= |b| && a[..capacity] == b[..capacity]
  }

  lemma SameSlice(a: seq<Byte>, b: seq<Byte>, capacity: nat, from: nat, count: nat)
    requires SameDisk(a, b, capacity) && from + count <= capacity
    ensures Slice(a, from, count) == Slice(b, from, count)
  {
    assert a[from..from + count] == a[..capacity][from..from + count];
    assert b[from..from + count] == b[..capacity][from..from + count];
  }

  lemma SameBlock(a: seq<Byte>, b: seq<Byte>, capacity: nat, lba: nat)
    requires SameDisk(a, b, capacity) && (lba + 1) * SECTOR_SIZE <= capacity
    ensures BlockAt(a, lba) == BlockAt(b, lba)
  {
    SameSlice(a, b, capacity, lba * SECTOR_SIZE, SECTOR_SIZE);
  }

  lemma SameHeaders(a: seq<Byte>, b: seq<Byte>, capacity: nat)
    requires SameDisk(a, b, capacity) && 2 * SECTOR_SIZE <= capacity
    ensures HeadersIn(a, capacity) == HeadersIn(b, capacity)
  {
    hide BlockAt, HeaderIn, Agree, Apart, SameDisk;
    SameBlock(a, b, capacity, 1);
    var primary := HeaderAt(a, 1);
    if primary.Some? && primary.value.backupLba < capacity / SECTOR_SIZE {
      SameBlock(a, b, capacity, primary.value.backupLba);
    }
  }

  lemma SameTable(a: seq<Byte>, b: seq<Byte>, capacity: nat, h: Header)
    requires SameDisk(a, b, capacity) && (h.partStart + TableBlocks(h)) * SECTOR_SIZE <= capacity
    ensures Table(a, h) == Table(b, h)
  {
    SameSlice(a, b, capacity, h.partStart * SECTOR_SIZE, h.numParts * RECORD_SIZE);
  }

  /**
    Whether it accepts or refuses, the reader depends on nothing outside the
    logical disk: images that agree up to its capacity read alike.
    */
  lemma CapacityOnly(limit: Limit, a: seq<Byte>, b: seq<Byte>, capacity: nat, rootType: Uuid)
    requires SameDisk(a, b, capacity)
    ensures DiskIn(limit, a, capacity, rootType) == DiskIn(limit, b, capacity, rootType)
  {
    hide HeadersIn, BlockAt, Table, TableEntries, Discover, ProtectiveMbr, SameDisk, TableBlocks;
    if ValidCapacity(limit, capacity) {
      SameHeaders(a, b, capacity);
      SameBlock(a, b, capacity, 0);
      if HeadersIn(a, capacity).Some? {
        var (primary, backup) := HeadersIn(a, capacity).value;
        TablesFit(a, capacity);
        SameTable(a, b, capacity, primary);
        SameTable(a, b, capacity, backup);
      }
    }
  }
}
