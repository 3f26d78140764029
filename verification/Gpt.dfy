/**
  The wire records of the GUID Partition Table: header, partition entry and
  protective MBR slot, as the UEFI Specification lays them out in sections
  5.2.3 and 5.3.
  */
module Gpt {
  import opened Wrappers
  import opened Bytes
  import opened Fields
  import opened Crc

  const SECTOR_SIZE := 4096
  const MAX_ENTRIES := 8192
  const NO_AUTO := 0x8000_0000_0000_0000
  const U32 := 0x1_0000_0000
  const U64 := 0x1_0000_0000_0000_0000

  /** "EFI PART" */
  const SIGNATURE: seq<Byte> := [0x45, 0x46, 0x49, 0x20, 0x50, 0x41, 0x52, 0x54]
  const REVISION := 0x0001_0000
  const HEADER_SIZE := 92
  const RECORD_SIZE := 128

  // ---- Identifiers ----

  /** An identifier in its textual byte order. */
  type Uuid = id: seq<Byte> | |id| == 16 witness Zeros(16)

  const ESP_TYPE: Uuid :=
    [0xC1, 0x2A, 0x73, 0x28, 0xF8, 0x1F, 0x11, 0xD2, 0xBA, 0x4B, 0x00, 0xA0, 0xC9, 0x3E, 0xC9, 0x3B]
  const X86_64_ROOT: Uuid :=
    [0x4F, 0x68, 0xBC, 0xE3, 0xE8, 0xCD, 0x4D, 0xB1, 0x96, 0xE7, 0xFB, 0xCA, 0xF9, 0x84, 0xB7, 0x09]
  const AARCH64_ROOT: Uuid :=
    [0xB9, 0x21, 0xB0, 0x45, 0x1D, 0xF0, 0x41, 0xC3, 0xAF, 0x44, 0x4C, 0x6F, 0x28, 0x0D, 0x3F, 0xAE]

  /** The native root type of either supported architecture. */
  predicate NativeRoot(kind: Uuid) {
    kind == X86_64_ROOT || kind == AARCH64_ROOT
  }

  /** Between textual and stored byte order: the first three groups are reversed. */
  function Swap(id: Uuid): Uuid {
    [id[3], id[2], id[1], id[0], id[5], id[4], id[7], id[6]] + id[8..]
  }

  lemma SwapSwap(id: Uuid)
    ensures Swap(Swap(id)) == id
    ensures Swap(id) == Zeros(16) <==> id == Zeros(16)
  {
    var swapped := Swap(id);
    assert swapped[8..] == id[8..];
    assert Swap(swapped) == id[..8] + id[8..];
    if swapped == Zeros(16) {
      assert forall i | 0 <= i < 16 :: swapped[i] == 0;
      assert id[0] == swapped[3] && id[1] == swapped[2] && id[2] == swapped[1] && id[3] == swapped[0];
      assert id[4] == swapped[5] && id[5] == swapped[4] && id[6] == swapped[7] && id[7] == swapped[6];
      assert id == Zeros(16);
    }
  }

  // ---- Header ----

  datatype Header = Header(
    signature: seq<Byte>, revision: nat, size: nat, crc: nat, reserved: nat,
    currentLba: nat, backupLba: nat, firstUsable: nat, lastUsable: nat, diskGuid: seq<Byte>,
    partStart: nat, numParts: nat, partSize: nat, crcParts: nat)
  {
    ghost predicate Fits() {
      && |signature| == 8 && revision < U32 && size < U32 && crc < U32 && reserved < U32
      && currentLba < U64 && backupLba < U64 && firstUsable < U64 && lastUsable < U64 && |diskGuid| == 16
      && partStart < U64 && numParts < U32 && partSize < U32 && crcParts < U32
    }
  }

  const FRONT_WIDTHS: seq<nat> := [8, 4, 4]
  const BACK_WIDTHS: seq<nat> := [4, 8, 8, 8, 8, 16, 8, 4, 4, 4]

  lemma HeaderWidths()
    ensures Total(FRONT_WIDTHS) == 16 && Total(BACK_WIDTHS) == 72
  {
    assert Total([4, 4]) == 8 by { assert Total([4]) == 4; }
    assert FRONT_WIDTHS[1..] == [4, 4];
    assert BACK_WIDTHS[1..] == [8, 8, 8, 8, 16, 8, 4, 4, 4];
    assert BACK_WIDTHS[2..] == [8, 8, 8, 16, 8, 4, 4, 4];
    assert BACK_WIDTHS[3..] == [8, 8, 16, 8, 4, 4, 4];
    assert BACK_WIDTHS[4..] == [8, 16, 8, 4, 4, 4];
    assert BACK_WIDTHS[5..] == [16, 8, 4, 4, 4];
    assert BACK_WIDTHS[6..] == [8, 4, 4, 4];
    assert BACK_WIDTHS[7..] == [4, 4, 4];
    assert BACK_WIDTHS[8..] == [4, 4];
    assert BACK_WIDTHS[9..] == [4];
  }

  function FrontFields(h: Header): seq<seq<Byte>> {
    [h.signature, Little(h.revision, 4), Little(h.size, 4)]
  }

  function BackFields(h: Header): seq<seq<Byte>> {
    [Little(h.reserved, 4), Little(h.currentLba, 8), Little(h.backupLba, 8), Little(h.firstUsable, 8),
     Little(h.lastUsable, 8), h.diskGuid, Little(h.partStart, 8), Little(h.numParts, 4),
     Little(h.partSize, 4), Little(h.crcParts, 4)]
  }

  function HeaderBytes(h: Header): seq<Byte> {
    Join(FrontFields(h)) + Little(h.crc, 4) + Join(BackFields(h))
  }

  function HeaderOf(bytes: seq<Byte>): Header
    requires |bytes| == HEADER_SIZE
  {
    HeaderWidths();
    var front, back := Cut(bytes[..16], FRONT_WIDTHS), Cut(bytes[20..], BACK_WIDTHS);
    Header(front[0], Value(front[1]), Value(front[2]), Value(bytes[16..20]), Value(back[0]),
           Value(back[1]), Value(back[2]), Value(back[3]), Value(back[4]), back[5],
           Value(back[6]), Value(back[7]), Value(back[8]), Value(back[9]))
  }

  /** The three parts of a written header. */
  lemma HeaderParts(h: Header)
    requires |h.signature| == 8 && |h.diskGuid| == 16
    ensures |HeaderBytes(h)| == HEADER_SIZE
    ensures HeaderBytes(h)[..16] == Join(FrontFields(h))
    ensures HeaderBytes(h)[16..20] == Little(h.crc, 4)
    ensures HeaderBytes(h)[20..] == Join(BackFields(h))
    ensures Cut(HeaderBytes(h)[..16], FRONT_WIDTHS) == FrontFields(h)
    ensures Cut(HeaderBytes(h)[20..], BACK_WIDTHS) == BackFields(h)
  {
    HeaderWidths();
    HeaderSized(h);
    CutJoin(FrontFields(h), FRONT_WIDTHS);
    CutJoin(BackFields(h), BACK_WIDTHS);
    hide Join, Cut, Little, FrontFields, BackFields, Sized, Total;
    ThreeParts(Join(FrontFields(h)), Little(h.crc, 4), Join(BackFields(h)));
  }

  lemma HeaderSized(h: Header)
    requires |h.signature| == 8 && |h.diskGuid| == 16
    ensures Sized(FrontFields(h), FRONT_WIDTHS) && Sized(BackFields(h), BACK_WIDTHS)
  {
    hide Little;
  }

  lemma ThreeParts(front: seq<Byte>, sum: seq<Byte>, back: seq<Byte>)
    requires |front| == 16 && |sum| == 4
    ensures var whole := front + sum + back;
      whole[..16] == front && whole[16..20] == sum && whole[20..] == back
  {
    assert (front + sum)[16..20] == sum;
  }

  /** Writing a header and reading it back is the identity. */
  lemma HeaderRoundTrip(h: Header)
    requires h.Fits()
    ensures |HeaderBytes(h)| == HEADER_SIZE && HeaderOf(HeaderBytes(h)) == h
  {
    HeaderParts(h);
    Widths();
    hide Join, Cut, Little, Value, HeaderBytes, Power;
    LittleRoundTrip(h.revision, 4);
    LittleRoundTrip(h.size, 4);
    LittleRoundTrip(h.crc, 4);
    LittleRoundTrip(h.reserved, 4);
    LittleRoundTrip(h.currentLba, 8);
    LittleRoundTrip(h.backupLba, 8);
    LittleRoundTrip(h.firstUsable, 8);
    LittleRoundTrip(h.lastUsable, 8);
    LittleRoundTrip(h.partStart, 8);
    LittleRoundTrip(h.numParts, 4);
    LittleRoundTrip(h.partSize, 4);
    LittleRoundTrip(h.crcParts, 4);
  }

  /** The bytes a header's checksum covers: its own field counts as zero. */
  function Covered(bytes: seq<Byte>): seq<Byte>
    requires |bytes| >= HEADER_SIZE
  {
    bytes[..16] + Zeros(4) + bytes[20..HEADER_SIZE]
  }

  /** What the writer sums, the header with a zero checksum, is what the reader sums. */
  lemma CoveredIsZeroed(h: Header)
    requires |h.signature| == 8 && |h.diskGuid| == 16
    ensures |HeaderBytes(h)| == HEADER_SIZE && Covered(HeaderBytes(h)) == HeaderBytes(h.(crc := 0))
  {
    var zeroed := h.(crc := 0);
    HeaderParts(h);
    ZeroField();
    assert FrontFields(zeroed) == FrontFields(h) && BackFields(zeroed) == BackFields(h);
    hide Join, Cut, Little, FrontFields, BackFields;
  }

  lemma ZeroField()
    ensures Little(0, 4) == Zeros(4)
  {
    assert Little(0, 2) == [0, 0];
  }

  /** Is the block a header with supported geometry and the right checksum? */
  function HeaderIn(block: seq<Byte>): Option<Header>
    requires |block| == SECTOR_SIZE
  {
    var h := HeaderOf(block[..HEADER_SIZE]);
    if h.signature != SIGNATURE then None
    else if || h.revision != REVISION || h.size != HEADER_SIZE || h.reserved != 0 || h.partSize != RECORD_SIZE
            || !(128 <= h.numParts <= MAX_ENTRIES) || h.diskGuid == Zeros(16)
            || !(forall b <- block[HEADER_SIZE..] :: b == 0) then None
    else if Checksum(Covered(block)) != h.crc then None
    else Some(h)
  }

  /** Read a header, feeding a running digest in three pieces. */
  method ReadHeader(block: seq<Byte>) returns (header: Option<Header>)
    requires |block| == SECTOR_SIZE
    ensures header == HeaderIn(block)
  {
    hide HeaderOf, Crc.Update, Finalize;
    var h := HeaderOf(block[..HEADER_SIZE]);
    if h.signature != SIGNATURE {
      return None;
    }
    if || h.revision != REVISION || h.size != HEADER_SIZE || h.reserved != 0 || h.partSize != RECORD_SIZE
       || !(128 <= h.numParts <= MAX_ENTRIES) || h.diskGuid == Zeros(16)
       || !(forall b <- block[HEADER_SIZE..] :: b == 0) {
      return None;
    }
    var digest := Crc.Update(ONES, block[..16]);
    digest := Crc.Update(digest, Zeros(4));
    digest := Crc.Update(digest, block[20..HEADER_SIZE]);
    Streams(ONES, block[..16], Zeros(4));
    Streams(ONES, block[..16] + Zeros(4), block[20..HEADER_SIZE]);
    if Finalize(digest) != h.crc {
      return None;
    }
    return Some(h);
  }

  // ---- Partition records ----

  datatype Record = Record(kind: seq<Byte>, identity: seq<Byte>, start: nat, end: nat, attributes: nat, name: seq<Byte>)
  {
    ghost predicate Fits() {
      && |kind| == 16 && |identity| == 16 && start < U64 && end < U64 && attributes < U64 && |name| == 72
    }

    predicate Used() {
      kind != Zeros(16)
    }
  }

  const RECORD_WIDTHS: seq<nat> := [16, 16, 8, 8, 8, 72]

  lemma RecordWidths()
    ensures Total(RECORD_WIDTHS) == RECORD_SIZE
  {
    assert RECORD_WIDTHS[1..] == [16, 8, 8, 8, 72];
    assert RECORD_WIDTHS[2..] == [8, 8, 8, 72];
    assert RECORD_WIDTHS[3..] == [8, 8, 72];
    assert RECORD_WIDTHS[4..] == [8, 72];
    assert RECORD_WIDTHS[5..] == [72];
  }

  function RecordFields(r: Record): seq<seq<Byte>> {
    [r.kind, r.identity, Little(r.start, 8), Little(r.end, 8), Little(r.attributes, 8), r.name]
  }

  function RecordBytes(r: Record): seq<Byte> {
    Join(RecordFields(r))
  }

  function RecordOf(bytes: seq<Byte>): (r: Record)
    requires |bytes| == RECORD_SIZE
    ensures |r.kind| == 16
  {
    RecordWidths();
    var fields := Cut(bytes, RECORD_WIDTHS);
    Record(fields[0], fields[1], Value(fields[2]), Value(fields[3]), Value(fields[4]), fields[5])
  }

  lemma RecordRoundTrip(r: Record)
    requires r.Fits()
    ensures |RecordBytes(r)| == RECORD_SIZE && RecordOf(RecordBytes(r)) == r
  {
    RecordWidths();
    CutJoin(RecordFields(r), RECORD_WIDTHS);
    Widths();
    hide Join, Cut, Little, Value, Power;
    LittleRoundTrip(r.start, 8);
    LittleRoundTrip(r.end, 8);
    LittleRoundTrip(r.attributes, 8);
  }

  /** An all-zero slot is unused. */
  lemma ZeroRecord(bytes: seq<Byte>)
    requires bytes == Zeros(RECORD_SIZE)
    ensures !RecordOf(bytes).Used()
  {
    RecordWidths();
    CutZeros(bytes, RECORD_WIDTHS);
  }

  // ---- Protective MBR ----

  datatype MbrEntry = MbrEntry(boot: seq<Byte>, startChs: seq<Byte>, kind: seq<Byte>, endChs: seq<Byte>, start: nat, size: nat)
  {
    ghost predicate Fits() {
      |boot| == 1 && |startChs| == 3 && |kind| == 1 && |endChs| == 3 && start < U32 && size < U32
    }

    /** The slot that protects a disk of so many sectors; a size too large for it saturates. */
    predicate Protects(sectors: nat) {
      kind == [0xEE] && boot == [0] && start == 1 && size == Saturated(sectors - 1)
    }
  }

  function Saturated(value: int): int {
    if value < U32 then value else U32 - 1
  }

  const MBR_WIDTHS: seq<nat> := [1, 3, 1, 3, 4, 4]

  lemma MbrWidths()
    ensures Total(MBR_WIDTHS) == 16
  {
    assert MBR_WIDTHS[1..] == [3, 1, 3, 4, 4];
    assert MBR_WIDTHS[2..] == [1, 3, 4, 4];
    assert MBR_WIDTHS[3..] == [3, 4, 4];
    assert MBR_WIDTHS[4..] == [4, 4];
    assert MBR_WIDTHS[5..] == [4];
  }

  function MbrFields(m: MbrEntry): seq<seq<Byte>> {
    [m.boot, m.startChs, m.kind, m.endChs, Little(m.start, 4), Little(m.size, 4)]
  }

  function MbrBytes(m: MbrEntry): seq<Byte> {
    Join(MbrFields(m))
  }

  function MbrOf(bytes: seq<Byte>): MbrEntry
    requires |bytes| == 16
  {
    MbrWidths();
    var fields := Cut(bytes, MBR_WIDTHS);
    MbrEntry(fields[0], fields[1], fields[2], fields[3], Value(fields[4]), Value(fields[5]))
  }

  lemma MbrRoundTrip(m: MbrEntry)
    requires m.Fits()
    ensures |MbrBytes(m)| == 16 && MbrOf(MbrBytes(m)) == m
  {
    MbrWidths();
    CutJoin(MbrFields(m), MBR_WIDTHS);
    Widths();
    hide Join, Cut, Little, Value, Power;
    LittleRoundTrip(m.start, 4);
    LittleRoundTrip(m.size, 4);
  }

  lemma ZeroMbr(bytes: seq<Byte>, sectors: nat)
    requires bytes == Zeros(16)
    ensures !MbrOf(bytes).Protects(sectors)
  {
    MbrWidths();
    CutZeros(bytes, MBR_WIDTHS);
  }
}
