/** The packets of the execution gate, and the terminal statuses a report may carry. */
module Completion {
  import opened Wrappers

  /** One packet of the sequenced channel; descriptors may ride along. */
  datatype Packet = Packet(bytes: seq<bv8>, descriptors: bool)

  const READY: bv8 := 1
  const START: bv8 := 2

  function Signal(opcode: bv8): Packet {
    Packet([0x82, 1, opcode], false)
  }

  const STATUS: seq<bv8> := [0x83, 1, 3, 0x44]

  // ---- Wait statuses ----

  /** The check on a raw wait status, bit by bit. */
  predicate Valid(raw: bv32) {
    || raw & 0xFFFF_00FF == 0
    || (0 < raw < 0x8000_0000 && raw & 0xFFFF_FF00 == 0 && 1 <= raw & 0x7F <= 64)
  }

  /** A command that ended: with an exit code, or by a signal, perhaps leaving a core. */
  datatype Ending = Exited(code: bv8) | Killed(signal: bv8, core: bool) {
    predicate Possible() {
      Killed? ==> 1 <= signal <= 64
    }
  }

  function Raw(ending: Ending): bv32 {
    match ending
    case Exited(code) => (code as bv32) << 8
    case Killed(signal, core) => (signal as bv32) | (if core then 0x80 else 0)
  }

  function EndingOf(raw: bv32): Ending
    requires Valid(raw)
  {
    if raw & 0xFFFF_00FF == 0 then Exited((raw >> 8) as bv8)
    else Killed((raw & 0x7F) as bv8, raw & 0x80 != 0)
  }

  lemma RawValid(ending: Ending)
    requires ending.Possible()
    ensures Valid(Raw(ending)) && EndingOf(Raw(ending)) == ending
  {
    match ending
    case Exited(code) =>
      assert (((code as bv32) << 8) >> 8) as bv8 == code;
    case Killed(signal, core) =>
      var raw := Raw(ending);
      assert (raw & 0x7F) as bv8 == signal;
  }

  lemma ValidRaw(raw: bv32)
    requires Valid(raw)
    ensures EndingOf(raw).Possible() && Raw(EndingOf(raw)) == raw
  {
  }

  /** The bit test accepts exactly the encodings of ended commands, each from one ending. */
  lemma ValidExactly(raw: bv32)
    ensures Valid(raw) <==> exists ending: Ending :: ending.Possible() && Raw(ending) == raw
    ensures forall a: Ending, b: Ending | a.Possible() && b.Possible() && Raw(a) == Raw(b) :: a == b
  {
    hide Valid, Raw, EndingOf, Ending.Possible;
    if Valid(raw) {
      ValidRaw(raw);
    }
    forall ending: Ending | ending.Possible() && Raw(ending) == raw
      ensures Valid(raw)
    {
      RawValid(ending);
    }
    forall a: Ending, b: Ending | a.Possible() && b.Possible() && Raw(a) == Raw(b)
      ensures a == b
    {
      RawValid(a);
      RawValid(b);
    }
  }

  // ---- The status packet ----

  function BigEndian(raw: bv32): seq<bv8> {
    [(raw >> 24) as bv8, ((raw >> 16) & 0xFF) as bv8, ((raw >> 8) & 0xFF) as bv8, (raw & 0xFF) as bv8]
  }

  function FromBigEndian(bytes: seq<bv8>): bv32
    requires |bytes| == 4
  {
    ((bytes[0] as bv32) << 24) | ((bytes[1] as bv32) << 16) | ((bytes[2] as bv32) << 8) | (bytes[3] as bv32)
  }

  function StatusPacket(raw: bv32): Option<Packet> {
    if Valid(raw) then Some(Packet(STATUS + BigEndian(raw), false)) else None
  }

  /** The status a received packet carries, if it is a well-formed report. */
  function StatusOf(p: Packet): Option<bv32> {
    if |p.bytes| != 8 || p.descriptors || p.bytes[..4] != STATUS then None
    else
      var raw := FromBigEndian(p.bytes[4..]);
      if Valid(raw) then Some(raw) else None
  }

  /** A reported status is read back exactly; nothing nonterminal is ever sent or read. */
  lemma StatusRoundTrip(raw: bv32)
    ensures StatusPacket(raw).Some? <==> Valid(raw)
    ensures Valid(raw) ==> StatusOf(StatusPacket(raw).value) == Some(raw)
  {
    if Valid(raw) {
      var bytes := BigEndian(raw);
      assert (STATUS + bytes)[..4] == STATUS && (STATUS + bytes)[4..] == bytes;
      assert FromBigEndian(bytes) == raw;
    }
  }

  /** And every well-formed report is some status's packet. */
  lemma StatusPacketOnly(p: Packet)
    requires StatusOf(p).Some?
    ensures StatusPacket(StatusOf(p).value) == Some(p)
  {
    var bytes := p.bytes[4..];
    assert BigEndian(FromBigEndian(bytes)) == bytes;
    assert p.bytes == p.bytes[..4] + bytes;
  }
}
