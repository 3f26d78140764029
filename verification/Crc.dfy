/** CRC-32/ISO-HDLC as a fold over bytes. */
module Crc {
  import opened Bytes

  const POLYNOMIAL: bv32 := 0xEDB88320
  const ONES: bv32 := 0xFFFFFFFF

  function Shift(state: bv32): bv32 {
    if state & 1 == 1 then (state >> 1) ^ POLYNOMIAL else state >> 1
  }

  function Shifts(state: bv32, count: nat): bv32
    decreases count
  {
    if count == 0 then state else Shifts(Shift(state), count - 1)
  }

  function Absorb(state: bv32, b: Byte): bv32 {
    Shifts(state ^ (b as bv32), 8)
  }

  /** A running digest after some more bytes. */
  function Update(state: bv32, bytes: seq<Byte>): bv32
    decreases |bytes|
  {
    if bytes == [] then state else Update(Absorb(state, bytes[0]), bytes[1..])
  }

  function Finalize(state: bv32): (sum: nat)
    ensures sum < 0x1_0000_0000
  {
    (state ^ ONES) as int
  }

  function Checksum(bytes: seq<Byte>): (sum: nat)
    ensures sum < 0x1_0000_0000
  {
    Finalize(Update(ONES, bytes))
  }

  /** Feeding a digest piece by piece is feeding it the whole. */
  lemma {:induction false} Streams(state: bv32, a: seq<Byte>, b: seq<Byte>)
    ensures Update(Update(state, a), b) == Update(state, a + b)
    decreases |a|
  {
    hide Absorb;
    if a == [] {
      assert a + b == b;
    } else {
      Streams(Absorb(state, a[0]), a[1..], b);
      assert (a + b)[0] == a[0] && (a + b)[1..] == a[1..] + b;
    }
  }

  /** A known answer that fixes polynomial, reflection, start and final inversion: the sum of "1". */
  lemma KnownSum()
    ensures Checksum([0x31]) == 0x83DCEFB7
  {
    assert Update(ONES, [0x31]) == Absorb(ONES, 0x31);
  }
}
