/** A seekable device of fixed size, and the blocks of its image. */
module Devices {
  import opened Wrappers
  import opened Bytes
  import opened Fields
  import opened Gpt

  /** The largest backing capacity: whole blocks, with room in 64 bits for sums of LBAs. */
  type Limit = n: nat | n % 4096 == 0 && n <= 0x4000_0000_0000_0000 witness 0

  function Slice(image: seq<Byte>, from: nat, count: nat): (bytes: seq<Byte>)
    requires from + count <= |image|
    ensures |bytes| == count
  {
    image[from..from + count]
  }

  /** The image with `bytes` written at an offset. */
  function Put(image: seq<Byte>, from: nat, bytes: seq<Byte>): (written: seq<Byte>)
    requires from + |bytes| <= |image|
    ensures |written| == |image|
  {
    image[..from] + bytes + image[from + |bytes|..]
  }

  lemma PutSame(image: seq<Byte>, from: nat, bytes: seq<Byte>)
    requires from + |bytes| <= |image|
    ensures Slice(Put(image, from, bytes), from, |bytes|) == bytes
  {
  }

  lemma PutApart(image: seq<Byte>, from: nat, bytes: seq<Byte>, other: nat, count: nat)
    requires from + |bytes| <= |image| && other + count <= |image|
    requires other + count <= from || from + |bytes| <= other
    ensures Slice(Put(image, from, bytes), other, count) == Slice(image, other, count)
  {
  }

  lemma PutElsewhere(image: seq<Byte>, from: nat, bytes: seq<Byte>, i: nat)
    requires from + |bytes| <= |image| && i < |image|
    requires i < from || from + |bytes| <= i
    ensures Put(image, from, bytes)[i] == image[i]
  {
  }

  lemma ZeroSlice(size: nat, from: nat, count: nat)
    requires from + count <= size
    ensures Slice(Zeros(size), from, count) == Zeros(count)
  {
    forall i | 0 <= i < count
      ensures Slice(Zeros(size), from, count)[i] == Zeros(count)[i]
    {
      assert Zeros(size)[from + i] == 0;
    }
  }

  /** Writing at the front of zeros. */
  lemma PutFront(size: nat, bytes: seq<Byte>)
    requires |bytes| <= size
    ensures Put(Zeros(size), 0, bytes) == bytes + Zeros(size - |bytes|)
  {
    ZeroSlice(size, |bytes|, size - |bytes|);
    assert Zeros(size)[..0] + bytes == bytes;
    assert Zeros(size)[|bytes|..] == Slice(Zeros(size), |bytes|, size - |bytes|);
  }

  /** Writing next to what was written at the front. */
  lemma PutNext(first: seq<Byte>, size: nat, bytes: seq<Byte>)
    requires |bytes| <= size
    ensures Put(first + Zeros(size), |first|, bytes) == first + (bytes + Zeros(size - |bytes|))
  {
    var image := first + Zeros(size);
    ZeroSlice(size, |bytes|, size - |bytes|);
    assert image[..|first|] == first;
    assert image[|first| + |bytes|..] == Zeros(size)[|bytes|..] == Slice(Zeros(size), |bytes|, size - |bytes|);
    assert first + bytes + Zeros(size - |bytes|) == first + (bytes + Zeros(size - |bytes|));
  }

  /** One block, if it lies on the device and its byte offset fits 64 bits. */
  function BlockAt(image: seq<Byte>, lba: nat): (block: Option<seq<Byte>>)
    ensures block.Some? ==> |block.value| == SECTOR_SIZE
  {
    if lba * SECTOR_SIZE >= U64 || lba * SECTOR_SIZE + SECTOR_SIZE > |image| then None
    else Some(Slice(image, lba * SECTOR_SIZE, SECTOR_SIZE))
  }

  class Device {
    var image: seq<Byte>
    var position: nat

    constructor (image: seq<Byte>)
      ensures this.image == image && position == 0
    {
      this.image := image;
      position := 0;
    }

    method Seek(offset: nat)
      modifies this`position
      ensures position == offset
    {
      position := offset;
    }

    /** Read exactly `count` bytes, or fail at the end of the device. */
    method ReadExact(count: nat) returns (bytes: Option<seq<Byte>>)
      modifies this`position
      ensures bytes == if old(position) + count <= |image| then Some(Slice(image, old(position), count)) else None
    {
      if position + count > |image| {
        return None;
      }
      bytes := Some(image[position..position + count]);
      position := position + count;
    }

    /** Write all of `bytes`, or fail without effect when they do not fit. */
    method WriteAll(bytes: seq<Byte>) returns (ok: bool)
      modifies this
      ensures ok <==> old(position) + |bytes| <= |old(image)|
      ensures image == if ok then Put(old(image), old(position), bytes) else old(image)
    {
      ok := position + |bytes| <= |image|;
      if ok {
        image := image[..position] + bytes + image[position + |bytes|..];
        position := position + |bytes|;
      }
    }

    method Block(lba: nat) returns (block: Option<seq<Byte>>)
      modifies this`position
      ensures block == BlockAt(image, lba)
    {
      if lba * SECTOR_SIZE >= U64 {
        return None;
      }
      Seek(lba * SECTOR_SIZE);
      block := ReadExact(SECTOR_SIZE);
    }
  }
}
