/** Packed records: fixed-width fields side by side, integers least significant byte first. */
module Fields {
  import opened Bytes
  import opened Strings

  function Power(width: nat): nat {
    if width == 0 then 1 else 256 * Power(width - 1)
  }

  /** An integer field of `width` bytes. */
  function Little(value: nat, width: nat): (bytes: seq<Byte>)
    ensures |bytes| == width
  {
    if width == 0 then [] else [(value % 256) as Byte] + Little(value / 256, width - 1)
  }

  function Value(bytes: seq<Byte>): nat {
    if bytes == [] then 0 else bytes[0] as nat + 256 * Value(bytes[1..])
  }

  lemma {:induction false} LittleRoundTrip(value: nat, width: nat)
    requires value < Power(width)
    ensures Value(Little(value, width)) == value
  {
    if width > 0 {
      LittleRoundTrip(value / 256, width - 1);
      assert Little(value, width)[1..] == Little(value / 256, width - 1);
    }
  }

  lemma {:induction false} ValueBound(bytes: seq<Byte>)
    ensures Value(bytes) < Power(|bytes|)
  {
    if bytes != [] {
      ValueBound(bytes[1..]);
    }
  }

  lemma Widths()
    ensures Power(4) == 0x1_0000_0000 && Power(8) == 0x1_0000_0000_0000_0000
  {
    assert Power(2) == 65536;
    assert Power(4) == 65536 * 65536;
    assert Power(6) == 65536 * 65536 * 65536;
  }

  function Zeros(count: nat): (bytes: seq<Byte>)
    ensures |bytes| == count && forall b <- bytes :: b == 0
  {
    seq(count, _ => 0)
  }

  // ---- Several fields ----

  function Join(fields: seq<seq<Byte>>): seq<Byte> {
    if fields == [] then [] else fields[0] + Join(fields[1..])
  }

  function Total(widths: seq<nat>): nat {
    if widths == [] then 0 else widths[0] + Total(widths[1..])
  }

  function Cut(bytes: seq<Byte>, widths: seq<nat>): (fields: seq<seq<Byte>>)
    requires |bytes| == Total(widths)
    ensures |fields| == |widths| && forall i | 0 <= i < |widths| :: |fields[i]| == widths[i]
  {
    if widths == [] then [] else [bytes[..widths[0]]] + Cut(bytes[widths[0]..], widths[1..])
  }

  ghost predicate Sized(fields: seq<seq<Byte>>, widths: seq<nat>) {
    |fields| == |widths| && forall i | 0 <= i < |widths| :: |fields[i]| == widths[i]
  }

  /** Cutting a packed record at its field widths gives the fields back. */
  lemma {:induction false} CutJoin(fields: seq<seq<Byte>>, widths: seq<nat>)
    requires Sized(fields, widths)
    ensures |Join(fields)| == Total(widths) && Cut(Join(fields), widths) == fields
  {
    if widths != [] {
      var first, rest := fields[0], Join(fields[1..]);
      CutJoin(fields[1..], widths[1..]);
      assert (first + rest)[..widths[0]] == first && (first + rest)[widths[0]..] == rest;
      assert fields == [first] + fields[1..];
    }
  }

  lemma {:induction false} CutZeros(bytes: seq<Byte>, widths: seq<nat>)
    requires |bytes| == Total(widths) && forall b <- bytes :: b == 0
    ensures forall i | 0 <= i < |widths| :: Cut(bytes, widths)[i] == Zeros(widths[i])
  {
    if widths != [] {
      assert forall b <- bytes[widths[0]..] :: b in bytes;
      CutZeros(bytes[widths[0]..], widths[1..]);
      assert forall j | 0 <= j < widths[0] :: bytes[j] in bytes;
      assert bytes[..widths[0]] == Zeros(widths[0]);
      assert forall i | 0 < i < |widths| :: Cut(bytes, widths)[i] == Cut(bytes[widths[0]..], widths[1..])[i - 1];
    }
  }
}
