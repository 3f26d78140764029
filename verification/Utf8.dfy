/** UTF-8 as far as a byte-wise matcher needs it: one scalar at a time. */
module Utf8 {
  import opened Wrappers
  import opened Bytes

  function Encode(c: char): (bytes: seq<Byte>)
    ensures 1 <= |bytes| <= 4
  {
    var x := c as int;
    if x < 0x80 then [x as Byte]
    else if x < 0x800 then [(0xC0 + x / 64) as Byte, Tail(x)]
    else if x < 0x10000 then [(0xE0 + x / 4096) as Byte, Tail(x / 64), Tail(x)]
    else [(0xF0 + x / 262144) as Byte, Tail(x / 4096), Tail(x / 64), Tail(x)]
  }

  function Tail(x: int): Byte {
    (0x80 + x % 64) as Byte
  }

  predicate IsTail(b: Byte) {
    0x80 <= b < 0xC0
  }

  /** The scalar whose shortest encoding is all of `b`. */
  function Scalar(b: seq<Byte>): Option<char> {
    if |b| == 1 && b[0] < 0x80 then Some(b[0] as char)
    else if |b| == 2 && 0xC2 <= b[0] < 0xE0 && IsTail(b[1]) then
      Some(((b[0] as int - 0xC0) * 64 + (b[1] as int - 0x80)) as char)
    else if |b| == 3 && 0xE0 <= b[0] < 0xF0 && IsTail(b[1]) && IsTail(b[2]) then
      var x := (b[0] as int - 0xE0) * 4096 + (b[1] as int - 0x80) * 64 + (b[2] as int - 0x80);
      if x < 0x800 || 0xD800 <= x < 0xE000 then None else Some(x as char)
    else if |b| == 4 && 0xF0 <= b[0] < 0xF8 && IsTail(b[1]) && IsTail(b[2]) && IsTail(b[3]) then
      var x := (b[0] as int - 0xF0) * 262144 + (b[1] as int - 0x80) * 4096 + (b[2] as int - 0x80) * 64
               + (b[3] as int - 0x80);
      if x < 0x10000 || 0x110000 <= x then None else Some(x as char)
    else None
  }

  datatype Rune = Rune(value: char, width: nat)

  /** The scalar encoded by the shortest valid prefix, of at least `width` bytes. */
  function First(bytes: seq<Byte>, width: nat := 1): (rune: Option<Rune>)
    requires 1 <= width <= 5
    ensures rune.Some? ==> width <= rune.value.width <= |bytes| && rune.value.width <= 4
    ensures rune.Some? ==> Scalar(bytes[..rune.value.width]) == Some(rune.value.value)
    ensures forall w | width <= w <= 4 && w <= |bytes| && (rune.Some? ==> w < rune.value.width) ::
              Scalar(bytes[..w]) == None
    decreases 5 - width
  {
    if width > 4 || width > |bytes| then None
    else match Scalar(bytes[..width])
      case Some(c) => Some(Rune(c, width))
      case None => First(bytes, width + 1)
  }

  /** The scalars of a whole byte string, when it is valid UTF-8. */
  function Decode(bytes: seq<Byte>): (text: Option<string>)
    ensures text.Some? && bytes != [] ==> text.value != ""
  {
    if bytes == [] then Some("")
    else
      var rune :- First(bytes);
      var rest :- Decode(bytes[rune.width..]);
      Some([rune.value] + rest)
  }

  const REPLACEMENT := '\U{FFFD}'

  /** One rune: the first scalar, or a replacement for one undecodable byte. */
  function RuneAt(bytes: seq<Byte>): (rune: Rune)
    requires bytes != []
    ensures 1 <= rune.width <= |bytes|
  {
    match First(bytes) case Some(rune) => rune case None => Rune(REPLACEMENT, 1)
  }

  lemma Base64(x: nat)
    ensures x == x / 64 * 64 + x % 64
    ensures x / 64 / 64 == x / 4096 && x / 4096 / 64 == x / 262144
  {
  }

  lemma ScalarOfEncode(c: char)
    ensures Scalar(Encode(c)) == Some(c)
  {
    var x := c as int;
    var bytes := Encode(c);
    var (a, b, d, e) := Digits64(x);
    hide Encode, Scalar;
    if x < 0x80 {
      ShortEncoded(c);
    } else if x < 0x800 {
      DoubleEncoded(c, d, e);
    } else if x < 0x10000 {
      TripleEncoded(c, b, d, e);
    } else {
      QuadrupleEncoded(c, a, b, d, e);
    }
  }

  /** The base-64 digits of a scalar. */
  function Digits64(x: nat): (digits: (nat, nat, nat, nat))
    ensures x == digits.0 * 262144 + digits.1 * 4096 + digits.2 * 64 + digits.3
    ensures digits.1 < 64 && digits.2 < 64 && digits.3 < 64
    ensures digits.0 == x / 262144 && digits.1 == x / 4096 % 64 && digits.2 == x / 64 % 64 && digits.3 == x % 64
  {
    Base64(x);
    Base64(x / 64);
    Base64(x / 4096);
    (x / 262144, x / 4096 % 64, x / 64 % 64, x % 64)
  }

  lemma ShortEncoded(c: char)
    requires c as int < 0x80
    ensures Scalar(Encode(c)) == Some(c)
  {
    assert Encode(c) == [c as int as Byte];
  }

  lemma DoubleEncoded(c: char, d: nat, e: nat)
    requires 0x80 <= c as int < 0x800 && c as int == d * 64 + e && d == c as int / 64 % 64 && e == c as int % 64
    ensures Scalar(Encode(c)) == Some(c)
  {
    assert c as int / 64 == d;
    assert Encode(c) == [(0xC0 + d) as Byte, (0x80 + e) as Byte];
  }

  lemma TripleEncoded(c: char, b: nat, d: nat, e: nat)
    requires 0x800 <= c as int < 0x10000 && c as int == b * 4096 + d * 64 + e && b < 64
    requires b == c as int / 4096 % 64 && d == c as int / 64 % 64 && e == c as int % 64
    ensures Scalar(Encode(c)) == Some(c)
  {
    assert c as int / 4096 == b;
    assert Encode(c) == [(0xE0 + b) as Byte, (0x80 + d) as Byte, (0x80 + e) as Byte];
  }

  lemma QuadrupleEncoded(c: char, a: nat, b: nat, d: nat, e: nat)
    requires 0x10000 <= c as int && c as int == a * 262144 + b * 4096 + d * 64 + e
    requires a == c as int / 262144 && b == c as int / 4096 % 64 && d == c as int / 64 % 64 && e == c as int % 64
    ensures Scalar(Encode(c)) == Some(c)
  {
    assert Encode(c) == [(0xF0 + a) as Byte, (0x80 + b) as Byte, (0x80 + d) as Byte, (0x80 + e) as Byte];
  }

  lemma EncodedWidth(c: char, w: nat)
    requires 1 <= w < |Encode(c)|
    ensures Scalar(Encode(c)[..w]) == None
  {
  }

  /** Decoding undoes encoding, whatever follows. */
  lemma FirstOfEncode(c: char, rest: seq<Byte>)
    ensures First(Encode(c) + rest) == Some(Rune(c, |Encode(c)|))
  {
    var bytes, width := Encode(c) + rest, |Encode(c)|;
    hide Encode, Scalar, First;
    ScalarOfEncode(c);
    assert bytes[..width] == Encode(c);
    forall w | 1 <= w < width
      ensures Scalar(bytes[..w]) == None
    {
      EncodedWidth(c, w);
      assert bytes[..w] == Encode(c)[..w];
    }
    FirstIs(bytes, c, width);
  }

  lemma FirstIs(bytes: seq<Byte>, c: char, width: nat)
    requires 1 <= width <= 4 && width <= |bytes| && Scalar(bytes[..width]) == Some(c)
    requires forall w | 1 <= w < width :: Scalar(bytes[..w]) == None
    ensures First(bytes) == Some(Rune(c, width))
  {
    hide Scalar;
    var rune := First(bytes);
    assert rune.Some? ==> rune.value.width == width;
  }

  /** The search over prefixes that are valid text finds exactly the first scalar. */
  lemma ValidPrefix(bytes: seq<Byte>, width: nat)
    requires 1 <= width <= 4 && width <= |bytes|
    requires forall w | 1 <= w < width :: Decode(bytes[..w]) == None
    ensures Decode(bytes[..width]).Some? <==> First(bytes).Some? && First(bytes).value.width == width
    ensures Decode(bytes[..width]).Some? ==> Decode(bytes[..width]).value[0] == First(bytes).value.value
  {
    hide Scalar, First, Decode;
    var prefix := bytes[..width];
    assert forall w | 1 <= w <= width :: prefix[..w] == bytes[..w];
    if First(prefix).Some? {
      var first := First(prefix).value;
      if first.width < width {
        assert forall w | 1 <= w <= first.width :: bytes[..first.width][..w] == prefix[..w];
        assert bytes[..first.width] == prefix[..first.width];
        ScalarDecodes(bytes[..first.width], first);
      } else {
        FirstIs(bytes, first.value, width);
      }
    }
    DecodedFirst(prefix);
  }

  /** What is valid text starts with a scalar; one scalar alone is valid text. */
  lemma DecodedFirst(bytes: seq<Byte>)
    requires bytes != []
    ensures Decode(bytes).Some? ==> First(bytes).Some? && Decode(bytes).value[0] == First(bytes).value.value
    ensures First(bytes).Some? && First(bytes).value.width == |bytes| ==> Decode(bytes) == Some([First(bytes).value.value])
  {
    hide First;
    assert bytes[|bytes|..] == [];
    assert forall c: char :: [c] + "" == [c];
  }

  lemma ScalarDecodes(bytes: seq<Byte>, rune: Rune)
    requires rune.width == |bytes| && 1 <= rune.width <= 4 && Scalar(bytes) == Some(rune.value)
    requires forall w | 1 <= w < rune.width :: Scalar(bytes[..w]) == None
    ensures Decode(bytes).Some?
  {
    hide Scalar;
    assert bytes[..|bytes|] == bytes;
    FirstIs(bytes, rune.value, rune.width);
    hide First;
    assert bytes[|bytes|..] == [];
  }

  /** Decode the rune at the head of a nonempty name by trying its prefixes in turn. */
  method DecodeRune(bytes: seq<Byte>) returns (rune: Rune)
    requires bytes != []
    ensures rune == RuneAt(bytes)
  {
    hide First, Decode;
    var limit := if |bytes| < 4 then |bytes| else 4;
    for width := 1 to limit + 1
      invariant forall w | 1 <= w < width :: Decode(bytes[..w]) == None
      invariant First(bytes).Some? ==> First(bytes).value.width >= width
    {
      ValidPrefix(bytes, width);
      var text := Decode(bytes[..width]);
      if text.Some? {
        return Rune(text.value[0], width);
      }
    }
    return Rune(REPLACEMENT, 1);
  }
}
