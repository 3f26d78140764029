/** Bytes and their lower-case hexadecimal spelling. */
module Bytes {
  import opened Wrappers

  newtype Byte = x: int | 0 <= x < 256

  type Hash = bytes: seq<Byte> | |bytes| == 32 witness seq(32, _ => 0)

  const DIGITS := "0123456789abcdef"

  function Digit(value: int): char
    requires 0 <= value < 16
  {
    DIGITS[value]
  }

  function Hex(bytes: seq<Byte>): (text: string)
    ensures |text| == 2 * |bytes|
    ensures forall c <- text :: '0' <= c <= '9' || 'a' <= c <= 'f'
  {
    if bytes == [] then ""
    else [Digit(bytes[0] as int / 16), Digit(bytes[0] as int % 16)] + Hex(bytes[1..])
  }

  /** The value of a hexadecimal digit of either case. */
  function DigitValue(c: char): Option<int> {
    if '0' <= c <= '9' then Some(c as int - '0' as int)
    else if 'a' <= c <= 'f' then Some(c as int - 'a' as int + 10)
    else if 'A' <= c <= 'F' then Some(c as int - 'A' as int + 10)
    else None
  }

  function Unhex(text: string): (bytes: Option<seq<Byte>>)
    ensures bytes.Some? ==> |text| == 2 * |bytes.value|
  {
    if text == "" then Some([])
    else if |text| == 1 then None
    else
      var high :- DigitValue(text[0]);
      var low :- DigitValue(text[1]);
      var rest :- Unhex(text[2..]);
      if 0 <= high < 16 && 0 <= low < 16 then Some([(16 * high + low) as Byte] + rest) else None
  }

  lemma {:induction false} HexRoundTrip(bytes: seq<Byte>)
    ensures Unhex(Hex(bytes)) == Some(bytes)
  {
    hide Digit, DigitValue;
    if bytes == [] {
      assert Hex(bytes) == "";
    } else {
      hide Hex, Unhex;
      HexRoundTrip(bytes[1..]);
      ByteRoundTrip(bytes[0], Hex(bytes[1..]), bytes[1..]);
      HexCons(bytes);
      assert bytes == [bytes[0]] + bytes[1..];
    }
  }

  lemma HexCons(bytes: seq<Byte>)
    requires bytes != []
    ensures Hex(bytes) == [Digit(bytes[0] as int / 16), Digit(bytes[0] as int % 16)] + Hex(bytes[1..])
  {
    hide Digit;
  }

  lemma ByteRoundTrip(b: Byte, rest: string, tail: seq<Byte>)
    requires Unhex(rest) == Some(tail)
    ensures Unhex([Digit(b as int / 16), Digit(b as int % 16)] + rest) == Some([b] + tail)
  {
    hide Digit, DigitValue, Unhex;
    var high, low := b as int / 16, b as int % 16;
    DigitRoundTrip(high);
    DigitRoundTrip(low);
    HexPair(high, low, rest, tail);
    assert 16 * high + low == b as int;
  }

  /** Two digits in front of what reads back as `tail`. */
  lemma HexPair(high: int, low: int, rest: string, tail: seq<Byte>)
    requires 0 <= high < 16 && 0 <= low < 16 && Unhex(rest) == Some(tail)
    requires DigitValue(Digit(high)) == Some(high) && DigitValue(Digit(low)) == Some(low)
    ensures Unhex([Digit(high), Digit(low)] + rest) == Some([(16 * high + low) as Byte] + tail)
  {
    hide Digit, DigitValue;
    var text := [Digit(high), Digit(low)] + rest;
    assert text[2..] == rest;
  }

  lemma DigitRoundTrip(value: int)
    requires 0 <= value < 16
    ensures DigitValue(Digit(value)) == Some(value)
  {
  }
}
