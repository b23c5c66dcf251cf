/** UTF-8 encoding of scalar values and the reading that inverts it. */
module Utf8 {

  type Byte = b: int | 0 <= b < 256

  const MAX_POINT := 0x10FFFF

  predicate Scalar(c: int) {
    0 <= c <= MAX_POINT && !(0xD800 <= c <= 0xDFFF)
  }

  function Encode(c: int): (bytes: seq<Byte>)
    requires Scalar(c)
    ensures 1 <= |bytes| <= 4
  {
    if c < 0x80 then [c]
    else if c < 0x800 then [0xC0 + c / 64, 0x80 + c % 64]
    else if c < 0x10000 then [0xE0 + c / 4096, 0x80 + c / 64 % 64, 0x80 + c % 64]
    else [0xF0 + c / 262144, 0x80 + c / 4096 % 64, 0x80 + c / 64 % 64, 0x80 + c % 64]
  }

  function EncodeAll(text: seq<int>): seq<Byte>
    requires forall c <- text :: Scalar(c)
  {
    if text == [] then [] else Encode(text[0]) + EncodeAll(text[1..])
  }

  /** The length a leading byte announces. */
  function Width(lead: Byte): nat {
    if lead < 0x80 then 1 else if lead < 0xE0 then 2 else if lead < 0xF0 then 3 else 4
  }

  /** The code point of a well-formed group. */
  function Point(group: seq<Byte>): int
    requires 1 <= |group| <= 4
  {
    var lead: int := group[0];
    if |group| == 1 then lead
    else if |group| == 2 then (lead - 0xC0) * 64 + Tail(group[1])
    else if |group| == 3 then (lead - 0xE0) * 4096 + Tail(group[1]) * 64 + Tail(group[2])
    else (lead - 0xF0) * 262144 + Tail(group[1]) * 4096 + Tail(group[2]) * 64 + Tail(group[3])
  }

  /** The six bits of a continuation byte. */
  function Tail(b: Byte): int {
    var bits: int := b;
    bits - 0x80
  }

  lemma SixBits(c: nat)
    ensures c == 64 * (c / 64) + c % 64
    ensures c / 64 == 64 * (c / 4096) + c / 64 % 64
    ensures c / 4096 == 64 * (c / 262144) + c / 4096 % 64
  {
    assert c / 64 / 64 == c / 4096;
    assert c / 4096 / 64 == c / 262144;
  }

  lemma EncodeReads(c: int)
    requires Scalar(c)
    ensures Width(Encode(c)[0]) == |Encode(c)| && Point(Encode(c)) == c
  {
    SixBits(c);
  }

  /** The code points of a text that was encoded; other byte sequences are not read as texts. */
  function DecodeAll(bytes: seq<Byte>): seq<int> {
    if bytes == [] || Width(bytes[0]) > |bytes| then []
    else [Point(bytes[..Width(bytes[0])])] + DecodeAll(bytes[Width(bytes[0])..])
  }

  lemma {:induction false} DecodeReturns(text: seq<int>)
    requires forall c <- text :: Scalar(c)
    ensures DecodeAll(EncodeAll(text)) == text
  {
    hide Encode, Point, Width;
    if text != [] {
      EncodeReads(text[0]);
      DecodeReturns(text[1..]);
      var first := Encode(text[0]);
      var bytes := first + EncodeAll(text[1..]);
      assert bytes[0] == first[0] && bytes[..|first|] == first && bytes[|first|..] == EncodeAll(text[1..]);
    }
  }
}
