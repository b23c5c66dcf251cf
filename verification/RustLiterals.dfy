/** The Rust literals written for a text (`rust_string_literal` and `rust_byte_literal` in
    scripts/s05_tables.py), read back by the rules of the Rust reference, section
    "Character and string literals" and section "Byte and byte string literals". */
module RustLiterals {
  import opened Results
  import opened Utf8
  import GoQuoted

  const QUOTE := 34
  const BACKSLASH := 92
  const OPEN := '{' as int
  const CLOSE := '}' as int

  // --- writing ------------------------------------------------------------------------------------------

  /** Hexadecimal without leading zeros, for values below 256. */
  function Hex(n: nat): seq<int>
    requires n < 256
  {
    if n < 16 then [GoQuoted.HexChar(n)] else [GoQuoted.HexChar(n / 16), GoQuoted.HexChar(n % 16)]
  }

  /** A character of a Python text: any code point, lone surrogates included. */
  predicate Character(c: int) {
    0 <= c <= MAX_POINT
  }

  predicate Unprintable(c: int) {
    c < 0x20 || c == 0x7F
  }

  function EscapeChar(c: int): (s: seq<int>)
    requires Character(c)
    ensures |s| > 0
  {
    if c == QUOTE || c == BACKSLASH then [BACKSLASH, c]
    else if Unprintable(c) then [BACKSLASH, 'u' as int, OPEN] + Hex(c) + [CLOSE]
    else [c]
  }

  function EscapeByte(b: Byte): (s: seq<int>)
    ensures |s| > 0
  {
    if b == QUOTE || b == BACKSLASH then [BACKSLASH, b]
    else if 0x20 <= b < 0x7F then [b]
    else [BACKSLASH, 'x' as int, GoQuoted.HexChar(b / 16), GoQuoted.HexChar(b % 16)]
  }

  function EscapeText(text: seq<int>): seq<int>
    requires forall c <- text :: Character(c)
  {
    if text == [] then [] else EscapeText(text[..|text| - 1]) + EscapeChar(text[|text| - 1])
  }

  function EscapeBytes(bytes: seq<Byte>): seq<int> {
    if bytes == [] then [] else EscapeBytes(bytes[..|bytes| - 1]) + EscapeByte(bytes[|bytes| - 1])
  }

  method StringLiteral(text: seq<int>) returns (literal: seq<int>)
    requires forall c <- text :: Character(c)
    ensures literal == [QUOTE] + EscapeText(text) + [QUOTE]
  {
    var escaped: seq<int> := [];
    for i := 0 to |text|
      invariant escaped == EscapeText(text[..i])
    {
      var character := text[i];
      assert text[..i + 1][..i] == text[..i] && Character(text[i]);
      if character == QUOTE || character == BACKSLASH {
        escaped := escaped + [BACKSLASH, character];
      } else if character < 0x20 || character == 0x7F {
        escaped := escaped + ([BACKSLASH, 'u' as int, OPEN] + Hex(character) + [CLOSE]);
      } else {
        escaped := escaped + [character];
      }
    }
    assert text[..|text|] == text;
    return [QUOTE] + escaped + [QUOTE];
  }

  /** A text with a lone surrogate cannot be encoded. */
  method ByteLiteral(text: seq<int>) returns (literal: Verdict<seq<int>>)
    ensures literal == if exists c <- text :: !Scalar(c) then Rejected
                       else Accepted(['b' as int, QUOTE] + EscapeBytes(EncodeAll(text)) + [QUOTE])
  {
    if exists c <- text :: !Scalar(c) {
      return Rejected;
    }
    var bytes := EncodeAll(text);
    var escaped: seq<int> := [];
    for i := 0 to |bytes|
      invariant escaped == EscapeBytes(bytes[..i])
    {
      assert bytes[..i + 1][..i] == bytes[..i];
      if bytes[i] == QUOTE || bytes[i] == BACKSLASH {
        escaped := escaped + [BACKSLASH, bytes[i]];
      } else if 0x20 <= bytes[i] < 0x7F {
        escaped := escaped + [bytes[i]];
      } else {
        escaped := escaped + [BACKSLASH, 'x' as int, GoQuoted.HexChar(bytes[i] / 16), GoQuoted.HexChar(bytes[i] % 16)];
      }
    }
    assert bytes[..|bytes|] == bytes;
    return Accepted(['b' as int, QUOTE] + escaped + [QUOTE]);
  }

  // --- reading --------------------------------------------------------------------------------------------

  datatype Piece = Piece(value: int, rest: seq<int>)

  const SIMPLE: map<int, int> := map[QUOTE := QUOTE, BACKSLASH := BACKSLASH, '\'' as int := 39,
                                     'n' as int := 10, 'r' as int := 13, 't' as int := 9, '0' as int := 0]

  function HexRun(body: seq<int>, at: nat): (n: nat)
    ensures n > 0 ==> at + n <= |body|
    ensures forall k | at <= k < at + n :: GoQuoted.IsHex(body[k])
    decreases |body| - at
  {
    if at < |body| && GoQuoted.IsHex(body[at]) then 1 + HexRun(body, at + 1) else 0
  }

  /** The digits of a braced escape, from position 3 on. */
  function ReadBraced(body: seq<int>): (r: Verdict<Piece>)
    ensures r.Accepted? ==> |r.value.rest| < |body|
  {
    var n := HexRun(body, 3);
    if !(1 <= n <= 6) || 3 + n >= |body| || body[3 + n] != CLOSE then Rejected
    else
      var digits := body[3..3 + n];
      if Scalar(GoQuoted.HexValue(digits)) then Accepted(Piece(GoQuoted.HexValue(digits), body[4 + n..])) else Rejected
  }

  function ReadHexPair(body: seq<int>): (r: Verdict<Piece>)
    ensures r.Accepted? ==> |r.value.rest| < |body|
  {
    if |body| < 4 || !GoQuoted.IsHex(body[2]) || !GoQuoted.IsHex(body[3]) then Rejected
    else Accepted(Piece(16 * GoQuoted.HexDigit(body[2]) + GoQuoted.HexDigit(body[3]), body[4..]))
  }

  /** One character of a string literal, or one byte of a byte string literal. A
      bare carriage return is not allowed, nor a bare character outside ASCII in
      a byte string. */
  function ReadPiece(body: seq<int>, bytes: bool): (r: Verdict<Piece>)
    requires body != []
    ensures r.Accepted? ==> |r.value.rest| < |body|
  {
    var c := body[0];
    if c != BACKSLASH then
      if c == QUOTE || c == 13 || !Scalar(c) || (bytes && c >= 0x80) then Rejected else Accepted(Piece(c, body[1..]))
    else if |body| < 2 then Rejected
    else if body[1] in SIMPLE then Accepted(Piece(SIMPLE[body[1]], body[2..]))
    else if body[1] == 'x' as int then
      var pair :- ReadHexPair(body);
      if bytes || pair.value < 0x80 then Accepted(pair) else Rejected
    else if body[1] == 'u' as int && !bytes && |body| > 2 && body[2] == OPEN then ReadBraced(body)
    else Rejected
  }

  function ReadBody(body: seq<int>, bytes: bool): Verdict<seq<int>>
    decreases |body|
  {
    if body == [] then Accepted([])
    else
      var first :- ReadPiece(body, bytes);
      var rest :- ReadBody(first.rest, bytes);
      Accepted([first.value] + rest)
  }

  // --- round trips -------------------------------------------------------------------------------------------

  lemma HexCharReads(d: int)
    requires 0 <= d < 16
    ensures GoQuoted.IsHex(GoQuoted.HexChar(d)) && GoQuoted.HexDigit(GoQuoted.HexChar(d)) == d
  {
  }

  lemma HexReads(n: nat)
    requires n < 256
    ensures (forall c <- Hex(n) :: GoQuoted.IsHex(c)) && GoQuoted.HexValue(Hex(n)) == n
  {
    var digits := Hex(n);
    HexCharReads(n % 16);
    HexCharReads(n / 16);
    assert digits[..|digits| - 1] == if n < 16 then [] else [GoQuoted.HexChar(n / 16)];
    assert [GoQuoted.HexChar(n / 16)][..0] == [];
    assert GoQuoted.HexValue([]) == 0;
    assert GoQuoted.HexValue([GoQuoted.HexChar(n / 16)]) == n / 16;
  }

  lemma BracedReads(n: nat, rest: seq<int>)
    requires n < 128
    ensures ReadBraced([BACKSLASH, 'u' as int, OPEN] + Hex(n) + [CLOSE] + rest) == Accepted(Piece(n, rest))
  {
    hide GoQuoted.HexValue, GoQuoted.HexChar;
    var digits := Hex(n);
    var body := [BACKSLASH, 'u' as int, OPEN] + digits + [CLOSE] + rest;
    HexReads(n);
    assert digits[0] in digits && digits[|digits| - 1] in digits;
    assert body[3] == digits[0] && body[3 + |digits|] == CLOSE;
    if |digits| == 2 {
      assert body[4] == digits[1];
    }
    assert HexRun(body, 3 + |digits|) == 0;
    assert HexRun(body, 2 + |digits|) == 1;
    assert HexRun(body, 3) == |digits|;
    assert body[3..3 + |digits|] == digits && body[4 + |digits|..] == rest;
  }

  lemma CharReads(c: int, rest: seq<int>)
    requires Character(c)
    ensures ReadPiece(EscapeChar(c) + rest, false) == if Scalar(c) then Accepted(Piece(c, rest)) else Rejected
  {
    hide ReadBraced, Hex;
    var body := EscapeChar(c) + rest;
    if Unprintable(c) {
      BracedReads(c, rest);
      assert body == [BACKSLASH, 'u' as int, OPEN] + Hex(c) + [CLOSE] + rest;
    }
  }

  lemma ByteReads(b: Byte, rest: seq<int>)
    ensures ReadPiece(EscapeByte(b) + rest, true) == Accepted(Piece(b, rest))
  {
    HexCharReads(b / 16);
    HexCharReads(b % 16);
  }

  lemma {:induction false} TextFromFront(text: seq<int>)
    requires text != [] && forall c <- text :: Character(c)
    ensures EscapeText(text) == EscapeChar(text[0]) + EscapeText(text[1..])
  {
    hide EscapeChar, Character;
    var n := |text| - 1;
    if n == 0 {
      assert EscapeText(text[..0]) == [] && text[1..] == [];
    } else {
      TextFromFront(text[..n]);
      assert text[..n][1..] == text[1..][..n - 1];
      assert EscapeText(text[1..]) == EscapeText(text[1..][..n - 1]) + EscapeChar(text[n]);
    }
  }

  lemma {:induction false} BytesFromFront(bytes: seq<Byte>)
    requires bytes != []
    ensures EscapeBytes(bytes) == EscapeByte(bytes[0]) + EscapeBytes(bytes[1..])
  {
    hide EscapeByte;
    var n := |bytes| - 1;
    if n == 0 {
      assert EscapeBytes(bytes[..0]) == [] && bytes[1..] == [];
    } else {
      BytesFromFront(bytes[..n]);
      assert bytes[..n][1..] == bytes[1..][..n - 1];
      assert EscapeBytes(bytes[1..]) == EscapeBytes(bytes[1..][..n - 1]) + EscapeByte(bytes[n]);
    }
  }

  /** A Rust compiler reads the string literal as the text, and refuses it exactly
      when the text has a lone surrogate. */
  lemma {:induction false} TextReturns(text: seq<int>)
    requires forall c <- text :: Character(c)
    ensures ReadBody(EscapeText(text), false) == if forall c <- text :: Scalar(c) then Accepted(text) else Rejected
  {
    hide EscapeChar, ReadPiece, EscapeText, Scalar, Character;
    if text == [] {
      NoText();
    } else {
      TextFromFront(text);
      assert text[0] in text;
      CharReads(text[0], EscapeText(text[1..]));
      TextReturns(text[1..]);
      assert text == [text[0]] + text[1..];
    }
  }

  lemma NoText()
    ensures EscapeText([]) == [] && EscapeBytes([]) == []
  {
  }

  /** And the byte string literal as the text's UTF-8 encoding. */
  lemma {:induction false} BytesReturn(bytes: seq<Byte>)
    ensures ReadBody(EscapeBytes(bytes), true) == Accepted(bytes)
  {
    hide EscapeByte, ReadPiece, EscapeBytes;
    if bytes == [] {
      NoText();
    } else {
      BytesFromFront(bytes);
      ByteReads(bytes[0], EscapeBytes(bytes[1..]));
      BytesReturn(bytes[1..]);
      assert bytes == [bytes[0]] + bytes[1..];
    }
  }
}
