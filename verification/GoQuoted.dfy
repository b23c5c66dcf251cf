/** Decoding Go quoted strings (`decode_go_quoted` in scripts/s05_protocol.py).
    Texts are sequences of code points, as Python strings are. */
module GoQuoted {
  import opened Results
  import opened Utf8

  const QUOTE := 34
  const BACKSLASH := 92

  /** The single-letter escapes and the bytes they stand for. */
  const CONTROLS: map<int, Byte> := map['a' as int := 7, 'b' as int := 8, 'f' as int := 12, 'n' as int := 10,
                                        'r' as int := 13, 't' as int := 9, 'v' as int := 11, BACKSLASH := 92, QUOTE := 34]

  predicate IsHex(c: int) {
    '0' as int <= c <= '9' as int || 'a' as int <= c <= 'f' as int || 'A' as int <= c <= 'F' as int
  }

  predicate IsOctal(c: int) {
    '0' as int <= c <= '7' as int
  }

  function HexDigit(c: int): (d: int)
    requires IsHex(c)
    ensures 0 <= d < 16
  {
    if c <= '9' as int then c - '0' as int else if c <= 'F' as int then c - 'A' as int + 10 else c - 'a' as int + 10
  }

  function HexValue(digits: seq<int>): (n: nat)
    requires forall c <- digits :: IsHex(c)
  {
    if digits == [] then 0 else 16 * HexValue(digits[..|digits| - 1]) + HexDigit(digits[|digits| - 1])
  }

  function OctalValue(digits: seq<int>): (n: nat)
    requires forall c <- digits :: IsOctal(c)
  {
    if digits == [] then 0
    else
      assert IsOctal(digits[|digits| - 1]);
      8 * OctalValue(digits[..|digits| - 1]) + (digits[|digits| - 1] - '0' as int)
  }

  // --- the spellings of Go's string literals --------------------------------------------

  datatype Unit =
    | Raw(c: int)
    | Control(letter: int)
    | HexByte(digits: seq<int>)
    | OctalByte(digits: seq<int>)
    | ShortPoint(digits: seq<int>)
    | LongPoint(digits: seq<int>)

  predicate HexDigits(digits: seq<int>, width: nat) {
    |digits| == width && forall c <- digits :: IsHex(c)
  }

  predicate OctalDigits(digits: seq<int>) {
    |digits| == 3 && forall c <- digits :: IsOctal(c)
  }

  predicate Legal(u: Unit) {
    match u
    case Raw(c) => c != QUOTE && c != BACKSLASH && c >= 32 && Scalar(c)
    case Control(letter) => letter in CONTROLS
    case HexByte(digits) => HexDigits(digits, 2)
    case OctalByte(digits) => OctalDigits(digits) && OctalValue(digits) <= 255
    case ShortPoint(digits) => HexDigits(digits, 4) && Scalar(HexValue(digits))
    case LongPoint(digits) => HexDigits(digits, 8) && Scalar(HexValue(digits))
  }

  function Spell(u: Unit): seq<int> {
    match u
    case Raw(c) => [c]
    case Control(letter) => [BACKSLASH, letter]
    case HexByte(digits) => [BACKSLASH, 'x' as int] + digits
    case OctalByte(digits) => [BACKSLASH] + digits
    case ShortPoint(digits) => [BACKSLASH, 'u' as int] + digits
    case LongPoint(digits) => [BACKSLASH, 'U' as int] + digits
  }

  lemma {:induction false} HexBound(digits: seq<int>)
    requires forall c <- digits :: IsHex(c)
    ensures |digits| == 2 ==> HexValue(digits) < 256
  {
    if |digits| == 2 {
      assert digits[..1][..0] == [];
      assert HexValue(digits[..1]) == 16 * HexValue(digits[..1][..0]) + HexDigit(digits[0]);
    }
  }

  function Meaning(u: Unit): seq<Byte>
    requires Legal(u)
  {
    match u
    case Raw(c) => Encode(c)
    case Control(letter) => [CONTROLS[letter]]
    case HexByte(digits) => HexBound(digits); [HexValue(digits)]
    case OctalByte(digits) => [OctalValue(digits)]
    case ShortPoint(digits) => Encode(HexValue(digits))
    case LongPoint(digits) => Encode(HexValue(digits))
  }

  function SpellAll(units: seq<Unit>): seq<int> {
    if units == [] then [] else Spell(units[0]) + SpellAll(units[1..])
  }

  function MeaningAll(units: seq<Unit>): seq<Byte>
    requires forall u <- units :: Legal(u)
  {
    if units == [] then [] else Meaning(units[0]) + MeaningAll(units[1..])
  }

  function Quoted(body: seq<int>): seq<int> {
    [QUOTE] + body + [QUOTE]
  }

  // --- the decoder --------------------------------------------------------------------------

  /** The unit a body starts with, if it starts with a legal one. */
  function ReadUnit(body: seq<int>): Verdict<Unit>
    requires body != []
  {
    var c := body[0];
    if c != BACKSLASH then (if Legal(Raw(c)) then Accepted(Raw(c)) else Rejected)
    else if |body| < 2 then Rejected
    else
      var escape := body[1];
      if escape in CONTROLS then Accepted(Control(escape))
      else if escape == 'x' as int || escape == 'u' as int || escape == 'U' as int then ReadHex(body, escape)
      else if IsOctal(escape) then
        if |body| < 4 || !Legal(OctalByte(body[1..4])) then Rejected else Accepted(OctalByte(body[1..4]))
      else Rejected
  }

  function EscapeWidth(escape: int): nat {
    if escape == 'x' as int then 2 else if escape == 'u' as int then 4 else 8
  }

  function HexUnitOf(escape: int, digits: seq<int>): Unit {
    if escape == 'x' as int then HexByte(digits) else if escape == 'u' as int then ShortPoint(digits) else LongPoint(digits)
  }

  /** A hexadecimal escape: as many digits as its letter asks for, all of them in the body. */
  function ReadHex(body: seq<int>, escape: int): Verdict<Unit>
  {
    var width := EscapeWidth(escape);
    if 2 + width > |body| then Rejected
    else
      var u := HexUnitOf(escape, body[2..2 + width]);
      if Legal(u) then Accepted(u) else Rejected
  }

  lemma HexSpells(body: seq<int>, escape: int)
    requires |body| >= 2 && body[..2] == [BACKSLASH, escape]
    requires escape == 'x' as int || escape == 'u' as int || escape == 'U' as int
    requires ReadHex(body, escape).Accepted?
    ensures var u := ReadHex(body, escape).value; Legal(u) && |Spell(u)| <= |body| && Spell(u) == body[..|Spell(u)|]
  {
    hide Scalar, HexValue, OctalValue;
    var width := EscapeWidth(escape);
    var digits := body[2..2 + width];
    assert body[..2 + width] == body[..2] + digits;
    if escape == 'x' as int {
      assert Spell(HexByte(digits)) == body[..2] + digits;
    } else if escape == 'u' as int {
      assert Spell(ShortPoint(digits)) == body[..2] + digits;
    } else {
      assert Spell(LongPoint(digits)) == body[..2] + digits;
    }
  }

  lemma ReadUnitSpells(body: seq<int>)
    requires body != [] && ReadUnit(body).Accepted?
    ensures var u := ReadUnit(body).value; Legal(u) && Spell(u) <= body && |Spell(u)| > 0
  {
    hide Scalar, HexValue, OctalValue, ReadHex;
    var u := ReadUnit(body).value;
    if body[0] == BACKSLASH {
      assert body[..2] == [BACKSLASH, body[1]];
      if body[1] !in CONTROLS {
        if IsOctal(body[1]) {
          assert Spell(u) == body[..4];
        } else {
          HexSpells(body, body[1]);
        }
      }
    } else {
      assert body[..1] == [body[0]];
    }
  }

  function DecodeBody(body: seq<int>): Verdict<seq<Byte>>
    decreases |body|
  {
    if body == [] then Accepted([])
    else
      var u :- ReadUnit(body);
      ReadUnitSpells(body);
      var rest :- DecodeBody(body[|Spell(u)|..]);
      Accepted(Meaning(u) + rest)
  }

  function Decode(quoted: seq<int>): Verdict<seq<Byte>> {
    if |quoted| < 2 || quoted[0] != QUOTE || quoted[|quoted| - 1] != QUOTE then Rejected
    else DecodeBody(quoted[1..|quoted| - 1])
  }

  // --- the loop -------------------------------------------------------------------------------

  lemma Window(quoted: seq<int>, position: nat, end: nat, offset: nat, width: nat)
    requires position + offset + width <= end <= |quoted|
    ensures quoted[position..end][offset..offset + width] == quoted[position + offset..position + offset + width]
  {
    var inner, outer := quoted[position..end][offset..offset + width], quoted[position + offset..position + offset + width];
    assert forall k | 0 <= k < width :: inner[k] == outer[k];
  }

  /** The digits of a hexadecimal escape, from `at` on. */
  method DecodeHex(quoted: seq<int>, at: nat, end: nat, escape: int) returns (r: Verdict<seq<Byte>>)
    requires 2 <= at <= end < |quoted|
    requires escape == 'x' as int || escape == 'u' as int || escape == 'U' as int
    ensures var unit := ReadHex(quoted[at - 2..end], escape);
            if unit.Rejected? then r.Rejected? else Legal(unit.value) && r == Accepted(Meaning(unit.value))
  {
    hide Encode, Scalar;
    var width := EscapeWidth(escape);
    if at + width > end {
      return Rejected;
    }
    var digits := quoted[at..at + width];
    Window(quoted, at - 2, end, 2, width);
    if exists d <- digits :: !IsHex(d) {
      return Rejected;
    }
    var number := HexValue(digits);
    if escape == 'x' as int {
      HexBound(digits);
      return Accepted([number]);
    }
    if !Scalar(number) {
      return Rejected;
    }
    return Accepted(Encode(number));
  }

  /** The three digits of an octal escape, from `at` on. */
  method DecodeOctal(quoted: seq<int>, at: nat, end: nat) returns (r: Verdict<seq<Byte>>)
    requires 1 <= at <= end < |quoted|
    ensures var body := quoted[at - 1..end];
            if |body| < 4 || !Legal(OctalByte(body[1..4])) then r.Rejected?
            else r == Accepted(Meaning(OctalByte(body[1..4])))
  {
    if at + 3 > end {
      return Rejected;
    }
    var digits := quoted[at..at + 3];
    Window(quoted, at - 1, end, 1, 3);
    if (exists d <- digits :: !IsOctal(d)) || OctalValue(digits) > 255 {
      return Rejected;
    }
    return Accepted([OctalValue(digits)]);
  }

  /** One turn of the loop: the bytes of the unit at `position`, and the position
      after it, which moves and never passes the closing quote. */
  method DecodeUnit(quoted: seq<int>, position: nat, end: nat) returns (r: Verdict<seq<Byte>>, next: nat)
    requires position < end < |quoted|
    ensures var unit := ReadUnit(quoted[position..end]);
            if unit.Rejected? then r.Rejected?
            else Legal(unit.value) && r == Accepted(Meaning(unit.value)) && next == position + |Spell(unit.value)|
    ensures r.Accepted? ==> position < next <= end
  {
    hide ReadHex, HexValue, OctalValue, Encode, Scalar;
    ghost var body := quoted[position..end];
    if ReadUnit(body).Accepted? {
      ReadUnitSpells(body);
    }
    var c := quoted[position];
    next := position + 1;
    if c != BACKSLASH {
      if c == QUOTE || c < 32 || !Scalar(c) {
        return Rejected, next;
      }
      return Accepted(Encode(c)), next;
    }
    if next >= end {
      return Rejected, next;
    }
    var escape := quoted[next];
    next := next + 1;
    if escape in CONTROLS {
      return Accepted([CONTROLS[escape]]), next;
    }
    if escape == 'x' as int || escape == 'u' as int || escape == 'U' as int {
      r := DecodeHex(quoted, next, end, escape);
      HexLength(body, escape);
      return r, next + EscapeWidth(escape);
    }
    if IsOctal(escape) {
      r := DecodeOctal(quoted, next - 1, end);
      return r, next + 2;
    }
    return Rejected, next;
  }

  lemma HexLength(body: seq<int>, escape: int)
    requires escape == 'x' as int || escape == 'u' as int || escape == 'U' as int
    ensures ReadHex(body, escape).Accepted? ==>
              2 + EscapeWidth(escape) <= |body| && |Spell(ReadHex(body, escape).value)| == 2 + EscapeWidth(escape)
  {
  }

  method DecodeGoQuoted(quoted: seq<int>) returns (r: Verdict<seq<Byte>>)
    ensures r == Decode(quoted)
  {
    hide ReadUnit, Meaning, Legal, Spell;
    if |quoted| < 2 || quoted[0] != QUOTE || quoted[|quoted| - 1] != QUOTE {
      return Rejected;
    }
    var out: seq<Byte> := [];
    var position, end: nat := 1, |quoted| - 1;
    assert Decode(quoted).Accepted? ==> [] + Decode(quoted).value == Decode(quoted).value;
    while position < end
      invariant 1 <= position <= end
      invariant var rest := DecodeBody(quoted[position..end]);
                Decode(quoted) == if rest.Rejected? then Rejected else Accepted(out + rest.value)
      decreases end - position
    {
      var bytes, next := DecodeUnit(quoted, position, end);
      if bytes.Rejected? {
        return Rejected;
      }
      assert quoted[position..end][next - position..] == quoted[next..end];
      ghost var rest := DecodeBody(quoted[next..end]);
      if rest.Accepted? {
        assert out + (bytes.value + rest.value) == (out + bytes.value) + rest.value;
      }
      out := out + bytes.value;
      position := next;
    }
    assert quoted[position..end] == [] && out + [] == out;
    return Accepted(out);
  }

  // --- what the decoder accepts -----------------------------------------------------------------

  /** A legal spelling is read as itself, whatever follows it. */
  lemma SpelledReads(u: Unit, rest: seq<int>)
    requires Legal(u)
    ensures Spell(u) != [] && ReadUnit(Spell(u) + rest) == Accepted(u)
  {
    var body := Spell(u) + rest;
    match u {
      case Raw(_) =>
      case Control(_) =>
      case HexByte(digits) => assert body[2..4] == digits;
      case OctalByte(digits) =>
        assert body[1..4] == digits;
        assert digits[0] in digits && IsOctal(digits[0]);
      case ShortPoint(digits) => assert body[2..6] == digits;
      case LongPoint(digits) => assert body[2..10] == digits;
    }
  }

  /** Every spelling of a byte string decodes to it. */
  lemma {:induction false} SpelledDecodes(units: seq<Unit>)
    requires forall u <- units :: Legal(u)
    ensures DecodeBody(SpellAll(units)) == Accepted(MeaningAll(units))
  {
    hide ReadUnit, Meaning, Legal, Spell;
    if units != [] {
      var u, rest := units[0], SpellAll(units[1..]);
      assert u in units;
      SpelledReads(u, rest);
      SpelledDecodes(units[1..]);
      assert (Spell(u) + rest)[|Spell(u)|..] == rest;
    }
  }

  /** The units of an accepted body. */
  function Units(body: seq<int>): (units: seq<Unit>)
    requires DecodeBody(body).Accepted?
    ensures forall u <- units :: Legal(u)
    decreases |body|
  {
    if body == [] then []
    else
      ReadUnitSpells(body);
      var u := ReadUnit(body).value;
      [u] + Units(body[|Spell(u)|..])
  }

  lemma {:induction false} AcceptedIsSpelled(body: seq<int>)
    requires DecodeBody(body).Accepted?
    ensures SpellAll(Units(body)) == body
    decreases |body|
  {
    hide ReadUnit, Meaning, Legal, Spell;
    if body != [] {
      ReadUnitSpells(body);
      var u := ReadUnit(body).value;
      AcceptedIsSpelled(body[|Spell(u)|..]);
      assert Units(body)[1..] == Units(body[|Spell(u)|..]);
      assert body == Spell(u) + body[|Spell(u)|..];
    }
  }

  ghost predicate Spells(quoted: seq<int>, units: seq<Unit>) {
    (forall u <- units :: Legal(u)) && quoted == Quoted(SpellAll(units))
  }

  /** The main result: the decoder accepts exactly the quoted spellings, and
      returns the bytes they spell. */
  lemma DecodesIffSpelled(quoted: seq<int>)
    ensures Decode(quoted).Accepted? <==> exists units :: Spells(quoted, units)
    ensures forall units | Spells(quoted, units) :: Decode(quoted) == Accepted(MeaningAll(units))
  {
    hide ReadUnit, Meaning, Legal, Spell;
    if Decode(quoted).Accepted? {
      var body := quoted[1..|quoted| - 1];
      AcceptedIsSpelled(body);
      assert quoted == Quoted(body);
      assert Spells(quoted, Units(body));
    }
    forall units | Spells(quoted, units)
      ensures Decode(quoted) == Accepted(MeaningAll(units))
    {
      SpelledDecodes(units);
      assert quoted[1..|quoted| - 1] == SpellAll(units);
    }
  }

  lemma SpellingUnique(a: seq<Unit>, b: seq<Unit>)
    requires (forall u <- a :: Legal(u)) && (forall u <- b :: Legal(u)) && SpellAll(a) == SpellAll(b)
    ensures a == b
  {
    hide ReadUnit, Meaning, Legal, Spell;
    if a != [] {
      assert a[0] in a;
      SpelledReads(a[0], SpellAll(a[1..]));
      if b != [] {
        assert b[0] in b;
        SpelledReads(b[0], SpellAll(b[1..]));
        assert SpellAll(a)[|Spell(a[0])|..] == SpellAll(a[1..]);
        assert SpellAll(b)[|Spell(b[0])|..] == SpellAll(b[1..]);
        SpellingUnique(a[1..], b[1..]);
        assert a == [a[0]] + a[1..] && b == [b[0]] + b[1..];
      }
    } else if b != [] {
      assert b[0] in b;
      SpelledReads(b[0], SpellAll(b[1..]));
    }
  }

  // --- every byte string has a spelling ------------------------------------------------------------

  function HexChar(d: int): int
    requires 0 <= d < 16
  {
    if d < 10 then '0' as int + d else 'a' as int + d - 10
  }

  function HexUnit(b: Byte): Unit {
    HexByte([HexChar(b / 16), HexChar(b % 16)])
  }

  lemma HexUnitMeans(b: Byte)
    ensures Legal(HexUnit(b)) && Meaning(HexUnit(b)) == [b]
  {
    var digits := [HexChar(b / 16), HexChar(b % 16)];
    assert HexDigit(digits[0]) == b / 16 && HexDigit(digits[1]) == b % 16;
    assert digits[..1] == [digits[0]] && [digits[0]][..0] == [];
    assert HexValue([digits[0]]) == HexDigit(digits[0]);
    assert HexValue(digits) == 16 * HexValue(digits[..1]) + HexDigit(digits[1]);
  }

  function HexUnits(bytes: seq<Byte>): seq<Unit> {
    if bytes == [] then [] else [HexUnit(bytes[0])] + HexUnits(bytes[1..])
  }

  lemma {:induction false} HexUnitsMean(bytes: seq<Byte>)
    ensures forall u <- HexUnits(bytes) :: Legal(u)
    ensures MeaningAll(HexUnits(bytes)) == bytes
  {
    hide HexUnit, Meaning, Legal;
    if bytes != [] {
      HexUnitMeans(bytes[0]);
      HexUnitsMean(bytes[1..]);
      assert HexUnits(bytes)[1..] == HexUnits(bytes[1..]);
    }
  }

  /** Any bytes at all come back from their hexadecimal spelling. */
  lemma AnyBytesReturn(bytes: seq<Byte>)
    ensures Decode(Quoted(SpellAll(HexUnits(bytes)))) == Accepted(bytes)
  {
    hide Decode, MeaningAll, HexUnits, SpellAll;
    HexUnitsMean(bytes);
    var quoted := Quoted(SpellAll(HexUnits(bytes)));
    assert Spells(quoted, HexUnits(bytes));
    DecodesIffSpelled(quoted);
  }
}
