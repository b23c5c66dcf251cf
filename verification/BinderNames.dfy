/** Symbol names whose literal bytes embed a numeric identity
    (`name_identity` in scripts/s07_binder.py). */
module BinderNames {
  import opened Results
  import opened Decimals

  type Byte = b: int | 0 <= b < 256

  datatype IdentityKind = OfNode | OfSymbol | OfOther

  datatype Identity = Identity(kind: IdentityKind, target: int, prefix: seq<Byte>, suffix: seq<Byte>)

  datatype Name = Name(raw: seq<Byte>, identity: Option<Identity>)

  /** The delimiters, as byte strings: `\xfe"`, `"pattern@`, `\xfe#` and `@#`. */
  const PATTERN_OPEN: seq<Byte> := [0xfe, 34]
  const PATTERN_CLOSE: seq<Byte> := [34, 112, 97, 116, 116, 101, 114, 110, 64]
  const PRIVATE_OPEN: seq<Byte> := [0xfe, 35]
  const PRIVATE_CLOSE: seq<Byte> := [64, 35]

  predicate EndsWith(bytes: seq<Byte>, suffix: seq<Byte>) {
    |suffix| <= |bytes| && bytes[|bytes| - |suffix|..] == suffix
  }

  predicate IsDigit(b: Byte) {
    48 <= b <= 57
  }

  predicate Delimited(id: Identity) {
    if id.kind.OfNode? then
      PATTERN_OPEN <= id.prefix && EndsWith(id.prefix, PATTERN_CLOSE) && id.suffix == []
    else
      id.kind.OfSymbol? && id.prefix == PRIVATE_OPEN && PRIVATE_CLOSE <= id.suffix
  }

  /** The checks of `name_identity`, apart from the edge it records. */
  predicate NameOk(name: Name)
  {
    name.identity.None? ||
    var id := name.identity.value;
    && !id.kind.OfOther?
    && id.prefix <= name.raw && EndsWith(name.raw, id.suffix)
    && var number := Middle(name.raw, id.prefix, id.suffix);
       && number != [] && (forall b <- number :: IsDigit(b)) && number[0] != 48
       && Delimited(id)
  }

  function Ascii(ds: seq<Digit>): (bytes: seq<Byte>)
    ensures |bytes| == |ds|
  {
    seq(|ds|, i requires 0 <= i < |ds| => var d: int := ds[i]; d + 48)
  }

  /** The literal bytes are the delimiters around the numeral of a positive identity. */
  ghost predicate Reconstructs(raw: seq<Byte>, id: Identity, n: nat) {
    n > 0 && raw == id.prefix + Ascii(Digits(n)) + id.suffix
  }

  function AsDigit(number: seq<Byte>, i: int): Digit
    requires 0 <= i < |number| && forall b <- number :: IsDigit(b)
  {
    assert IsDigit(number[i]);
    var code: int := number[i];
    var d: int := code - 48;
    d
  }

  function Numeral(number: seq<Byte>): (ds: seq<Digit>)
    requires forall b <- number :: IsDigit(b)
    ensures Ascii(ds) == number
  {
    seq(|number|, i requires 0 <= i < |number| => AsDigit(number, i))
  }

  /** What stands between the two delimiters. */
  function Middle(raw: seq<Byte>, prefix: seq<Byte>, suffix: seq<Byte>): seq<Byte>
  {
    if |prefix| <= |raw| - |suffix| then raw[|prefix|..|raw| - |suffix|] else []
  }

  lemma MiddleParts(raw: seq<Byte>, prefix: seq<Byte>, suffix: seq<Byte>, middle: seq<Byte>)
    requires middle != []
    ensures prefix <= raw && EndsWith(raw, suffix) && Middle(raw, prefix, suffix) == middle
       <==> raw == prefix + middle + suffix
  {
    if prefix <= raw && EndsWith(raw, suffix) && Middle(raw, prefix, suffix) == middle {
      var end := |raw| - |suffix|;
      assert raw == raw[..|prefix|] + raw[|prefix|..end] + raw[end..];
    }
    if raw == prefix + middle + suffix {
      assert raw[..|prefix|] == prefix && raw[|prefix| + |middle|..] == suffix;
      assert raw[|prefix|..|prefix| + |middle|] == middle;
    }
  }

  lemma NumberIsNumeral(number: seq<Byte>)
    requires number != [] && (forall b <- number :: IsDigit(b)) && number[0] != 48
    ensures Value(Numeral(number)) > 0 && Ascii(Digits(Value(Numeral(number)))) == number
  {
    CanonicalIsPrinted(Numeral(number));
  }

  lemma PrintedIsNumber(n: nat)
    requires n > 0
    ensures var number := Ascii(Digits(n));
            number != [] && (forall b <- number :: IsDigit(b)) && number[0] != 48
  {
    var number := Ascii(Digits(n));
    forall b <- number
      ensures IsDigit(b)
    {
      var i :| 0 <= i < |number| && number[i] == b;
    }
  }

  /** `name_identity` accepts an identity exactly when its fragments and one
      positive number reconstruct the literal bytes between known delimiters. */
  lemma NameOkIffReconstructs(name: Name)
    requires name.identity.Some?
    ensures var id := name.identity.value;
            NameOk(name) <==> Delimited(id) && exists n: nat :: Reconstructs(name.raw, id, n)
  {
    var id := name.identity.value;
    var number := Middle(name.raw, id.prefix, id.suffix);
    if NameOk(name) {
      NumberIsNumeral(number);
      MiddleParts(name.raw, id.prefix, id.suffix, number);
      assert Reconstructs(name.raw, id, Value(Numeral(number)));
    }
    if n: nat :| Delimited(id) && Reconstructs(name.raw, id, n) {
      PrintedIsNumber(n);
      MiddleParts(name.raw, id.prefix, id.suffix, Ascii(Digits(n)));
    }
  }

  /** The number is determined by the name, so dropping it for the comparison
      loses nothing but the number itself. */
  lemma NumberUnique(raw: seq<Byte>, id: Identity, n: nat, m: nat)
    requires Reconstructs(raw, id, n) && Reconstructs(raw, id, m)
    ensures n == m
  {
    var a, b := Ascii(Digits(n)), Ascii(Digits(m));
    assert a == raw[|id.prefix|..|raw| - |id.suffix|] == b;
    assert forall i | 0 <= i < |a| :: Digits(n)[i] == a[i] - 48 && Digits(m)[i] == b[i] - 48;
    assert Digits(n) == Digits(m);
    ReadBack(n);
    ReadBack(m);
  }
}
