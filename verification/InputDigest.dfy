/** The byte stream that `loaded_input_digest` feeds to its hash (scripts/s07_benchmark_inputs.py).
    The hash itself is not part of this model: two lists have the same digest input exactly
    when they are the same list. */
module InputDigest {
  import opened Results
  import opened Utf8

  const WORD := 0x1_0000_0000_0000_0000
  const HALF_WORD := 0x1_0000_0000
  const HALF_SIGN := 0x8000_0000

  /** The characters of 'S07-loaded-inputs-v1' and a closing zero. */
  const DOMAIN: seq<Byte> := [83, 48, 55, 45, 108, 111, 97, 100, 101, 100, 45,
                              105, 110, 112, 117, 116, 115, 45, 118, 49, 0]

  datatype Recipe = Recipe(
    filename: seq<int>,
    path: seq<int>,
    scriptKind: int,
    jsx: bool,
    force: bool,
    sourceBytes: int,
    sourceHash: seq<int>)

  predicate Text(name: seq<int>) {
    (forall c <- name :: Scalar(c)) && |EncodeAll(name)| < WORD
  }

  predicate LowerHex(c: int) {
    '0' as int <= c <= '9' as int || 'a' as int <= c <= 'f' as int
  }

  predicate HashText(hash: seq<int>) {
    |hash| == 64 && forall c <- hash :: LowerHex(c)
  }

  predicate Valid(r: Recipe) {
    && Text(r.filename) && Text(r.path)
    && -HALF_SIGN <= r.scriptKind < HALF_SIGN
    && 0 <= r.sourceBytes < WORD
    && HashText(r.sourceHash)
  }

  predicate ValidList(recipes: seq<Recipe>) {
    |recipes| < WORD && forall r <- recipes :: Valid(r)
  }

  // --- fields --------------------------------------------------------------------------------

  function Power(width: nat): (p: nat)
    ensures p > 0
  {
    if width == 0 then 1 else 256 * Power(width - 1)
  }

  function BigEndian(n: nat, width: nat): (bytes: seq<Byte>)
    ensures |bytes| == width
  {
    if width == 0 then [] else BigEndian(n / 256, width - 1) + [n % 256]
  }

  function FromBigEndian(bytes: seq<Byte>): nat {
    if bytes == [] then 0
    else
      var last: int := bytes[|bytes| - 1];
      256 * FromBigEndian(bytes[..|bytes| - 1]) + last
  }

  lemma {:induction false} NumberReturns(n: nat, width: nat)
    requires n < Power(width)
    ensures FromBigEndian(BigEndian(n, width)) == n
  {
    if width > 0 {
      NumberReturns(n / 256, width - 1);
      assert BigEndian(n, width)[..width - 1] == BigEndian(n / 256, width - 1);
    }
  }

  lemma Powers()
    ensures Power(4) == HALF_WORD && Power(8) == WORD
  {
    assert Power(4) == 256 * Power(3) == 256 * (256 * Power(2));
    assert Power(8) == 256 * Power(7) == 256 * (256 * Power(6));
    assert Power(6) == 256 * Power(5) == 256 * (256 * Power(4));
  }

  /** Two's complement of a 32-bit value, and back. */
  function Unsigned(k: int): (n: nat)
    requires -HALF_SIGN <= k < HALF_SIGN
    ensures n < HALF_WORD
  {
    if k < 0 then k + HALF_WORD else k
  }

  function Signed(n: nat): int {
    if n >= HALF_SIGN then n - HALF_WORD else n
  }

  function Flag(b: bool): Byte {
    if b then 1 else 0
  }

  function Nibble(c: int): (n: nat)
    requires LowerHex(c)
    ensures n < 16
  {
    if c <= '9' as int then c - '0' as int else c - 'a' as int + 10
  }

  function NibbleText(n: nat): int
    requires n < 16
  {
    if n < 10 then '0' as int + n else 'a' as int + n - 10
  }

  function FromHex(hash: seq<int>): (bytes: seq<Byte>)
    requires |hash| % 2 == 0 && forall c <- hash :: LowerHex(c)
    ensures |bytes| * 2 == |hash|
  {
    if hash == [] then [] else [16 * Nibble(hash[0]) + Nibble(hash[1])] + FromHex(hash[2..])
  }

  function ToHex(bytes: seq<Byte>): seq<int> {
    if bytes == [] then [] else [NibbleText(bytes[0] / 16), NibbleText(bytes[0] % 16)] + ToHex(bytes[1..])
  }

  lemma {:induction false} HashReturns(hash: seq<int>)
    requires |hash| % 2 == 0 && forall c <- hash :: LowerHex(c)
    ensures ToHex(FromHex(hash)) == hash
  {
    if hash != [] {
      HashReturns(hash[2..]);
      assert LowerHex(hash[0]) && LowerHex(hash[1]);
      assert hash == [hash[0], hash[1]] + hash[2..];
    }
  }

  // --- the stream -------------------------------------------------------------------------------

  function Name(name: seq<int>): seq<Byte>
    requires Text(name)
  {
    BigEndian(|EncodeAll(name)|, 8) + EncodeAll(name)
  }

  /** The fixed-width fields of a row. */
  function Options(r: Recipe): (bytes: seq<Byte>)
    requires Valid(r)
    ensures |bytes| == 14
  {
    BigEndian(Unsigned(r.scriptKind), 4) + [Flag(r.jsx), Flag(r.force)] + BigEndian(r.sourceBytes, 8)
  }

  function Row(r: Recipe): seq<Byte>
    requires Valid(r)
  {
    Name(r.filename) + Name(r.path) + Options(r) + FromHex(r.sourceHash)
  }

  function Rows(recipes: seq<Recipe>): seq<Byte>
    requires forall r <- recipes :: Valid(r)
  {
    if recipes == [] then [] else Rows(recipes[..|recipes| - 1]) + Row(recipes[|recipes| - 1])
  }

  function Stream(recipes: seq<Recipe>): seq<Byte>
    requires ValidList(recipes)
  {
    DOMAIN + BigEndian(|recipes|, 8) + Rows(recipes)
  }

  /** The field updates of one name. */
  method FeedName(digest: seq<Byte>, name: seq<int>) returns (r: Verdict<seq<Byte>>)
    ensures r == if Text(name) then Accepted(digest + Name(name)) else Rejected
  {
    if exists c <- name :: !Scalar(c) {
      return Rejected;
    }
    var value := EncodeAll(name);
    if |value| >= WORD {
      return Rejected;
    }
    r := Accepted(digest + BigEndian(|value|, 8) + value);
    assert digest + BigEndian(|value|, 8) + value == digest + (BigEndian(|value|, 8) + value);
  }

  method FeedRow(digest: seq<Byte>, row: Recipe) returns (r: Verdict<seq<Byte>>)
    ensures r == if Valid(row) then Accepted(digest + Row(row)) else Rejected
  {
    hide Text, Name, BigEndian, FromHex;
    var fed := FeedName(digest, row.filename);
    if fed.Rejected? {
      return Rejected;
    }
    fed := FeedName(fed.value, row.path);
    if fed.Rejected? {
      return Rejected;
    }
    if !(-HALF_SIGN <= row.scriptKind < HALF_SIGN) || !(0 <= row.sourceBytes < WORD) {
      return Rejected;
    }
    if |row.sourceHash| != 64 || exists c <- row.sourceHash :: !LowerHex(c) {
      return Rejected;
    }
    var options := BigEndian(Unsigned(row.scriptKind), 4) + [Flag(row.jsx), Flag(row.force)] + BigEndian(row.sourceBytes, 8);
    r := Accepted(fed.value + options + FromHex(row.sourceHash));
    assert options == Options(row);
    assert digest + Name(row.filename) + Name(row.path) + Options(row) + FromHex(row.sourceHash) == digest + Row(row);
  }

  /** The loop: a stream for every valid list, and a rejection for every other. */
  method LoadedInputStream(recipes: seq<Recipe>) returns (r: Verdict<seq<Byte>>)
    ensures r == if ValidList(recipes) then Accepted(Stream(recipes)) else Rejected
  {
    hide Valid, Row, BigEndian;
    if |recipes| >= WORD {
      return Rejected;
    }
    var digest := DOMAIN + BigEndian(|recipes|, 8);
    ghost var header := digest;
    assert header + [] == header;
    for i := 0 to |recipes|
      invariant forall k | 0 <= k < i :: Valid(recipes[k])
      invariant forall x <- recipes[..i] :: Valid(x)
      invariant digest == header + Rows(recipes[..i])
    {
      var fed := FeedRow(digest, recipes[i]);
      if fed.Rejected? {
        assert !Valid(recipes[i]) && recipes[i] in recipes;
        return Rejected;
      }
      assert recipes[..i + 1] == recipes[..i] + [recipes[i]];
      assert recipes[..i + 1][..i] == recipes[..i];
      assert header + (Rows(recipes[..i]) + Row(recipes[i])) == (header + Rows(recipes[..i])) + Row(recipes[i]);
      digest := fed.value;
    }
    assert recipes[..|recipes|] == recipes;
    return Accepted(digest);
  }

  // --- reading the stream back ----------------------------------------------------------------------

  datatype Read<T> = Read(value: T, rest: seq<Byte>)

  function ReadNumber(bytes: seq<Byte>, width: nat): Verdict<Read<nat>> {
    if |bytes| < width then Rejected else Accepted(Read(FromBigEndian(bytes[..width]), bytes[width..]))
  }

  function ReadName(bytes: seq<Byte>): Verdict<Read<seq<int>>> {
    var size :- ReadNumber(bytes, 8);
    if |size.rest| < size.value then Rejected
    else Accepted(Read(DecodeAll(size.rest[..size.value]), size.rest[size.value..]))
  }

  function ReadRow(bytes: seq<Byte>): Verdict<Read<Recipe>> {
    var filename :- ReadName(bytes);
    var path :- ReadName(filename.rest);
    var kind :- ReadNumber(path.rest, 4);
    if |kind.rest| < 2 then Rejected
    else
      var size :- ReadNumber(kind.rest[2..], 8);
      if |size.rest| < 32 then Rejected
      else Accepted(Read(Recipe(filename.value, path.value, Signed(kind.value), kind.rest[0] == 1, kind.rest[1] == 1,
                                size.value, ToHex(size.rest[..32])), size.rest[32..]))
  }

  function ReadRows(bytes: seq<Byte>, count: nat): Verdict<seq<Recipe>> {
    if count == 0 then (if bytes == [] then Accepted([]) else Rejected)
    else
      var first :- ReadRow(bytes);
      var others :- ReadRows(first.rest, count - 1);
      Accepted([first.value] + others)
  }

  /** The list a stream was written from. */
  function ReadStream(stream: seq<Byte>): Verdict<seq<Recipe>> {
    if |stream| < |DOMAIN| || stream[..|DOMAIN|] != DOMAIN then Rejected
    else
      var count :- ReadNumber(stream[|DOMAIN|..], 8);
      ReadRows(count.rest, count.value)
  }

  lemma NumberReads(n: nat, width: nat, rest: seq<Byte>)
    requires n < Power(width)
    ensures ReadNumber(BigEndian(n, width) + rest, width) == Accepted(Read(n, rest))
  {
    NumberReturns(n, width);
    var bytes := BigEndian(n, width) + rest;
    assert bytes[..width] == BigEndian(n, width) && bytes[width..] == rest;
  }

  lemma NameReads(name: seq<int>, rest: seq<Byte>)
    requires Text(name)
    ensures ReadName(Name(name) + rest) == Accepted(Read(name, rest))
  {
    hide BigEndian, ReadNumber, EncodeAll, Power, DecodeAll;
    Powers();
    var text := EncodeAll(name);
    var size := BigEndian(|text|, 8);
    NumberReads(|text|, 8, text + rest);
    assert Name(name) + rest == size + (text + rest);
    assert (text + rest)[..|text|] == text && (text + rest)[|text|..] == rest;
    DecodeReturns(name);
  }

  lemma OptionsRead(r: Recipe, rest: seq<Byte>)
    requires Valid(r)
    ensures var kind := ReadNumber(Options(r) + rest, 4);
            && kind.Accepted? && Signed(kind.value.value) == r.scriptKind && |kind.value.rest| >= 2
            && (kind.value.rest[0] == 1) == r.jsx && (kind.value.rest[1] == 1) == r.force
            && ReadNumber(kind.value.rest[2..], 8) == Accepted(Read(r.sourceBytes as nat, rest))
  {
    hide BigEndian, ReadNumber, Text, Power;
    Powers();
    var flags: seq<Byte> := [Flag(r.jsx), Flag(r.force)];
    var size := BigEndian(r.sourceBytes, 8) + rest;
    NumberReads(Unsigned(r.scriptKind), 4, flags + size);
    assert Options(r) + rest == BigEndian(Unsigned(r.scriptKind), 4) + (flags + size);
    NumberReads(r.sourceBytes, 8, rest);
    assert (flags + size)[2..] == size;
  }

  lemma RowReads(r: Recipe, rest: seq<Byte>)
    requires Valid(r)
    ensures ReadRow(Row(r) + rest) == Accepted(Read(r, rest))
  {
    hide Name, ReadName, ReadNumber, Options, Text, FromHex, ToHex, Signed;
    var hash := FromHex(r.sourceHash);
    var afterOptions := hash + rest;
    var afterPath := Options(r) + afterOptions;
    var afterName := Name(r.path) + afterPath;
    assert Row(r) + rest == Name(r.filename) + afterName;
    NameReads(r.filename, afterName);
    NameReads(r.path, afterPath);
    OptionsRead(r, afterOptions);
    HashReturns(r.sourceHash);
    assert afterOptions[..32] == hash && afterOptions[32..] == rest;
  }

  lemma {:induction false} RowsFromFront(recipes: seq<Recipe>)
    requires recipes != [] && forall r <- recipes :: Valid(r)
    ensures Rows(recipes) == Row(recipes[0]) + Rows(recipes[1..])
  {
    hide Valid, Row;
    var n := |recipes| - 1;
    if n == 0 {
      assert recipes[..0] == [] && Rows(recipes[..0]) == [];
    } else {
      var init, rest := recipes[..n], recipes[1..];
      RowsFromFront(init);
      assert init[1..] == rest[..n - 1] && rest[n - 1] == recipes[n] && init[0] == recipes[0];
      assert Rows(rest) == Rows(rest[..n - 1]) + Row(recipes[n]);
      assert Rows(recipes) == Row(recipes[0]) + Rows(init[1..]) + Row(recipes[n]);
    }
  }

  lemma {:induction false} RowsRead(recipes: seq<Recipe>)
    requires forall r <- recipes :: Valid(r)
    ensures ReadRows(Rows(recipes), |recipes|) == Accepted(recipes)
  {
    hide Valid, Row, ReadRow;
    if recipes != [] {
      RowsFromFront(recipes);
      RowReads(recipes[0], Rows(recipes[1..]));
      RowsRead(recipes[1..]);
      assert recipes == [recipes[0]] + recipes[1..];
    }
  }

  /** The stream determines the list: every field of every row, in order. */
  lemma StreamReads(recipes: seq<Recipe>)
    requires ValidList(recipes)
    ensures ReadStream(Stream(recipes)) == Accepted(recipes)
  {
    hide Valid, Rows, BigEndian, ReadNumber, ReadRows, Power;
    Powers();
    var body := BigEndian(|recipes|, 8) + Rows(recipes);
    assert Stream(recipes) == DOMAIN + body;
    assert Stream(recipes)[..|DOMAIN|] == DOMAIN && Stream(recipes)[|DOMAIN|..] == body;
    NumberReads(|recipes|, 8, Rows(recipes));
    RowsRead(recipes);
  }

  lemma StreamInjective(a: seq<Recipe>, b: seq<Recipe>)
    requires ValidList(a) && ValidList(b) && Stream(a) == Stream(b)
    ensures a == b
  {
    hide Stream, ReadStream, ValidList;
    StreamReads(a);
    StreamReads(b);
  }

  // --- what the fields are, spelled out -----------------------------------------------------------------

  const HEX_DIGITS := "0123456789abcdef"

  /** A row is valid when its names are texts of scalar values, its numbers fit 32 signed and
      64 unsigned bits, and its hash is 64 lower-case hexadecimal digits. */
  lemma ValidIff(r: Recipe)
    ensures Valid(r) <==>
            && Text(r.filename) && Text(r.path)
            && -0x8000_0000 <= r.scriptKind <= 0x7FFF_FFFF
            && 0 <= r.sourceBytes <= 0xFFFF_FFFF_FFFF_FFFF
            && |r.sourceHash| == 64 && forall c <- r.sourceHash :: exists d <- HEX_DIGITS :: c == d as int
  {
    forall c <- r.sourceHash
      ensures LowerHex(c) <==> exists d <- HEX_DIGITS :: c == d as int
    {
      DigitIff(c);
    }
  }

  lemma DigitIff(c: int)
    ensures LowerHex(c) <==> exists d <- HEX_DIGITS :: c == d as int
  {
    if LowerHex(c) {
      var d := HEX_DIGITS[if c <= 57 then c - 48 else c - 87];
      assert d in HEX_DIGITS && c == d as int;
    }
    assert forall k | 0 <= k < 16 :: LowerHex(HEX_DIGITS[k] as int);
  }

  /** The stream opens with the name of its format and a zero, then the number of rows. */
  lemma StreamOpens(recipes: seq<Recipe>)
    requires ValidList(recipes)
    ensures var name := "S07-loaded-inputs-v1";
            && |name| + 9 <= |Stream(recipes)|
            && (forall k | 0 <= k < |name| :: Stream(recipes)[k] == name[k] as int)
            && Stream(recipes)[|name|] == 0
            && FromBigEndian(Stream(recipes)[|name| + 1..|name| + 9]) == |recipes|
  {
    hide BigEndian, FromBigEndian, Rows, Power;
    Powers();
    NumberReturns(|recipes|, 8);
    assert Stream(recipes)[21..29] == BigEndian(|recipes|, 8);
  }
}
