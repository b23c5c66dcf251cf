/** Reading file contents out of one `git cat-file --batch` reply (`read_blobs` in
    scripts/ledger-init.py). */
module BatchReader {
  import opened Results
  import Decimals

  type Byte = b: int | 0 <= b < 256

  const NEWLINE: Byte := 10
  const SPACE: Byte := 32
  const BLOB: seq<Byte> := [98, 108, 111, 98]

  /** The whitespace `bytes.split()` splits at. */
  predicate Blank(b: Byte) {
    b == 32 || 9 <= b <= 13
  }

  /** The nonblank runs of a header, the last one in progress being `word`. */
  function Words(header: seq<Byte>, word: seq<Byte>): seq<seq<Byte>>
    decreases |header|
  {
    var closed := if word == [] then [] else [word];
    if header == [] then closed
    else if Blank(header[0]) then closed + Words(header[1..], [])
    else Words(header[1..], word + [header[0]])
  }

  function Numeral(digits: seq<Decimals.Digit>): seq<Byte> {
    seq(|digits|, k requires 0 <= k < |digits| => var d: int := digits[k]; 48 + d)
  }

  function Digits(text: seq<Byte>): seq<Decimals.Digit>
    requires forall k | 0 <= k < |text| :: 48 <= text[k] < 58
  {
    seq(|text|, k requires 0 <= k < |text| => var b: int := text[k]; b - 48)
  }

  /** `int()` of a plain numeral; anything else is a `ValueError` here. */
  function Size(text: seq<Byte>): Verdict<nat> {
    if text == [] || exists b <- text :: !(48 <= b < 58) then Rejected
    else
      assert forall k | 0 <= k < |text| :: text[k] in text;
      Accepted(Decimals.Value(Digits(text)))
  }

  function LineEnd(data: seq<Byte>, start: nat): (end: Option<nat>)
    ensures end.Some? ==> start <= end.value < |data| && data[end.value] == NEWLINE
    decreases |data| - start
  {
    if start >= |data| then None
    else if data[start] == NEWLINE then Some(start) else LineEnd(data, start + 1)
  }

  function HeaderSize(header: seq<Byte>): Verdict<nat> {
    var words := Words(header, []);
    if |words| != 3 || words[1] != BLOB then Rejected else Size(words[2])
  }

  /** A Python slice: bounds past the end are cut. */
  function Slice(data: seq<Byte>, start: nat, to: nat): seq<Byte>
    requires start <= to
  {
    var low, high := if start < |data| then start else |data|, if to < |data| then to else |data|;
    data[low..high]
  }

  /** The contents of `count` replies, from `offset` on. */
  function Blobs(data: seq<Byte>, offset: nat, count: nat): Verdict<seq<seq<Byte>>>
    decreases count
  {
    if count == 0 then Accepted([])
    else
      var end := LineEnd(data, offset);
      if end.None? then Rejected
      else
        var size :- HeaderSize(data[offset..end.value]);
        var rest :- Blobs(data, end.value + 1 + size + 1, count - 1);
        Accepted([Slice(data, end.value + 1, end.value + 1 + size)] + rest)
  }

  method ReadBlobs(data: seq<Byte>, paths: seq<string>) returns (r: Verdict<seq<seq<Byte>>>)
    ensures r == Blobs(data, 0, |paths|)
  {
    hide HeaderSize, Slice, LineEnd;
    var blobs: seq<seq<Byte>> := [];
    var offset: nat := 0;
    assert Blobs(data, 0, |paths|).Accepted? ==> [] + Blobs(data, 0, |paths|).value == Blobs(data, 0, |paths|).value;
    for i := 0 to |paths|
      invariant |blobs| == i
      invariant var rest := Blobs(data, offset, |paths| - i);
                Blobs(data, 0, |paths|) == if rest.Rejected? then Rejected else Accepted(blobs + rest.value)
    {
      var end := LineEnd(data, offset);
      if end.None? {
        return Rejected;
      }
      var size := HeaderSize(data[offset..end.value]);
      if size.Rejected? {
        return Rejected;
      }
      ghost var rest := Blobs(data, end.value + 1 + size.value + 1, |paths| - i - 1);
      offset := end.value + 1;
      var content := Slice(data, offset, offset + size.value);
      assert rest.Accepted? ==> blobs + ([content] + rest.value) == (blobs + [content]) + rest.value;
      blobs := blobs + [content];
      offset := offset + size.value + 1;
    }
    assert blobs + [] == blobs;
    return Accepted(blobs);
  }

  // --- what git writes ----------------------------------------------------------------------------------------

  datatype Reply = Reply(name: seq<Byte>, content: seq<Byte>)

  /** An object name: hexadecimal digits, in particular nothing blank. */
  predicate NameOk(name: seq<Byte>) {
    name != [] && forall b <- name :: !Blank(b)
  }

  function Header(reply: Reply): seq<Byte> {
    reply.name + [SPACE] + BLOB + [SPACE] + Numeral(Decimals.Digits(|reply.content|))
  }

  function Written(reply: Reply): seq<Byte> {
    Header(reply) + [NEWLINE] + reply.content + [NEWLINE]
  }

  function Batch(replies: seq<Reply>): seq<Byte> {
    if replies == [] then [] else Written(replies[0]) + Batch(replies[1..])
  }

  function Contents(replies: seq<Reply>): seq<seq<Byte>> {
    if replies == [] then [] else [replies[0].content] + Contents(replies[1..])
  }

  lemma {:induction false} WordRuns(word: seq<Byte>, run: seq<Byte>, rest: seq<Byte>)
    requires forall b <- run :: !Blank(b)
    ensures Words(run + rest, word) == Words(rest, word + run)
    decreases |run|
  {
    if run == [] {
      assert run + rest == rest && word + run == word;
    } else {
      assert (run + rest)[1..] == run[1..] + rest && (run + rest)[0] == run[0];
      WordRuns(word + [run[0]], run[1..], rest);
      assert word + [run[0]] + run[1..] == word + run;
    }
  }

  lemma NumeralReads(n: nat)
    ensures Numeral(Decimals.Digits(n)) != [] && (forall b <- Numeral(Decimals.Digits(n)) :: !Blank(b))
    ensures Size(Numeral(Decimals.Digits(n))) == Accepted(n)
  {
    var digits := Decimals.Digits(n);
    var text := Numeral(digits);
    Decimals.ReadBack(n);
    assert Digits(text) == digits;
  }

  lemma NextWord(run: seq<Byte>, rest: seq<Byte>)
    requires run != [] && forall b <- run :: !Blank(b)
    ensures Words(run + [SPACE] + rest, []) == [run] + Words(rest, [])
    ensures Words(run, []) == [run]
  {
    WordRuns([], run, [SPACE] + rest);
    assert run + [SPACE] + rest == run + ([SPACE] + rest) && [] + run == run;
    assert ([SPACE] + rest)[1..] == rest;
    WordRuns([], run, []);
    assert run + [] == run;
  }

  lemma HeaderReads(reply: Reply)
    requires NameOk(reply.name)
    ensures HeaderSize(Header(reply)) == Accepted(|reply.content|)
    ensures NEWLINE !in Header(reply)
  {
    var size := Numeral(Decimals.Digits(|reply.content|));
    NumeralReads(|reply.content|);
    hide Size, Numeral, Words;
    NextWord(reply.name, BLOB + [SPACE] + size);
    NextWord(BLOB, size);
    NextWord(size, []);
    assert Header(reply) == reply.name + [SPACE] + (BLOB + [SPACE] + size);
    assert Words(Header(reply), []) == [reply.name] + ([BLOB] + [size]);
  }

  lemma {:induction false} LineEnds(data: seq<Byte>, start: nat, end: nat)
    requires start <= end < |data| && data[end] == NEWLINE && forall k | start <= k < end :: data[k] != NEWLINE
    ensures LineEnd(data, start) == Some(end)
    decreases end - start
  {
    if start < end {
      LineEnds(data, start + 1, end);
    }
  }

  /** One reply, wherever it stands. */
  lemma ReplyReads(before: seq<Byte>, reply: Reply, rest: seq<Byte>)
    requires NameOk(reply.name)
    ensures var data, end := before + Written(reply) + rest, |before| + |Header(reply)|;
            && end < |data| && LineEnd(data, |before|) == Some(end)
            && HeaderSize(data[|before|..end]) == Accepted(|reply.content|)
            && Slice(data, end + 1, end + 1 + |reply.content|) == reply.content
            && |before + Written(reply)| == end + 1 + |reply.content| + 1
  {
    HeaderReads(reply);
    hide HeaderSize, Header;
    var header := Header(reply);
    var data, end := before + Written(reply) + rest, |before| + |header|;
    assert data[|before|..end] == header && data[end] == NEWLINE;
    forall k | |before| <= k < end
      ensures data[k] != NEWLINE
    {
      assert data[k] == header[k - |before|];
    }
    LineEnds(data, |before|, end);
    assert data[end + 1..end + 1 + |reply.content|] == reply.content;
  }

  /** The main result: whatever bytes the files hold, each is read back exactly. */
  lemma {:induction false} BatchReads(before: seq<Byte>, replies: seq<Reply>)
    requires forall r <- replies :: NameOk(r.name)
    ensures Blobs(before + Batch(replies), |before|, |replies|) == Accepted(Contents(replies))
    decreases |replies|
  {
    hide HeaderSize, Header, LineEnd, Written, Slice, NameOk, Blobs;
    if replies == [] {
      NoBlobs(before + Batch(replies), |before|);
    } else {
      var first, rest := replies[0], Batch(replies[1..]);
      assert first in replies;
      ReplyReads(before, first, rest);
      var data := before + Batch(replies);
      assert data == before + Written(first) + rest;
      BatchReads(before + Written(first), replies[1..]);
      BlobsNext(data, |before|, |replies|);
    }
  }

  lemma NoBlobs(data: seq<Byte>, offset: nat)
    ensures Blobs(data, offset, 0) == Accepted([])
  {
  }

  /** The first content and the rest. */
  lemma BlobsNext(data: seq<Byte>, offset: nat, count: nat)
    requires count > 0 && LineEnd(data, offset).Some? && HeaderSize(data[offset..LineEnd(data, offset).value]).Accepted?
    ensures var start := LineEnd(data, offset).value + 1;
            var to := start + HeaderSize(data[offset..start - 1]).value;
            var rest := Blobs(data, to + 1, count - 1);
            Blobs(data, offset, count) == if rest.Rejected? then Rejected else Accepted([Slice(data, start, to)] + rest.value)
  {
    hide HeaderSize, LineEnd, Slice;
  }

  // --- headers spelled out -----------------------------------------------------------------------------

  /** Tab, line feed, vertical tab, form feed, carriage return and space. */
  predicate Gap(bytes: seq<Byte>) {
    forall b <- bytes :: b in {9, 10, 11, 12, 13, 32}
  }

  predicate Word(bytes: seq<Byte>) {
    bytes != [] && forall b <- bytes :: b !in {9, 10, 11, 12, 13, 32}
  }

  lemma BlankIff(b: Byte)
    ensures Blank(b) <==> b in {9, 10, 11, 12, 13, 32}
  {
  }

  function Ascii(text: string): seq<Byte>
    requires forall c <- text :: c as int < 128
  {
    if text == "" then []
    else
      assert text[0] in text && forall c <- text[1..] :: c in text;
      [text[0] as int] + Ascii(text[1..])
  }

  /** Three words: any, `blob`, and a decimal numeral of that value. */
  predicate HeaderParts(header: seq<Byte>, g: seq<seq<Byte>>, name: seq<Byte>, digits: seq<Byte>, size: nat) {
    && |g| == 4 && (forall gap <- g :: Gap(gap)) && g[1] != [] && g[2] != []
    && header == g[0] + name + g[1] + Ascii("blob") + g[2] + digits + g[3]
    && Word(name) && Size(digits) == Accepted(size)
  }

  lemma {:induction false} SkipGap(gap: seq<Byte>, rest: seq<Byte>)
    requires Gap(gap)
    ensures Words(gap + rest, []) == Words(rest, [])
    decreases |gap|
  {
    if gap == [] {
      assert gap + rest == rest;
    } else {
      BlankIff(gap[0]);
      assert gap[0] in gap && (gap + rest)[1..] == gap[1..] + rest && forall b <- gap[1..] :: b in gap;
      SkipGap(gap[1..], rest);
    }
  }

  lemma TakeWord(word: seq<Byte>, gap: seq<Byte>, rest: seq<Byte>)
    requires Word(word) && Gap(gap) && (gap == [] ==> rest == [])
    ensures Words(word + gap + rest, []) == [word] + Words(rest, [])
  {
    forall b <- word ensures !Blank(b) { BlankIff(b); }
    WordRuns([], word, gap + rest);
    assert word + gap + rest == word + (gap + rest) && [] + word == word;
    if gap == [] {
      assert gap + rest == [];
    } else {
      BlankIff(gap[0]);
      assert gap[0] in gap && (gap + rest)[1..] == gap[1..] + rest && forall b <- gap[1..] :: b in gap;
      SkipGap(gap[1..], rest);
    }
  }

  lemma NumeralWord(digits: seq<Byte>)
    requires Size(digits).Accepted?
    ensures Word(digits)
  {
  }

  lemma BlobWord()
    ensures Ascii("blob") == BLOB && Word(BLOB)
  {
  }

  lemma HeaderRead(header: seq<Byte>, g: seq<seq<Byte>>, name: seq<Byte>, digits: seq<Byte>, size: nat)
    requires HeaderParts(header, g, name, digits, size)
    ensures HeaderSize(header) == Accepted(size)
  {
    BlobWord();
    NumeralWord(digits);
    hide Words, Size, Word, Gap;
    var t3 := digits + g[3];
    var t2 := BLOB + g[2] + t3;
    var t1 := name + g[1] + t2;
    assert forall k | 0 <= k < 4 :: g[k] in g;
    assert header == g[0] + t1;
    SkipGap(g[0], t1);
    TakeWord(name, g[1], t2);
    TakeWord(BLOB, g[2], t3);
    assert t3 == digits + g[3] + [];
    TakeWord(digits, g[3], []);
    NoWords();
    assert Words(header, []) == [name, BLOB, digits];
  }

  lemma NoWords()
    ensures Words([], []) == []
  {
  }

  /** The first word of a text, if there is one. */
  lemma {:induction false} SplitWord(text: seq<Byte>) returns (gap: seq<Byte>, word: seq<Byte>, rest: seq<Byte>)
    ensures Gap(gap) && text == gap + word + rest
    ensures word == [] ==> rest == [] && Words(text, []) == []
    ensures word != [] ==> Word(word) && (rest == [] || Gap(rest[..1])) && Words(text, []) == [word] + Words(rest, [])
    decreases |text|
  {
    if text == [] {
      gap, word, rest := [], [], [];
    } else {
      BlankIff(text[0]);
      if Blank(text[0]) {
        gap, word, rest := SplitWord(text[1..]);
        gap := [text[0]] + gap;
        assert text == [text[0]] + text[1..];
      } else {
        gap := [];
        word, rest := TakeRun(text);
        if rest != [] {
          TakeWord(word, rest[..1], rest[1..]);
          assert rest == rest[..1] + rest[1..] && text == word + rest[..1] + rest[1..];
          SkipGap(rest[..1], rest[1..]);
        } else {
          TakeWord(word, [], []);
          NoWords();
          assert text == word + [] + [];
        }
        assert text == [] + word + rest;
      }
    }
  }

  lemma {:induction false} TakeRun(text: seq<Byte>) returns (word: seq<Byte>, rest: seq<Byte>)
    requires text != [] && !Blank(text[0])
    ensures Word(word) && text == word + rest && (rest == [] || Gap(rest[..1]))
    decreases |text|
  {
    BlankIff(text[0]);
    if |text| == 1 {
      word, rest := text, [];
    } else {
      BlankIff(text[1]);
      if Blank(text[1]) {
        word, rest := text[..1], text[1..];
      } else {
        word, rest := TakeRun(text[1..]);
        word := [text[0]] + word;
        assert text == [text[0]] + text[1..];
      }
    }
  }

  lemma LastGap(text: seq<Byte>)
    requires Words(text, []) == []
    ensures Gap(text)
  {
    var gap, word, rest := SplitWord(text);
    assert text == gap + [] + [];
  }

  /** A gap must stand between two words. */
  lemma GapBetween(rest: seq<Byte>, gap: seq<Byte>, word: seq<Byte>, more: seq<Byte>)
    requires rest == gap + word + more && Word(word) && (rest == [] || Gap(rest[..1]))
    ensures gap != []
  {
    WordIsNoGap(word, more);
    assert gap == [] ==> rest == word + more;
  }

  lemma WordIsNoGap(word: seq<Byte>, more: seq<Byte>)
    requires Word(word)
    ensures word + more != [] && !Gap((word + more)[..1])
  {
    assert word[0] in word && (word + more)[..1][0] in (word + more)[..1];
  }

  /** A header is read as this size exactly when it is spelled so. */
  lemma HeaderIff(header: seq<Byte>, size: nat)
    ensures HeaderSize(header) == Accepted(size) <==> exists g, name, digits :: HeaderParts(header, g, name, digits, size)
  {
    if g, name, digits :| HeaderParts(header, g, name, digits, size) {
      HeaderRead(header, g, name, digits, size);
    }
    if HeaderSize(header) == Accepted(size) {
      HeaderWas(header, size);
    }
  }

  /** Three words and what stands around them. */
  lemma ThreeWords(header: seq<Byte>) returns (g0: seq<Byte>, a: seq<Byte>, g1: seq<Byte>, b: seq<Byte>, g2: seq<Byte>, c: seq<Byte>, g3: seq<Byte>)
    requires |Words(header, [])| == 3
    ensures Words(header, []) == [a, b, c] && Word(a) && Word(b) && Word(c)
    ensures Gap(g0) && Gap(g1) && Gap(g2) && Gap(g3) && g1 != [] && g2 != []
    ensures header == g0 + (a + (g1 + (b + (g2 + (c + g3)))))
  {
    hide Words, Gap, Word;
    var r0, r1;
    g0, a, r0 := SplitWord(header);
    g1, b, r1 := SplitWord(r0);
    g2, c, g3 := SplitWord(r1);
    assert header == g0 + (a + r0) && r0 == g1 + (b + r1) && r1 == g2 + (c + g3);
    GapBetween(r0, g1, b, r1);
    GapBetween(r1, g2, c, g3);
    LastGap(g3);
  }

  lemma HeaderWas(header: seq<Byte>, size: nat)
    requires HeaderSize(header) == Accepted(size)
    ensures exists g, name, digits :: HeaderParts(header, g, name, digits, size)
  {
    BlobWord();
    hide Words, Size, Gap, Word, Ascii;
    var g0, name, g1, blob, g2, digits, g3 := ThreeWords(header);
    var g := [g0, g1, g2, g3];
    Regroup(g0, name, g1, blob, g2, digits, g3);
    assert HeaderParts(header, g, name, digits, size);
  }

  lemma Regroup(a: seq<Byte>, b: seq<Byte>, c: seq<Byte>, d: seq<Byte>, e: seq<Byte>, f: seq<Byte>, g: seq<Byte>)
    ensures a + b + c + d + e + f + g == a + (b + (c + (d + (e + (f + g)))))
  {
  }

  /** A reply as it is written: the name, ` blob `, the size, a line feed, the content, a line feed. */
  lemma WrittenIs(reply: Reply)
    ensures Written(reply) ==
            reply.name + Ascii(" blob ") + Numeral(Decimals.Digits(|reply.content|)) + Ascii("\n") + reply.content + Ascii("\n")
  {
    AsciiMarks();
    hide Ascii, Numeral;
    var size := Numeral(Decimals.Digits(|reply.content|));
    assert reply.name + ([SPACE] + BLOB + [SPACE]) + size == reply.name + [SPACE] + BLOB + [SPACE] + size;
  }

  lemma AsciiMarks()
    ensures Ascii(" blob ") == [SPACE] + BLOB + [SPACE] && Ascii("\n") == [NEWLINE]
  {
  }

  /** The replies as characters. */
  function Printed(replies: seq<Reply>): seq<Byte> {
    if replies == [] then []
    else
      var r := replies[0];
      r.name + Ascii(" blob ") + Numeral(Decimals.Digits(|r.content|)) + Ascii("\n") + r.content + Ascii("\n") + Printed(replies[1..])
  }

  lemma {:induction false} PrintedIsBatch(replies: seq<Reply>)
    ensures Printed(replies) == Batch(replies)
  {
    hide Ascii, Numeral, Written;
    if replies != [] {
      PrintedIsBatch(replies[1..]);
      WrittenIs(replies[0]);
    }
  }

  /** Replies printed one after the other are read back. */
  lemma PrintedReads(replies: seq<Reply>)
    requires forall r <- replies :: Word(r.name)
    ensures Blobs(Printed(replies), 0, |replies|) == Accepted(Contents(replies))
  {
    hide Printed, Batch, Blobs, Contents;
    PrintedIsBatch(replies);
    forall r <- replies ensures NameOk(r.name) {
      forall b <- r.name ensures !Blank(b) {
        BlankIff(b);
      }
    }
    BatchReads([], replies);
    assert [] + Batch(replies) == Batch(replies);
  }
}
