/** The texts the strict patch parser takes, and what it reads from each
    (`parse_patch` in scripts/phase4_scenarios.py). */
module UnifiedDiffGrammar {
  import opened Results
  import opened Decimals
  import opened UnifiedDiff
  import opened UnifiedDiffRun
  import opened UnifiedDiffProperties

  predicate Newlines(text: string) {
    forall c <- text :: c == '\n'
  }

  predicate Numeral(text: string) {
    text != "" && forall c <- text :: '0' <= c <= '9'
  }

  /** `START` or `START,LEN` of one side of a hunk header. */
  datatype Range = Range(start: string, length: Option<string>)

  predicate RangeOk(r: Range) {
    Numeral(r.start) && (r.length.Some? ==> Numeral(r.length.value))
  }

  function Spell(r: Range): string {
    match r.length
    case None => r.start
    case Some(length) => r.start + "," + length
  }

  function NumberOf(text: string): nat
    requires Numeral(text)
  {
    assert forall c <- text :: IsDigit(c);
    Value(DigitValues(text))
  }

  /** A missing length is 1. */
  function LengthOf(r: Range): nat
    requires RangeOk(r)
  {
    match r.length case None => 1 case Some(length) => NumberOf(length)
  }

  ghost predicate HeaderSpells(line: string, h: Hunk) {
    exists a, b, end :: HeaderParts(line, h, a, b, end)
  }

  predicate HeaderParts(line: string, h: Hunk, a: Range, b: Range, end: string) {
    && RangeOk(a) && RangeOk(b) && Newlines(end)
    && line == "@@ -" + Spell(a) + " +" + Spell(b) + " @@" + end
    && h.oldStart == NumberOf(a.start) && h.oldLen == LengthOf(a) && h.newLen == LengthOf(b)
  }

  function Side(body: seq<BodyLine>, other: Tag): nat {
    if body == [] then 0 else (if body[0].tag == other then 0 else 1) + Side(body[1..], other)
  }

  /** A tag, then text up to a newline. */
  predicate LineSpells(line: string, b: BodyLine) {
    && line == [match b.tag case Context => ' ' case Removed => '-' case Added => '+'] + b.text
    && b.text != "" && b.text[|b.text| - 1] == '\n'
  }

  /** A header, then as many lines of each side as it announces. */
  ghost predicate HunkSpells(lines: seq<string>, h: Hunk) {
    && |lines| == 1 + |h.body|
    && HeaderSpells(lines[0], h)
    && (forall k | 0 <= k < |h.body| :: LineSpells(lines[1 + k], h.body[k]))
    && Side(h.body, Added) == h.oldLen && Side(h.body, Removed) == h.newLen
  }

  ghost predicate HunksSpell(lines: seq<string>, hunks: seq<Hunk>)
    decreases |hunks|
  {
    if hunks == [] then lines == []
    else
      var n := 1 + |hunks[0].body|;
      n <= |lines| && HunkSpells(lines[..n], hunks[0]) && HunksSpell(lines[n..], hunks[1..])
  }

  /** The first header: the path, a tab, and the digest of the pinned file. */
  ghost predicate BaseSpells(line: string, path: string, base: string) {
    && (exists end :: Newlines(end) && line == "--- " + path + "\tsha256:" + base + end)
    && '\t' !in path
    && |base| == 64 && forall c <- base :: '0' <= c <= '9' || 'a' <= c <= 'f'
  }

  /** The second header: the same path, whatever follows a tab. */
  ghost predicate NameSpells(line: string, path: string) {
    && (exists end, rest :: NameParts(line, path, end, rest))
    && '\t' !in path && (path == "" || path[|path| - 1] != '\n')
  }

  predicate NameParts(line: string, path: string, end: string, rest: string) {
    Newlines(end) && line == "+++ " + path + end + rest && (rest == "" || rest[0] == '\t')
  }

  ghost predicate PatchSpells(lines: seq<string>, p: Patch) {
    && |lines| >= 3
    && BaseSpells(lines[0], p.path, p.base) && NameSpells(lines[1], p.path)
    && HunksSpell(lines[2..], p.hunks)
  }

  // --- numbers and headers of hunks -----------------------------------------------------------------

  lemma NumberRead(digits: string, rest: string)
    requires Numeral(digits) && (rest == "" || !IsDigit(rest[0]))
    ensures ReadNumber(digits + rest) == Accepted((NumberOf(digits), rest))
  {
    assert forall c <- digits :: IsDigit(c);
    RunStops(digits, rest);
    assert (digits + rest)[..|digits|] == digits && (digits + rest)[|digits|..] == rest;
  }

  /** What was read as a number was a numeral, and it ended there. */
  lemma NumberWas(text: string)
    requires ReadNumber(text).Accepted?
    ensures var (n, rest) := ReadNumber(text).value;
            exists digits :: Numeral(digits) && text == digits + rest && NumberOf(digits) == n && (rest == "" || !IsDigit(rest[0]))
  {
    var k := DigitRun(text);
    var digits := text[..k];
    assert text == digits + text[k..];
    assert forall c <- digits :: IsDigit(c);
    assert Numeral(digits);
  }

  /** One side of a header, followed by something that is neither a digit nor a comma. */
  lemma RangeRead(r: Range, rest: string)
    requires RangeOk(r) && rest != "" && !IsDigit(rest[0]) && rest[0] != ','
    ensures ReadNumber(Spell(r) + rest).Accepted?
    ensures var (start, more) := ReadNumber(Spell(r) + rest).value;
            start == NumberOf(r.start) && ReadLength(more) == Accepted((LengthOf(r), rest))
  {
    hide ReadNumber, NumberOf;
    match r.length {
      case None =>
        NumberRead(r.start, rest);
      case Some(length) =>
        NumberRead(r.start, "," + length + rest);
        assert Spell(r) + rest == r.start + ("," + length + rest);
        assert ("," + length + rest)[1..] == length + rest;
        NumberRead(length, rest);
    }
  }

  lemma RangeWas(text: string) returns (r: Range)
    requires ReadNumber(text).Accepted? && ReadLength(ReadNumber(text).value.1).Accepted?
    ensures var (start, more) := ReadNumber(text).value;
            && RangeOk(r) && text == Spell(r) + ReadLength(more).value.1
            && start == NumberOf(r.start) && ReadLength(more).value.0 == LengthOf(r)
  {
    hide ReadNumber, NumberOf;
    NumberWas(text);
    var (start, more) := ReadNumber(text).value;
    var digits :| Numeral(digits) && text == digits + more && NumberOf(digits) == start;
    if more != "" && more[0] == ',' {
      NumberWas(more[1..]);
      var (n, rest) := ReadNumber(more[1..]).value;
      var length :| Numeral(length) && more[1..] == length + rest && NumberOf(length) == n;
      r := Range(digits, Some(length));
      assert more == "," + length + rest;
      assert text == digits + "," + length + rest;
    } else {
      r := Range(digits, None);
    }
  }

  lemma HeaderRead(a: Range, b: Range)
    requires RangeOk(a) && RangeOk(b)
    ensures ReadHeader("@@ -" + Spell(a) + " +" + Spell(b) + " @@") == Accepted((NumberOf(a.start), LengthOf(a), LengthOf(b)))
  {
    hide ReadNumber, ReadLength, NumberOf, Spell, RangeOk, LengthOf;
    var t1 := Spell(b) + " @@";
    var t0 := Spell(a) + (" +" + t1);
    RangeRead(b, " @@");
    RangeRead(a, " +" + t1);
    assert "@@ -" + Spell(a) + " +" + Spell(b) + " @@" == "@@ -" + t0;
    assert ("@@ -" + t0)[4..] == t0 && (" +" + t1)[2..] == t1;
    SpellOk(a);
    SpellOk(b);
  }

  lemma SpellOk(r: Range)
    ensures RangeOk(r) ==> Numeral(r.start)
  {
  }

  lemma HeaderWas(text: string) returns (a: Range, b: Range)
    requires ReadHeader(text).Accepted?
    ensures RangeOk(a) && RangeOk(b) && text == "@@ -" + Spell(a) + " +" + Spell(b) + " @@"
    ensures ReadHeader(text).value == (NumberOf(a.start), LengthOf(a), LengthOf(b))
  {
    hide ReadNumber, ReadLength, NumberOf, Spell, RangeOk, LengthOf;
    var t0 := Skip("@@ -", text).value;
    a := RangeWas(t0);
    var more := ReadLength(ReadNumber(t0).value.1).value.1;
    var t1 := Skip(" +", more).value;
    b := RangeWas(t1);
    assert text == "@@ -" + t0 && more == " +" + t1;
    SpellOk(a);
    SpellOk(b);
  }

  lemma {:induction false} StripsNewlines(text: string, end: string)
    requires Newlines(end) && (text == "" || text[|text| - 1] != '\n')
    ensures StripNewlines(text + end) == text
  {
    if end == "" {
      assert text + end == text;
    } else {
      assert end[|end| - 1] in end;
      var shorter := end[..|end| - 1];
      assert (text + end)[..|text + end| - 1] == text + shorter;
      assert forall c <- shorter :: c in end;
      StripsNewlines(text, shorter);
    }
  }

  lemma {:induction false} StrippedWas(text: string) returns (end: string)
    ensures Newlines(end) && text == StripNewlines(text) + end
    ensures StripNewlines(text) == "" || StripNewlines(text)[|StripNewlines(text)| - 1] != '\n'
  {
    if text != "" && text[|text| - 1] == '\n' {
      end := StrippedWas(text[..|text| - 1]);
      end := end + "\n";
    } else {
      end := "";
    }
  }

  lemma HeaderIff(line: string, h: Hunk)
    ensures ReadHeader(StripNewlines(line)) == Accepted((h.oldStart, h.oldLen, h.newLen)) <==> HeaderSpells(line, h)
  {
    hide ReadHeader, StripNewlines, Spell, NumberOf, LengthOf, RangeOk;
    if HeaderSpells(line, h) {
      var a, b, end :| HeaderParts(line, h, a, b, end);
      var text := "@@ -" + Spell(a) + " +" + Spell(b) + " @@";
      StripsNewlines(text, end);
      HeaderRead(a, b);
    }
    if ReadHeader(StripNewlines(line)) == Accepted((h.oldStart, h.oldLen, h.newLen)) {
      var end := StrippedWas(line);
      var a, b := HeaderWas(StripNewlines(line));
      SpellOk(a);
      assert HeaderParts(line, h, a, b, end);
    }
  }

  // --- bodies --------------------------------------------------------------------------------------------

  lemma LineIff(line: string, b: BodyLine)
    ensures ReadBodyLine(line) == Accepted(b) <==> LineSpells(line, b)
  {
    if LineSpells(line, b) {
      assert line[1..] == b.text;
    }
    if ReadBodyLine(line) == Accepted(b) {
      assert line == [line[0]] + line[1..];
    }
  }

  lemma {:induction false} SidesAre(body: seq<BodyLine>)
    ensures Side(body, Added) == |Old(body)| && Side(body, Removed) == |New(body)|
  {
    hide Old, New;
    if body == [] {
      EmptyCounts();
    } else {
      SidesAre(body[1..]);
      CountsCons(body);
    }
  }

  predicate LinesSpell(lines: seq<string>, body: seq<BodyLine>) {
    |lines| == |body| && forall k | 0 <= k < |body| :: LineSpells(lines[k], body[k])
  }

  /** The loop reads the lines of a body that has both counts, and nothing after them. */
  lemma {:induction false} BodyIff(lines: seq<string>, o: int, n: int, body: seq<BodyLine>, rest: seq<string>)
    ensures ReadBody(lines, o, n) == Accepted((body, rest)) <==>
            && Side(body, Added) == o && Side(body, Removed) == n
            && |body| <= |lines| && LinesSpell(lines[..|body|], body) && lines[|body|..] == rest
    decreases |lines|
  {
    hide ReadBody, ReadBodyLine, LineSpells;
    BodyUnfolds(lines, o, n);
    if lines != [] && (o > 0 || n > 0) {
      var line := lines[0];
      if body != [] {
        var b := body[0];
        var o', n' := o - (if InOld(b.tag) then 1 else 0), n - (if InNew(b.tag) then 1 else 0);
        LineIff(line, b);
        BodyIff(lines[1..], o', n', body[1..], rest);
        LinesCons(lines, body);
        assert body == [b] + body[1..];
        BodyStarts(lines, o, n, body, rest);
      }
    } else if body != [] {
      SidesPositive(body);
    }
  }

  lemma SidesPositive(body: seq<BodyLine>)
    requires body != []
    ensures Side(body, Added) > 0 || Side(body, Removed) > 0
  {
  }

  lemma LinesCons(lines: seq<string>, body: seq<BodyLine>)
    requires lines != [] && body != []
    ensures |body| <= |lines| && LinesSpell(lines[..|body|], body) <==>
            LineSpells(lines[0], body[0]) && |body| - 1 <= |lines| - 1 && LinesSpell(lines[1..][..|body| - 1], body[1..])
  {
    hide LineSpells;
    if |body| <= |lines| {
      var x, y := lines[..|body|], lines[1..][..|body| - 1];
      assert forall k | 0 < k < |body| :: x[k] == y[k - 1] && body[k] == body[1..][k - 1];
      assert forall k | 0 <= k < |body| - 1 :: y[k] == x[k + 1] && body[1..][k] == body[k + 1];
    }
  }

  lemma BodyUnfolds(lines: seq<string>, o: int, n: int)
    ensures ReadBody(lines, o, n) ==
      if lines != [] && (o > 0 || n > 0) then
        var first := ReadBodyLine(lines[0]);
        if first.Rejected? then Rejected
        else
          var rest := ReadBody(lines[1..], o - (if InOld(first.value.tag) then 1 else 0), n - (if InNew(first.value.tag) then 1 else 0));
          if rest.Rejected? then Rejected else Accepted(([first.value] + rest.value.0, rest.value.1))
      else if o == 0 == n then Accepted(([], lines)) else Rejected
  {
    hide ReadBodyLine, InOld, InNew;
  }

  /** A body that was read starts with the line read first. */
  lemma BodyStarts(lines: seq<string>, o: int, n: int, body: seq<BodyLine>, rest: seq<string>)
    requires lines != [] && (o > 0 || n > 0) && body != []
    ensures var b := body[0];
            ReadBody(lines, o, n) == Accepted((body, rest)) <==>
              && ReadBodyLine(lines[0]) == Accepted(b)
              && ReadBody(lines[1..], o - (if InOld(b.tag) then 1 else 0), n - (if InNew(b.tag) then 1 else 0)) == Accepted((body[1..], rest))
  {
    hide ReadBody, ReadBodyLine, InOld, InNew;
    BodyUnfolds(lines, o, n);
    assert body == [body[0]] + body[1..];
    if ReadBody(lines, o, n) == Accepted((body, rest)) {
      var b := ReadBodyLine(lines[0]).value;
      var more := ReadBody(lines[1..], o - (if InOld(b.tag) then 1 else 0), n - (if InNew(b.tag) then 1 else 0)).value;
      assert ([b] + more.0)[0] == b && ([b] + more.0)[1..] == more.0;
    }
  }

  // --- hunks ---------------------------------------------------------------------------------------------

  /** The first hunk of what is read, and the rest. */
  lemma HunksUnfold(lines: seq<string>, h: Hunk, more: seq<Hunk>)
    ensures ReadHunks(lines) == Accepted([h] + more) <==>
            && lines != []
            && ReadHeader(StripNewlines(lines[0])) == Accepted((h.oldStart, h.oldLen, h.newLen))
            && exists rest :: ReadBody(lines[1..], h.oldLen, h.newLen) == Accepted((h.body, rest)) && ReadHunks(rest) == Accepted(more)
  {
    hide ReadHeader, StripNewlines, ReadBody;
    if ReadHunks(lines) == Accepted([h] + more) {
      var header := ReadHeader(StripNewlines(lines[0])).value;
      var body := ReadBody(lines[1..], header.1, header.2).value;
      var hunk := Hunk(header.0, header.1, header.2, body.0);
      ReadBodyShrinks(lines[1..], header.1, header.2);
      var rest := ReadHunks(body.1).value;
      assert ([hunk] + rest)[0] == hunk == ([h] + more)[0] && ([hunk] + rest)[1..] == rest && ([h] + more)[1..] == more;
    }
    if lines != [] && ReadHeader(StripNewlines(lines[0])) == Accepted((h.oldStart, h.oldLen, h.newLen)) {
      ReadBodyShrinks(lines[1..], h.oldLen, h.newLen);
    }
  }

  lemma {:induction false} HunksIff(lines: seq<string>, hunks: seq<Hunk>)
    ensures ReadHunks(lines) == Accepted(hunks) <==> HunksSpell(lines, hunks)
    decreases |hunks|
  {
    hide ReadHunks, ReadHeader, StripNewlines, ReadBody, HeaderSpells, LineSpells, Side;
    if hunks == [] {
      NoHunks(lines);
    } else {
      var h, more := hunks[0], hunks[1..];
      assert hunks == [h] + more;
      HunksUnfold(lines, h, more);
      if lines != [] {
        HeaderIff(lines[0], h);
        var n := 1 + |h.body|;
        if n <= |lines| {
          var rest := lines[n..];
          BodyIff(lines[1..], h.oldLen, h.newLen, h.body, rest);
          HunksIff(rest, more);
          BodyPlaced(lines, h.body);
        }
        forall rest | ReadBody(lines[1..], h.oldLen, h.newLen) == Accepted((h.body, rest))
          ensures n <= |lines| && rest == lines[n..]
        {
          BodyIff(lines[1..], h.oldLen, h.newLen, h.body, rest);
        }
      }
    }
  }

  lemma BodyPlaced(lines: seq<string>, body: seq<BodyLine>)
    requires 1 + |body| <= |lines|
    ensures LinesSpell(lines[1..][..|body|], body) <==> forall k | 0 <= k < |body| :: LineSpells(lines[..1 + |body|][1 + k], body[k])
    ensures lines[1..][|body|..] == lines[1 + |body|..]
  {
    hide LineSpells;
    assert forall k | 0 <= k < |body| :: lines[1..][..|body|][k] == lines[..1 + |body|][1 + k];
  }

  lemma NoHunks(lines: seq<string>)
    ensures ReadHunks(lines) == Accepted([]) <==> lines == []
  {
    hide ReadHeader, StripNewlines, ReadBody;
  }

  // --- the two headers of the patch --------------------------------------------------------------------------

  lemma {:induction false} TabSplits(path: string, rest: string)
    requires '\t' !in path && (rest == "" || rest[0] == '\t')
    ensures UntilTab(path + rest) == path
    ensures AfterTab(path + rest) == if rest == "" then "" else rest[1..]
  {
    if path != "" {
      assert (path + rest)[1..] == path[1..] + rest;
      TabSplits(path[1..], rest);
      assert (path + rest)[0] == path[0] && path[0] in path;
      assert path == [path[0]] + path[1..];
    } else {
      assert path + rest == rest;
    }
  }

  lemma {:induction false} NoTabBefore(text: string)
    ensures '\t' !in UntilTab(text)
  {
    if text != "" && text[0] != '\t' {
      NoTabBefore(text[1..]);
    }
  }

  lemma UntilTabIs(text: string)
    ensures '\t' !in UntilTab(text)
    ensures text == UntilTab(text) + if |UntilTab(text)| < |text| then "\t" + AfterTab(text) else ""
    ensures |UntilTab(text)| >= |text| ==> AfterTab(text) == ""
  {
    NoTabBefore(text);
    hide UntilTab;
    var n := |UntilTab(text)|;
    assert text == text[..n] + text[n..];
    if n < |text| {
      assert text[n..] == "\t" + text[n + 1..];
    }
  }

  predicate AllHex(text: string) {
    forall c <- text :: '0' <= c <= '9' || 'a' <= c <= 'f'
  }

  /** Reading the first header. */
  lemma BaseIff(line: string, path: string, base: string)
    ensures BaseSpells(line, path, base) <==>
            && "--- " <= line
            && var first := StripNewlines(line[4..]);
               && UntilTab(first) == path && AfterTab(first) == "sha256:" + base && |base| == 64 && AllHex(base)
  {
    hide StripNewlines, UntilTab, AfterTab;
    if BaseSpells(line, path, base) {
      var end :| Newlines(end) && line == "--- " + path + "\tsha256:" + base + end;
      var first := path + ("\tsha256:" + base);
      assert line == "--- " + (first + end) && line[4..] == first + end;
      assert first[|first| - 1] == base[63] && base[63] in base;
      StripsNewlines(first, end);
      TabSplits(path, "\tsha256:" + base);
      assert ("\tsha256:" + base)[1..] == "sha256:" + base;
    }
    if "--- " <= line {
      var first := StripNewlines(line[4..]);
      if UntilTab(first) == path && AfterTab(first) == "sha256:" + base && |base| == 64 && AllHex(base) {
        var end := StrippedWas(line[4..]);
        UntilTabIs(first);
        assert line == "--- " + line[4..];
        assert first == path + ("\t" + ("sha256:" + base));
        assert line == "--- " + path + "\tsha256:" + base + end;
      }
    }
  }

  lemma NameRead(text: string, path: string, end: string, rest: string)
    requires '\t' !in path && (path == "" || path[|path| - 1] != '\n')
    requires Newlines(end) && text == path + end + rest && (rest == "" || rest[0] == '\t')
    ensures StripNewlines(UntilTab(text)) == path
  {
    hide StripNewlines, UntilTab, AfterTab;
    assert '\t' !in end && '\t' !in path + end;
    TabSplits(path + end, rest);
    StripsNewlines(path, end);
  }

  lemma NameWas(text: string) returns (end: string, rest: string)
    ensures Newlines(end) && text == StripNewlines(UntilTab(text)) + end + rest && (rest == "" || rest[0] == '\t')
    ensures var path := StripNewlines(UntilTab(text)); '\t' !in path && (path == "" || path[|path| - 1] != '\n')
  {
    hide StripNewlines, UntilTab, AfterTab;
    var named := UntilTab(text);
    UntilTabIs(text);
    end := StrippedWas(named);
    rest := if |named| < |text| then "\t" + AfterTab(text) else "";
    assert forall c <- StripNewlines(named) :: c in named;
  }

  lemma NameIff(line: string, path: string)
    ensures NameSpells(line, path) <==> "+++ " <= line && StripNewlines(UntilTab(line[4..])) == path
  {
    hide StripNewlines, UntilTab, Newlines;
    if NameSpells(line, path) {
      var end, rest :| NameParts(line, path, end, rest);
      assert line == "+++ " + (path + end + rest);
      NameRead(line[4..], path, end, rest);
    }
    if "+++ " <= line && StripNewlines(UntilTab(line[4..])) == path {
      var end, rest := NameWas(line[4..]);
      assert line == "+++ " + line[4..];
      assert NameParts(line, path, end, rest);
    }
  }

  lemma HeadersIff(lines: seq<string>, path: string, base: string)
    ensures ReadFileHeaders(lines) == Accepted((path, base)) <==>
            |lines| >= 3 && BaseSpells(lines[0], path, base) && NameSpells(lines[1], path)
  {
    hide StripNewlines, UntilTab, AfterTab, BaseSpells, NameSpells;
    if |lines| >= 3 {
      BaseIff(lines[0], path, base);
      NameIff(lines[1], path);
      if "--- " <= lines[0] && "+++ " <= lines[1] {
        var first := StripNewlines(lines[0][4..]);
        var digest := AfterTab(first);
        UntilTabIs(first);
        assert IsHexAll(digest);
        if ReadFileHeaders(lines) == Accepted((path, base)) {
          assert digest == "sha256:" + digest[7..];
        }
        if digest == "sha256:" + base {
          assert digest[7..] == base;
        }
      }
    }
  }

  predicate IsHexAll(text: string) {
    |text| >= 7 ==> (AllHex(text[7..]) <==> forall c <- text[7..] :: IsHex(c))
  }

  /** The main result. The parser accepts exactly the lines that spell a patch: two headers
      naming one file and its digest, then hunks with as many lines as announced; and it
      reads the patch they spell. */
  lemma PatchIff(lines: seq<string>, p: Patch)
    ensures ReadPatch(lines) == Accepted(p) <==> PatchSpells(lines, p)
  {
    hide ReadFileHeaders, ReadHunks, BaseSpells, NameSpells, HunksSpell;
    HeadersIff(lines, p.path, p.base);
    if |lines| >= 3 {
      HunksIff(lines[2..], p.hunks);
    } else if ReadFileHeaders(lines).Accepted? {
      HeadersNeedLines(lines);
    }
  }

  lemma HeadersRead(path: string, base: string)
    requires '\t' !in path && '\n' !in path && |base| == 64 && AllHex(base)
    ensures BaseSpells("--- " + path + "\tsha256:" + base + "\n", path, base)
    ensures NameSpells("+++ " + path + "\n", path)
  {
    var end := "\n";
    assert Newlines(end);
    assert path != "" ==> path[|path| - 1] in path;
    assert NameParts("+++ " + path + "\n", path, end, "");
  }

  /** Round trip of a whole patch. */
  lemma PatchReads(path: string, base: string, hunks: seq<Hunk>, newStarts: seq<nat>)
    requires '\t' !in path && '\n' !in path && |base| == 64 && AllHex(base)
    requires hunks != [] && |newStarts| == |hunks|
    requires (forall h <- hunks :: Counted(h)) && WholeLines(hunks)
    ensures ReadPatch(["--- " + path + "\tsha256:" + base + "\n", "+++ " + path + "\n"] + PrintHunks(hunks, newStarts))
            == Accepted(Patch(path, base, hunks))
  {
    PrintedSome(hunks, newStarts);
    hide ReadHunks, ReadFileHeaders, WholeLines, Counted, PrintHunks, BaseSpells, NameSpells, AllHex;
    var first, second, printed := "--- " + path + "\tsha256:" + base + "\n", "+++ " + path + "\n", PrintHunks(hunks, newStarts);
    var lines := [first, second] + printed;
    HunksRead(hunks, newStarts);
    HeadersRead(path, base);
    assert lines[2..] == printed && lines[0] == first && lines[1] == second;
    HeadersIff(lines, path, base);
  }

  lemma PrintedSome(hunks: seq<Hunk>, newStarts: seq<nat>)
    requires hunks != [] && |newStarts| == |hunks|
    ensures |PrintHunks(hunks, newStarts)| >= 1
  {
    hide PrintHeader, PrintBody;
  }
}
