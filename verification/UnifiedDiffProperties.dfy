/** What a patch does to a file, how it is undone, and what the parser reads back. */
module UnifiedDiffProperties {
  import opened Results
  import opened Decimals
  import opened TextLines
  import opened UnifiedDiff
  import opened UnifiedDiffRun

  // --- kept stretches and replaced blocks -------------------------------------------------

  /** Kept stretches with a block between each two of them. */
  function Weave(keeps: seq<seq<string>>, blocks: seq<seq<string>>): seq<string>
    requires |keeps| == |blocks| + 1
  {
    if blocks == [] then keeps[0] else keeps[0] + blocks[0] + Weave(keeps[1..], blocks[1..])
  }

  function Olds(hunks: seq<Hunk>): (blocks: seq<seq<string>>)
    ensures |blocks| == |hunks|
  {
    if hunks == [] then [] else [Old(hunks[0].body)] + Olds(hunks[1..])
  }

  function News(hunks: seq<Hunk>): (blocks: seq<seq<string>>)
    ensures |blocks| == |hunks|
  {
    if hunks == [] then [] else [New(hunks[0].body)] + News(hunks[1..])
  }

  /** Each hunk names the index at which its old block stands between the kept stretches. */
  predicate StartsAt(hunks: seq<Hunk>, keeps: seq<seq<string>>, offset: nat)
    requires |keeps| == |hunks| + 1
  {
    hunks == [] ||
    (Start(hunks[0]) == offset + |keeps[0]|
     && StartsAt(hunks[1..], keeps[1..], offset + |keeps[0]| + |Old(hunks[0].body)|))
  }

  ghost predicate Woven(source: seq<string>, hunks: seq<Hunk>, position: nat, keeps: seq<seq<string>>)
    requires position <= |source|
  {
    && |keeps| == |hunks| + 1
    && source[position..] == Weave(keeps, Olds(hunks))
    && StartsAt(hunks, keeps, position)
  }

  /** The stretches a fitting patch keeps. */
  function Keeps(source: seq<string>, hunks: seq<Hunk>, position: nat): (keeps: seq<seq<string>>)
    requires position <= |source| && Fits(source, hunks, position)
    ensures |keeps| == |hunks| + 1
  {
    if hunks == [] then [source[position..]]
    else
      var h := hunks[0];
      [source[position..Start(h)]] + Keeps(source, hunks[1..], Start(h) + |Old(h.body)|)
  }

  lemma {:induction false} FitsIsWoven(source: seq<string>, hunks: seq<Hunk>, position: nat)
    requires position <= |source| && Fits(source, hunks, position)
    ensures Woven(source, hunks, position, Keeps(source, hunks, position))
    decreases |hunks|
  {
    hide Old, New;
    if hunks != [] {
      var h := hunks[0];
      var next := Start(h) + |Old(h.body)|;
      FitsIsWoven(source, hunks[1..], next);
      var keeps := Keeps(source, hunks, position);
      assert keeps[1..] == Keeps(source, hunks[1..], next);
      assert Olds(hunks)[1..] == Olds(hunks[1..]);
      assert source[position..] == source[position..Start(h)] + source[Start(h)..next] + source[next..];
    }
  }

  lemma ThreeParts(source: seq<string>, position: nat, kept: seq<string>, gone: seq<string>, rest: seq<string>)
    requires position <= |source| && source[position..] == kept + gone + rest
    ensures var start := position + |kept|; var next := start + |gone|;
            && next <= |source| && source[position..start] == kept && source[start..next] == gone && source[next..] == rest
  {
    var tail, k := source[position..], |kept|;
    assert tail[..k] == kept && tail[k..k + |gone|] == gone && tail[k + |gone|..] == rest;
  }

  lemma {:induction false} WovenFits(source: seq<string>, hunks: seq<Hunk>, position: nat, keeps: seq<seq<string>>)
    requires position <= |source| && Woven(source, hunks, position, keeps)
    ensures Fits(source, hunks, position)
    ensures Patched(source, hunks, position) == Weave(keeps, News(hunks))
    decreases |hunks|
  {
    hide Old, New, Start;
    if hunks != [] {
      var h := hunks[0];
      var kept, gone, rest := keeps[0], Old(h.body), Weave(keeps[1..], Olds(hunks[1..]));
      assert Olds(hunks)[1..] == Olds(hunks[1..]) && News(hunks)[1..] == News(hunks[1..]);
      assert source[position..] == kept + gone + rest;
      var next := position + |kept| + |gone|;
      ThreeParts(source, position, kept, gone, rest);
      WovenFits(source, hunks[1..], next, keeps[1..]);
    }
  }

  /** The main result. A patch applies exactly when the file is kept stretches
      woven with its old blocks at the places its headers name, and the result
      is then the same stretches woven with its new blocks. */
  lemma AppliesIffWoven(source: seq<string>, hunks: seq<Hunk>)
    ensures Apply(source, hunks).Accepted? <==> exists keeps :: Woven(source, hunks, 0, keeps)
    ensures forall keeps | Woven(source, hunks, 0, keeps) ::
              Apply(source, hunks) == Accepted(Weave(keeps, News(hunks)))
  {
    if Fits(source, hunks, 0) {
      FitsIsWoven(source, hunks, 0);
    }
    forall keeps | Woven(source, hunks, 0, keeps)
      ensures Apply(source, hunks) == Accepted(Weave(keeps, News(hunks)))
    {
      WovenFits(source, hunks, 0, keeps);
    }
  }

  /** How many lines a patch adds. */
  function Growth(hunks: seq<Hunk>): int {
    if hunks == [] then 0 else |New(hunks[0].body)| - |Old(hunks[0].body)| + Growth(hunks[1..])
  }

  lemma {:induction false} PatchedLength(source: seq<string>, hunks: seq<Hunk>, position: nat)
    requires position <= |source| && Fits(source, hunks, position)
    ensures |Patched(source, hunks, position)| == |source| - position + Growth(hunks)
    decreases |hunks|
  {
    hide Old, New;
    if hunks != [] {
      PatchedLength(source, hunks[1..], Start(hunks[0]) + |Old(hunks[0].body)|);
    }
  }

  // --- undoing a patch ----------------------------------------------------------------------

  function SwapTag(tag: Tag): Tag {
    match tag case Context => Context case Removed => Added case Added => Removed
  }

  function Swap(body: seq<BodyLine>): (r: seq<BodyLine>)
    ensures |r| == |body|
  {
    seq(|body|, i requires 0 <= i < |body| => BodyLine(SwapTag(body[i].tag), body[i].text))
  }

  lemma {:induction false} SwapBody(body: seq<BodyLine>)
    ensures Old(Swap(body)) == New(body) && New(Swap(body)) == Old(body)
  {
    if body != [] {
      var n := |body| - 1;
      SwapBody(body[..n]);
      assert Swap(body)[..n] == Swap(body[..n]);
    }
  }

  /** The tag-swapped hunk, with its start moved by the lines added before it. */
  function ReverseHunk(h: Hunk, delta: int): Hunk {
    var start := Start(h) + delta;
    var header := if h.newLen > 0 then start + 1 else start;
    Hunk(if header < 0 then 0 else header, h.newLen, h.oldLen, Swap(h.body))
  }

  function Reverse(hunks: seq<Hunk>, delta: int): (r: seq<Hunk>)
    ensures |r| == |hunks|
  {
    if hunks == [] then []
    else [ReverseHunk(hunks[0], delta)] + Reverse(hunks[1..], delta + |New(hunks[0].body)| - |Old(hunks[0].body)|)
  }

  lemma {:induction false} ReverseBlocks(hunks: seq<Hunk>, delta: int)
    ensures Olds(Reverse(hunks, delta)) == News(hunks) && News(Reverse(hunks, delta)) == Olds(hunks)
    ensures Growth(Reverse(hunks, delta)) == -Growth(hunks)
    decreases |hunks|
  {
    hide Old, New, Swap, Start;
    if hunks != [] {
      var rest := delta + |New(hunks[0].body)| - |Old(hunks[0].body)|;
      SwapBody(hunks[0].body);
      ReverseBlocks(hunks[1..], rest);
      assert Reverse(hunks, delta)[1..] == Reverse(hunks[1..], rest);
    }
  }

  lemma {:induction false} ReverseStarts(hunks: seq<Hunk>, keeps: seq<seq<string>>, offset: nat, delta: int)
    requires |keeps| == |hunks| + 1 && StartsAt(hunks, keeps, offset)
    requires offset + delta >= 0
    requires forall h <- hunks :: Counted(h)
    ensures StartsAt(Reverse(hunks, delta), keeps, offset + delta)
    decreases |hunks|
  {
    hide Old, New;
    if hunks != [] {
      var h := hunks[0];
      assert Counted(h) by { assert h in hunks; }
      SwapBody(h.body);
      ReverseStarts(hunks[1..], keeps[1..], offset + |keeps[0]| + |Old(h.body)|, delta + |New(h.body)| - |Old(h.body)|);
    }
  }

  /** The tag-swapped patch applies to the result and restores the file, line for line. */
  lemma ReverseRestores(source: seq<string>, hunks: seq<Hunk>)
    requires Apply(source, hunks).Accepted? && forall h <- hunks :: Counted(h)
    ensures Apply(Apply(source, hunks).value, Reverse(hunks, 0)) == Accepted(source)
  {
    FitsIsWoven(source, hunks, 0);
    var keeps := Keeps(source, hunks, 0);
    WovenFits(source, hunks, 0, keeps);
    ReverseBlocks(hunks, 0);
    ReverseStarts(hunks, keeps, 0, 0);
    var result := Patched(source, hunks, 0);
    assert result[0..] == result && source[0..] == source;
    WovenFits(result, Reverse(hunks, 0), 0, keeps);
  }

  // --- the same on texts ------------------------------------------------------------------------

  /** What the parser guarantees of every body line it keeps. */
  predicate WholeLines(hunks: seq<Hunk>) {
    forall h <- hunks :: forall b <- h.body :: SingleLine(b.text) && EndsLine(b.text)
  }

  predicate HasText(body: seq<BodyLine>, text: string) {
    exists b <- body :: b.text == text
  }

  lemma {:induction false} BlockTexts(body: seq<BodyLine>)
    ensures forall text <- Old(body) :: HasText(body, text)
    ensures forall text <- New(body) :: HasText(body, text)
  {
    if body != [] {
      var front, last := body[..|body| - 1], body[|body| - 1];
      BlockTexts(front);
      assert last in body;
      forall text | HasText(front, text) ensures HasText(body, text) {
        var b :| b in front && b.text == text;
        assert b in body;
      }
    }
  }

  lemma {:induction false} PatchedLines(source: seq<string>, hunks: seq<Hunk>, position: nat)
    requires position <= |source| && Fits(source, hunks, position)
    requires (forall line <- source :: SingleLine(line)) && WholeLines(hunks)
    ensures forall line <- Patched(source, hunks, position) :: line in source || (SingleLine(line) && EndsLine(line))
    decreases |hunks|
  {
    hide SingleLine, EndsLine, Old, New, Placed;
    if hunks != [] {
      var h := hunks[0];
      PlacedInside(source, h, position);
      BlockTexts(h.body);
      PatchedLines(source, hunks[1..], Start(h) + |Old(h.body)|);
      forall line <- New(h.body) ensures SingleLine(line) && EndsLine(line) {
        assert HasText(h.body, line);
        var b :| b in h.body && b.text == line;
      }
      assert forall line <- source[position..Start(h)] :: line in source;
    }
  }

  lemma WholeLinesReverse(hunks: seq<Hunk>, delta: int)
    requires WholeLines(hunks)
    ensures WholeLines(Reverse(hunks, delta))
    decreases |hunks|
  {
    if hunks != [] {
      var h := hunks[0];
      forall b <- Swap(h.body) ensures SingleLine(b.text) && EndsLine(b.text) {
        var i :| 0 <= i < |h.body| && Swap(h.body)[i] == b;
        assert h.body[i] in h.body;
      }
      WholeLinesReverse(hunks[1..], delta + |New(h.body)| - |Old(h.body)|);
    }
  }

  lemma SplitSingles(text: string)
    ensures forall line <- SplitLines(text) :: SingleLine(line)
  {
    hide SingleLine, Separate, SplitLines;
    SplitIsSplit(text);
  }

  /** On texts the reverse patch restores the file exactly when writing the
      patched lines out has not run two of them together. */
  lemma ReverseTextIffSplit(original: string, hunks: seq<Hunk>)
    requires (forall h <- hunks :: Counted(h)) && WholeLines(hunks)
    requires Apply(SplitLines(original), hunks).Accepted?
    ensures var lines := Apply(SplitLines(original), hunks).value;
            ApplyText(JoinLines(lines), Reverse(hunks, 0)) == Accepted(original) <==> IsSplit(lines)
  {
    hide SingleLine, Separate, EndsLine, SplitLines, JoinLines, Fits, Patched, IsSplit;
    var source := SplitLines(original);
    var lines, back := Apply(source, hunks).value, Reverse(hunks, 0);
    SplitJoin(original);
    SplitSingles(original);
    PatchedLines(source, hunks, 0);
    Resplit(lines);
    ReverseRestores(source, hunks);
    if !IsSplit(lines) {
      var again := SplitLines(JoinLines(lines));
      PatchedLength(source, hunks, 0);
      ReverseBlocks(hunks, 0);
      WholeLinesReverse(hunks, 0);
      if Apply(again, back).Accepted? {
        var restored := Apply(again, back).value;
        PatchedLength(again, back, 0);
        SplitSingles(JoinLines(lines));
        PatchedLines(again, back, 0);
        Resplit(restored);
        assert |SplitLines(JoinLines(restored))| <= |restored| < |source|;
      }
    }
  }

  /** The line that comes first when the file is written out from `position` on. */
  function NextLine(source: seq<string>, hunks: seq<Hunk>, position: nat): Option<string>
    requires position <= |source| && Fits(source, hunks, position)
    decreases |hunks|
  {
    if hunks == [] then (if position < |source| then Some(source[position]) else None)
    else
      var h := hunks[0];
      if position < Start(h) then Some(source[position])
      else if New(h.body) != [] then Some(New(h.body)[0])
      else NextLine(source, hunks[1..], Start(h) + |Old(h.body)|)
  }

  /** The kept line before each hunk, if there is one, does not stick to the line
      that comes to follow it: the first line the hunk puts there or, when it puts
      none, whatever comes next. */
  predicate NothingSticks(source: seq<string>, hunks: seq<Hunk>, position: nat)
    requires position <= |source| && Fits(source, hunks, position)
    decreases |hunks|
  {
    hunks == [] ||
    var h := hunks[0];
    var next := NextLine(source, hunks, Start(h));
    && (position < Start(h) && next.Some? ==> !Sticks(source[Start(h) - 1], next.value))
    && NothingSticks(source, hunks[1..], Start(h) + |Old(h.body)|)
  }

  lemma {:induction false} NextLineFirst(source: seq<string>, hunks: seq<Hunk>, position: nat)
    requires position <= |source| && Fits(source, hunks, position)
    ensures var lines := Patched(source, hunks, position);
            NextLine(source, hunks, position) == if lines == [] then None else Some(lines[0])
    decreases |hunks|
  {
    hide Old, New, Placed;
    if hunks != [] {
      PlacedInside(source, hunks[0], position);
      NextLineFirst(source, hunks[1..], Start(hunks[0]) + |Old(hunks[0].body)|);
    }
  }

  /** The stretch before a hunk can be left out. */
  lemma FromHunk(source: seq<string>, hunks: seq<Hunk>, position: nat)
    requires position <= |source| && hunks != [] && Fits(source, hunks, position)
    ensures var start := Start(hunks[0]);
            && position <= start <= |source| && Fits(source, hunks, start)
            && Patched(source, hunks, position) == source[position..start] + Patched(source, hunks, start)
            && Patched(source, hunks, start)
               == New(hunks[0].body) + Patched(source, hunks[1..], start + |Old(hunks[0].body)|)
  {
    hide Old, New;
  }

  /** Lines that end in a newline stick to nothing. */
  lemma NewlineApart(lines: seq<string>)
    requires forall line <- lines :: EndsLine(line)
    ensures Apart(lines)
    ensures forall line <- lines, next :: !Sticks(line, next)
  {
    forall i | 0 < i < |lines| ensures !Sticks(lines[i - 1], lines[i]) {
      assert lines[i - 1] in lines;
    }
  }

  lemma ApartSlice(lines: seq<string>, low: nat, high: nat)
    requires low <= high <= |lines| && Apart(lines)
    ensures Apart(lines[low..high])
  {
    hide Sticks;
    forall i | 0 < i < high - low ensures !Sticks(lines[low..high][i - 1], lines[low..high][i]) {
      assert !Sticks(lines[low + i - 1], lines[low + i]);
    }
  }

  lemma NewLinesWhole(h: Hunk)
    requires WholeLines([h])
    ensures forall line <- New(h.body) :: EndsLine(line)
  {
    hide EndsLine, SingleLine, New;
    BlockTexts(h.body);
    assert h in [h];
    forall line <- New(h.body) ensures EndsLine(line) {
      assert HasText(h.body, line);
    }
  }

  /** Only where a hunk meets the kept line before it can two lines run together. */
  lemma {:induction false} PatchedApart(source: seq<string>, hunks: seq<Hunk>, position: nat)
    requires position <= |source| && Fits(source, hunks, position)
    requires Apart(source) && WholeLines(hunks)
    ensures Apart(Patched(source, hunks, position)) <==> NothingSticks(source, hunks, position)
    decreases |hunks|
  {
    hide Old, New, Fits, Patched, NextLine, Sticks, Apart, EndsLine, SingleLine;
    if hunks == [] {
      FromEnd(source, position);
      ApartSlice(source, position, |source|);
      assert source[position..|source|] == source[position..];
    } else {
      var h := hunks[0];
      FromHunk(source, hunks, position);
      FitsRest(source, hunks, position);
      var start := Start(h);
      var kept, put, rest := source[position..start], New(h.body), Patched(source, hunks[1..], start + |Old(h.body)|);
      assert WholeLines([h]) && WholeLines(hunks[1..]);
      NewLinesWhole(h);
      NewlineApart(put);
      PatchedApart(source, hunks[1..], start + |Old(h.body)|);
      ApartSlice(source, position, start);
      ApartJoin(put, rest);
      ApartJoin(kept, put + rest);
      NextLineFirst(source, hunks, start);
      assert put != [] ==> put[|put| - 1] in put;
      assert kept != [] ==> kept[|kept| - 1] == source[start - 1];
    }
  }

  lemma FromEnd(source: seq<string>, position: nat)
    requires position <= |source|
    ensures Fits(source, [], position) && Patched(source, [], position) == source[position..]
  {
  }

  lemma FitsRest(source: seq<string>, hunks: seq<Hunk>, position: nat)
    requires position <= |source| && hunks != [] && Fits(source, hunks, position)
    ensures var next := Start(hunks[0]) + |Old(hunks[0].body)|;
            position <= Start(hunks[0]) <= next <= |source| && Fits(source, hunks[1..], next)
  {
  }

  /** The condition on the file and the patch: a patch is undone on texts exactly
      when no kept line sticks to what comes to follow it. */
  lemma ReverseTextIff(original: string, hunks: seq<Hunk>)
    requires (forall h <- hunks :: Counted(h)) && WholeLines(hunks)
    requires Apply(SplitLines(original), hunks).Accepted?
    ensures var source := SplitLines(original);
            ApplyText(JoinLines(Apply(source, hunks).value), Reverse(hunks, 0)) == Accepted(original)
            <==> NothingSticks(source, hunks, 0)
  {
    hide SingleLine, Separate, EndsLine, SplitLines, JoinLines, Patched, IsSplit, Apart, ApplyText, NothingSticks, Reverse;
    var source := SplitLines(original);
    SplitSingles(original);
    SplitIsSplit(original);
    SplitIffApart(source);
    PatchedLines(source, hunks, 0);
    SplitIffApart(Apply(source, hunks).value);
    PatchedApart(source, hunks, 0);
    ReverseTextIffSplit(original, hunks);
  }

  /** A file whose every line is terminated, none by a lone carriage return,
      is always restored. */
  lemma TerminatedRestores(original: string, hunks: seq<Hunk>)
    requires (forall h <- hunks :: Counted(h)) && WholeLines(hunks)
    requires Apply(SplitLines(original), hunks).Accepted?
    requires forall line <- SplitLines(original) :: Terminated(line) && line[|line| - 1] != '\r'
    ensures ApplyText(JoinLines(Apply(SplitLines(original), hunks).value), Reverse(hunks, 0)) == Accepted(original)
  {
    hide Terminated, SplitLines, JoinLines, ApplyText, Patched, Fits, Reverse, Counted, WholeLines, NothingSticks;
    ReverseTextIff(original, hunks);
    TerminatedSticksNot(SplitLines(original), hunks, 0);
  }

  lemma {:induction false} TerminatedSticksNot(source: seq<string>, hunks: seq<Hunk>, position: nat)
    requires position <= |source| && Fits(source, hunks, position)
    requires forall line <- source :: Terminated(line) && line[|line| - 1] != '\r'
    ensures NothingSticks(source, hunks, position)
    decreases |hunks|
  {
    hide Old, New, NextLine, Terminated;
    if hunks != [] {
      var h := hunks[0];
      FromHunk(source, hunks, position);
      TerminatedSticksNot(source, hunks[1..], Start(h) + |Old(h.body)|);
      if position < Start(h) {
        assert source[Start(h) - 1] in source;
      }
    }
  }

  const INSERTION: Hunk := Hunk(1, 0, 1, [BodyLine(Added, "b\n")])

  lemma InsertionWhole()
    ensures Counted(INSERTION) && WholeLines([INSERTION])
    ensures Old(INSERTION.body) == [] && New(INSERTION.body) == ["b\n"]
  {
    EmptyCounts();
    BodySnoc([], INSERTION.body[0]);
    assert [] + [INSERTION.body[0]] == INSERTION.body;
    assert SingleLine("b\n") by {
      assert "b\n"[1..] == "\n" && LineEnd("\n") == 1;
    }
  }

  lemma InsertionApplies(line: string)
    ensures Apply([line], [INSERTION]) == Accepted([line, "b\n"])
  {
    hide Old, New;
    InsertionWhole();
    var source := [line];
    assert source[1..1] == [] && Placed(source, INSERTION, 0);
    assert [INSERTION][1..] == [] && source[1..] == [] && source[0..1] == source;
    assert Fits(source, [INSERTION], 0) && Patched(source, [], 1) == [];
    assert Patched(source, [INSERTION], 0) == source + ["b\n"] + [] == [line, "b\n"];
  }

  lemma LoneLine(line: string)
    requires SingleLine(line)
    ensures SplitLines(line) == [line]
  {
    hide SplitLines;
    assert JoinLines([line]) == line + JoinLines([]) == line;
    assert IsSplit([line]);
    Resplit([line]);
  }

  /** Adding a line after an unterminated last line is not undone. */
  lemma UnterminatedNotRestored()
    ensures Counted(INSERTION) && WholeLines([INSERTION])
    ensures ApplyText("a", [INSERTION]) == Accepted("ab\n")
    ensures ApplyText("ab\n", Reverse([INSERTION], 0)) != Accepted("a")
  {
    hide Apply, Reverse, SplitLines, Counted, WholeLines;
    InsertionWhole();
    InsertionApplies("a");
    LoneLine("a");
    JoinTwo("a", "b\n");
    assert "a" + "b\n" == "ab\n";
    assert !Separate("a", "b\n");
    assert !IsSplit(["a", "b\n"]);
    ReverseTextIffSplit("a", [INSERTION]);
    assert Apply(SplitLines("a"), [INSERTION]).value == ["a", "b\n"];
  }

  lemma JoinTwo(a: string, b: string)
    ensures JoinLines([a, b]) == a + b && JoinLines([a, b][1..]) == b
  {
    assert [a, b][1..] == [b] && [b][1..] == [];
    assert JoinLines([b]) == b + JoinLines([]) == b;
  }

  // --- reading a printed patch -------------------------------------------------------------------

  function DigitChar(d: Digit): (c: char)
    ensures IsDigit(c) && DigitAt(c) == d
  {
    (d as int + '0' as int) as char
  }

  function Chars(ds: seq<Digit>): (text: string)
    ensures |text| == |ds| && (forall c <- text :: IsDigit(c))
  {
    if ds == [] then "" else [DigitChar(ds[0])] + Chars(ds[1..])
  }

  lemma {:induction false} CharsRead(ds: seq<Digit>)
    ensures DigitValues(Chars(ds)) == ds
  {
    if ds != [] {
      CharsRead(ds[1..]);
      assert Chars(ds)[1..] == Chars(ds[1..]);
    }
  }

  lemma {:induction false} RunStops(digits: string, rest: string)
    requires (forall c <- digits :: IsDigit(c)) && (rest == "" || !IsDigit(rest[0]))
    ensures DigitRun(digits + rest) == |digits|
  {
    if digits != "" {
      assert (digits + rest)[1..] == digits[1..] + rest;
      assert digits[0] in digits;
      RunStops(digits[1..], rest);
    }
  }

  function PrintNumber(n: nat): string {
    Chars(Digits(n))
  }

  lemma NumberReads(n: nat, rest: string)
    requires rest == "" || !IsDigit(rest[0])
    ensures ReadNumber(PrintNumber(n) + rest) == Accepted((n, rest))
  {
    var digits := PrintNumber(n);
    RunStops(digits, rest);
    assert (digits + rest)[..|digits|] == digits && (digits + rest)[|digits|..] == rest;
    CharsRead(Digits(n));
    ReadBack(n);
  }

  function PrintHeader(h: Hunk, newStart: nat): string {
    "@@ -" + (PrintNumber(h.oldStart) + ("," + (PrintNumber(h.oldLen)
    + (" +" + (PrintNumber(newStart) + ("," + (PrintNumber(h.newLen) + " @@")))))))
  }

  lemma HeaderReads(h: Hunk, newStart: nat)
    ensures ReadHeader(PrintHeader(h, newStart)) == Accepted((h.oldStart, h.oldLen, h.newLen))
  {
    hide PrintNumber, ReadNumber;
    var t4 := PrintNumber(h.newLen) + " @@";
    var t3 := PrintNumber(newStart) + ("," + t4);
    var t2 := PrintNumber(h.oldLen) + (" +" + t3);
    var t1 := PrintNumber(h.oldStart) + ("," + t2);
    NumberReads(h.newLen, " @@");
    NumberReads(newStart, "," + t4);
    NumberReads(h.oldLen, " +" + t3);
    NumberReads(h.oldStart, "," + t2);
    assert PrintHeader(h, newStart) == "@@ -" + t1;
    assert ("@@ -" + t1)[4..] == t1 && (" +" + t3)[2..] == t3;
    assert ("," + t2)[1..] == t2 && ("," + t4)[1..] == t4;
  }

  function PrintBody(body: seq<BodyLine>): (lines: seq<string>)
    ensures |lines| == |body|
  {
    if body == [] then [] else [PrintBodyLine(body[0])] + PrintBody(body[1..])
  }

  /** A printed patch; `newStarts` are the numbers the parser drops. */
  function PrintHunks(hunks: seq<Hunk>, newStarts: seq<nat>): seq<string>
    requires |newStarts| == |hunks|
  {
    if hunks == [] then []
    else [PrintHeader(hunks[0], newStarts[0]) + "\n"] + PrintBody(hunks[0].body) + PrintHunks(hunks[1..], newStarts[1..])
  }

  lemma {:induction false} CountsCons(body: seq<BodyLine>)
    requires body != []
    ensures |Old(body)| == |Old(body[1..])| + (if InOld(body[0].tag) then 1 else 0)
    ensures |New(body)| == |New(body[1..])| + (if InNew(body[0].tag) then 1 else 0)
  {
    if |body| > 1 {
      var n := |body| - 1;
      CountsCons(body[..n]);
      assert body[1..][..n - 1] == body[..n][1..];
    } else {
      assert body[1..] == [] && body[..0] == [];
    }
  }

  lemma BodyLineReads(b: BodyLine)
    requires EndsLine(b.text)
    ensures ReadBodyLine(PrintBodyLine(b)) == Accepted(b)
  {
    assert PrintBodyLine(b)[1..] == b.text;
  }

  lemma ReadStep(lines: seq<string>, b: BodyLine, o: int, n: int)
    requires lines != [] && ReadBodyLine(lines[0]) == Accepted(b) && o >= 0 && n >= 0
    requires (InOld(b.tag) ==> o > 0) && (InNew(b.tag) ==> n > 0)
    requires ReadBody(lines[1..], o - (if InOld(b.tag) then 1 else 0), n - (if InNew(b.tag) then 1 else 0)).Accepted?
    ensures var rest := ReadBody(lines[1..], o - (if InOld(b.tag) then 1 else 0), n - (if InNew(b.tag) then 1 else 0)).value;
            ReadBody(lines, o, n) == Accepted(([b] + rest.0, rest.1))
  {
  }

  lemma {:induction false} BodyReads(body: seq<BodyLine>, rest: seq<string>)
    requires forall b <- body :: EndsLine(b.text)
    ensures ReadBody(PrintBody(body) + rest, |Old(body)|, |New(body)|) == Accepted((body, rest))
    decreases |body|
  {
    hide Old, New, ReadBody, ReadBodyLine, PrintBodyLine, EndsLine, InOld, InNew;
    if body == [] {
      EmptyCounts();
      assert PrintBody(body) + rest == rest;
      BodyEnd([], rest, 0, 0);
    } else {
      var b := body[0];
      assert b in body;
      CountsCons(body);
      BodyReads(body[1..], rest);
      BodyLineReads(b);
      var lines := PrintBody(body) + rest;
      assert lines[0] == PrintBodyLine(b) && lines[1..] == PrintBody(body[1..]) + rest;
      assert body == [b] + body[1..];
      ReadStep(lines, b, |Old(body)|, |New(body)|);
    }
  }

  lemma StripHeader(h: Hunk, newStart: nat)
    ensures StripNewlines(PrintHeader(h, newStart) + "\n") == PrintHeader(h, newStart)
  {
    var header := PrintHeader(h, newStart);
    assert (header + "\n")[..|header|] == header;
    var t := PrintNumber(h.oldStart) + ("," + (PrintNumber(h.oldLen) + (" +" + (PrintNumber(newStart) + ("," + PrintNumber(h.newLen))))));
    assert header == "@@ -" + t + " @@";
    assert header[|header| - 1] == '@';
  }

  /** Round trip: the parser reads back every hunk of a printed patch. */
  lemma {:induction false} HunksRead(hunks: seq<Hunk>, newStarts: seq<nat>)
    requires |newStarts| == |hunks|
    requires (forall h <- hunks :: Counted(h)) && WholeLines(hunks)
    ensures ReadHunks(PrintHunks(hunks, newStarts)) == Accepted(hunks)
    decreases |hunks|
  {
    hide PrintHeader, ReadHeader, StripNewlines, Old, New, ReadBody, PrintBody, SingleLine, EndsLine;
    if hunks != [] {
      var h := hunks[0];
      assert h in hunks && Counted(h);
      var rest := PrintHunks(hunks[1..], newStarts[1..]);
      HunksRead(hunks[1..], newStarts[1..]);
      HeaderReads(h, newStarts[0]);
      StripHeader(h, newStarts[0]);
      BodyReads(h.body, rest);
      var lines := PrintHunks(hunks, newStarts);
      assert lines == [PrintHeader(h, newStarts[0]) + "\n"] + (PrintBody(h.body) + rest);
      assert lines[1..] == PrintBody(h.body) + rest;
      assert hunks == [h] + hunks[1..];
    }
  }

  /** What the parser keeps of a text's lines: whole single lines, counted as announced. */
  lemma {:induction false} ReadBodyKeeps(lines: seq<string>, oldLeft: int, newLeft: int)
    requires forall line <- lines :: SingleLine(line)
    requires ReadBody(lines, oldLeft, newLeft).Accepted?
    ensures var r := ReadBody(lines, oldLeft, newLeft).value;
            && (forall b <- r.0 :: SingleLine(b.text) && EndsLine(b.text))
            && |Old(r.0)| == oldLeft && |New(r.0)| == newLeft
            && lines == PrintBody(r.0) + r.1
    decreases |lines|
  {
    hide SingleLine, EndsLine, ReadBody, ReadBodyLine, PrintBody, PrintBodyLine, Old, New, InOld, InNew;
    ReadUnfolds(lines, oldLeft, newLeft);
    EmptyCounts();
    PrintUnfolds([]);
    if lines != [] && (oldLeft > 0 || newLeft > 0) {
      var b := ReadBodyLine(lines[0]).value;
      assert lines[0] in lines;
      LineWithoutTag(lines[0]);
      var o, n := oldLeft - (if InOld(b.tag) then 1 else 0), newLeft - (if InNew(b.tag) then 1 else 0);
      ReadBodyKeeps(lines[1..], o, n);
      var rest := ReadBody(lines[1..], o, n).value;
      var body := [b] + rest.0;
      assert body[1..] == rest.0;
      CountsCons(body);
      PrintUnfolds(body);
      assert lines == [lines[0]] + lines[1..];
    }
  }

  lemma ReadUnfolds(lines: seq<string>, o: int, n: int)
    requires ReadBody(lines, o, n).Accepted?
    ensures if lines != [] && (o > 0 || n > 0) then
              && ReadBodyLine(lines[0]).Accepted?
              && var b := ReadBodyLine(lines[0]).value;
                 var rest := ReadBody(lines[1..], o - (if InOld(b.tag) then 1 else 0), n - (if InNew(b.tag) then 1 else 0));
                 rest.Accepted? && ReadBody(lines, o, n).value == ([b] + rest.value.0, rest.value.1)
            else o == 0 == n && ReadBody(lines, o, n).value == ([], lines)
  {
    hide ReadBodyLine, InOld, InNew;
  }

  lemma PrintUnfolds(body: seq<BodyLine>)
    ensures PrintBody(body) == if body == [] then [] else [PrintBodyLine(body[0])] + PrintBody(body[1..])
  {
    hide PrintBodyLine;
  }

  lemma LineWithoutTag(line: string)
    requires SingleLine(line) && ReadBodyLine(line).Accepted?
    ensures var b := ReadBodyLine(line).value;
            SingleLine(b.text) && EndsLine(b.text) && PrintBodyLine(b) == line
  {
  }

  lemma {:induction false} ReadHunksKeeps(lines: seq<string>)
    requires forall line <- lines :: SingleLine(line)
    requires ReadHunks(lines).Accepted?
    ensures (forall h <- ReadHunks(lines).value :: Counted(h)) && WholeLines(ReadHunks(lines).value)
    decreases |lines|
  {
    hide SingleLine, EndsLine, ReadHeader, ReadBody, Old, New, StripNewlines, PrintBody;
    if lines != [] {
      var header := ReadHeader(StripNewlines(lines[0])).value;
      ReadBodyKeeps(lines[1..], header.1, header.2);
      var body := ReadBody(lines[1..], header.1, header.2).value;
      ReadBodyShrinks(lines[1..], header.1, header.2);
      assert forall line <- body.1 :: line in lines[1..];
      ReadHunksKeeps(body.1);
    }
  }

  /** Every patch the parser accepts meets what undoing it needs. */
  lemma ParsedPatchIsWhole(text: string)
    requires ReadPatch(SplitLines(text)).Accepted?
    ensures var hunks := ReadPatch(SplitLines(text)).value.hunks;
            (forall h <- hunks :: Counted(h)) && WholeLines(hunks)
  {
    hide SingleLine, ReadHunks, ReadFileHeaders;
    SplitSingles(text);
    var lines := SplitLines(text);
    assert |lines| >= 3 by { HeadersNeedLines(lines); }
    assert forall line <- lines[2..] :: line in lines;
    ReadHunksKeeps(lines[2..]);
  }

  lemma HeadersNeedLines(lines: seq<string>)
    requires ReadFileHeaders(lines).Accepted?
    ensures |lines| >= 3
  {
  }
}
