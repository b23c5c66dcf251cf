/** Python's `str.splitlines(keepends=True)` and its inverse. */
module TextLines {

  /** The line boundaries of `str.splitlines`; `\r\n` counts as one. */
  predicate IsBreak(c: char) {
    c == '\n' || c == '\r' || c == '\U{0B}' || c == '\U{0C}' || c == '\U{1C}' || c == '\U{1D}' || c == '\U{1E}'
    || c == '\U{85}' || c == '\U{2028}' || c == '\U{2029}'
  }

  /** The length of the first line, with its terminator. */
  function LineEnd(text: string): (n: nat)
    requires text != ""
    ensures 0 < n <= |text|
  {
    if IsBreak(text[0]) then (if text[0] == '\r' && |text| > 1 && text[1] == '\n' then 2 else 1)
    else if |text| == 1 then 1
    else 1 + LineEnd(text[1..])
  }

  function SplitLines(text: string): seq<string>
  {
    if text == "" then [] else [text[..LineEnd(text)]] + SplitLines(text[LineEnd(text)..])
  }

  function JoinLines(lines: seq<string>): string {
    if lines == [] then "" else lines[0] + JoinLines(lines[1..])
  }

  predicate SingleLine(line: string) {
    line != "" && LineEnd(line) == |line|
  }

  predicate Terminated(line: string) {
    line != "" && IsBreak(line[|line| - 1])
  }

  /** Nothing of `after` would join the line when the two are written together. */
  predicate Separate(line: string, after: string) {
    after == "" || (Terminated(line) && !(line[|line| - 1] == '\r' && after[0] == '\n'))
  }

  /** Each element is one line, and stays one when the list is written out. */
  predicate IsSplit(lines: seq<string>) {
    forall i | 0 <= i < |lines| :: SingleLine(lines[i]) && Separate(lines[i], JoinLines(lines[i + 1..]))
  }

  lemma {:induction false} SplitJoin(text: string)
    ensures JoinLines(SplitLines(text)) == text
  {
    if text != "" {
      SplitJoin(text[LineEnd(text)..]);
    }
  }

  /** A line before more text: it stays alone, or swallows the next line. */
  lemma {:induction false} LineBefore(line: string, after: string)
    requires SingleLine(line)
    ensures Separate(line, after) ==> LineEnd(line + after) == |line|
    ensures !Separate(line, after) && Terminated(line) ==> LineEnd(line + after) == |line| + 1 && after[0] == '\n'
    ensures !Separate(line, after) && !Terminated(line) ==> LineEnd(line + after) == |line| + LineEnd(after)
  {
    var text := line + after;
    if |line| > 1 && !IsBreak(line[0]) {
      LineBefore(line[1..], after);
      assert text[1..] == line[1..] + after;
    } else if |line| == 1 && after != "" {
      assert text[1..] == after;
    }
  }

  lemma SplitPush(line: string, after: string)
    requires SingleLine(line)
    ensures if Separate(line, after) then SplitLines(line + after) == [line] + SplitLines(after)
            else |SplitLines(line + after)| == |SplitLines(after)|
  {
    var text := line + after;
    LineBefore(line, after);
    if Separate(line, after) {
      assert text[..|line|] == line && text[|line|..] == after;
    } else if Terminated(line) {
      assert text[|line| + 1..] == after[1..];
      assert LineEnd(after) == 1;
    } else {
      assert text[LineEnd(text)..] == after[LineEnd(after)..];
    }
  }

  lemma {:induction false} FirstLineAlone(text: string)
    requires text != ""
    ensures var n := LineEnd(text); SingleLine(text[..n]) && Separate(text[..n], text[n..])
  {
    var n := LineEnd(text);
    if !IsBreak(text[0]) && |text| > 1 {
      FirstLineAlone(text[1..]);
      assert text[..n][1..] == text[1..][..n - 1] && text[n..] == text[1..][n - 1..];
    }
  }

  /** What `splitlines` returns is split. */
  lemma {:induction false} SplitIsSplit(text: string)
    ensures IsSplit(SplitLines(text))
  {
    if text != "" {
      var n := LineEnd(text);
      FirstLineAlone(text);
      SplitIsSplit(text[n..]);
      SplitJoin(text[n..]);
      var lines, rest := SplitLines(text), SplitLines(text[n..]);
      forall i | 0 <= i < |lines|
        ensures SingleLine(lines[i]) && Separate(lines[i], JoinLines(lines[i + 1..]))
      {
        if i > 0 {
          assert lines[i] == rest[i - 1] && lines[i + 1..] == rest[i..];
        }
      }
    }
  }

  lemma IsSplitTail(lines: seq<string>)
    requires lines != [] && (forall line <- lines :: SingleLine(line))
    ensures IsSplit(lines) <==> IsSplit(lines[1..]) && Separate(lines[0], JoinLines(lines[1..]))
  {
    var rest := lines[1..];
    assert forall i | 0 <= i < |rest| :: rest[i] == lines[i + 1] && rest[i + 1..] == lines[i + 2..];
    if IsSplit(rest) && Separate(lines[0], JoinLines(rest)) {
      forall i | 0 <= i < |lines|
        ensures SingleLine(lines[i]) && Separate(lines[i], JoinLines(lines[i + 1..]))
      {
        if i > 0 {
          assert Separate(rest[i - 1], JoinLines(rest[i..]));
        }
      }
    }
    if IsSplit(lines) {
      forall i | 0 <= i < |rest|
        ensures SingleLine(rest[i]) && Separate(rest[i], JoinLines(rest[i + 1..]))
      {
        assert Separate(lines[i + 1], JoinLines(lines[i + 2..]));
      }
    }
  }

  /** Writing single lines out and splitting again never gives more lines, gives
      the same list when they are split, and strictly fewer otherwise. */
  lemma {:induction false} Resplit(lines: seq<string>)
    requires forall line <- lines :: SingleLine(line)
    ensures |SplitLines(JoinLines(lines))| <= |lines|
    ensures IsSplit(lines) ==> SplitLines(JoinLines(lines)) == lines
    ensures !IsSplit(lines) ==> |SplitLines(JoinLines(lines))| < |lines|
  {
    if lines != [] {
      assert lines[0] in lines;
      Resplit(lines[1..]);
      IsSplitTail(lines);
      SplitPush(lines[0], JoinLines(lines[1..]));
    }
  }

  // --- neighbours ---------------------------------------------------------------------------------------

  /** Written out before `next`, the line would not stay alone: it is unterminated, or
      its lone carriage return meets a newline. */
  predicate Sticks(line: string, next: string) {
    !Terminated(line) || (line[|line| - 1] == '\r' && next != "" && next[0] == '\n')
  }

  /** No line sticks to the one after it. */
  predicate Apart(lines: seq<string>) {
    forall i | 0 < i < |lines| :: !Sticks(lines[i - 1], lines[i])
  }

  lemma SeparateIffApart(line: string, rest: seq<string>)
    requires rest == [] || rest[0] != ""
    ensures Separate(line, JoinLines(rest)) <==> rest == [] || !Sticks(line, rest[0])
  {
    if rest != [] {
      assert JoinLines(rest) == rest[0] + JoinLines(rest[1..]);
    }
  }

  /** Single lines are split exactly when no two neighbours stick. */
  lemma SplitIffApart(lines: seq<string>)
    requires forall line <- lines :: SingleLine(line)
    ensures IsSplit(lines) <==> Apart(lines)
  {
    assert forall i | 0 <= i < |lines| :: SingleLine(lines[i]) && lines[i] != "";
    hide SingleLine, Separate, Sticks, JoinLines;
    forall i | 0 <= i < |lines|
      ensures Separate(lines[i], JoinLines(lines[i + 1..])) <==> i + 1 == |lines| || !Sticks(lines[i], lines[i + 1])
    {
      SeparateIffApart(lines[i], lines[i + 1..]);
    }
  }

  /** Lists written one after the other stay apart when their ends do. */
  lemma ApartJoin(a: seq<string>, b: seq<string>)
    ensures Apart(a + b) <==> Apart(a) && Apart(b) && (a != [] && b != [] ==> !Sticks(a[|a| - 1], b[0]))
  {
    hide Sticks;
    var all := a + b;
    if Apart(all) {
      forall i | 0 < i < |a| ensures !Sticks(a[i - 1], a[i]) {
        assert !Sticks(all[i - 1], all[i]);
      }
      forall i | 0 < i < |b| ensures !Sticks(b[i - 1], b[i]) {
        assert !Sticks(all[|a| + i - 1], all[|a| + i]);
      }
      if a != [] && b != [] {
        assert !Sticks(all[|a| - 1], all[|a|]);
      }
    }
    if Apart(a) && Apart(b) && (a != [] && b != [] ==> !Sticks(a[|a| - 1], b[0])) {
      forall i | 0 < i < |all| ensures !Sticks(all[i - 1], all[i]) {
        if i < |a| {
          assert !Sticks(a[i - 1], a[i]);
        } else if i > |a| {
          assert !Sticks(b[i - |a| - 1], b[i - |a|]);
        }
      }
    }
  }

  // --- lines spelled out ------------------------------------------------------------------------------

  /** Line feed, vertical tab, form feed, carriage return, the three separators, next line,
      and the line and paragraph separators. */
  const BREAKS: set<int> := {10, 11, 12, 13, 28, 29, 30, 133, 8232, 8233}

  lemma BreakIs(c: char)
    ensures IsBreak(c) <==> c as int in BREAKS
  {
  }

  predicate Plain(body: string) {
    forall c <- body :: c as int !in BREAKS
  }

  /** Text without a break, then at most one: a single character or both of `\r\n`. */
  predicate LineOf(line: string, body: string, end: string) {
    && line == body + end && line != "" && Plain(body)
    && (|end| <= 1 || end == "\r\n") && (|end| == 1 ==> end[0] as int in BREAKS)
  }

  lemma {:induction false} LineReads(line: string, body: string, end: string)
    requires LineOf(line, body, end)
    ensures LineEnd(line) == |line|
  {
    BreakIs(line[0]);
    if body == "" {
      assert line == end;
    } else {
      assert line[0] == body[0] && body[0] in body;
      if |line| > 1 {
        assert line[1..] == body[1..] + end && forall c <- body[1..] :: c in body;
        LineReads(line[1..], body[1..], end);
      }
    }
  }

  lemma {:induction false} LineWas(line: string) returns (body: string, end: string)
    requires SingleLine(line)
    ensures LineOf(line, body, end)
  {
    BreakIs(line[0]);
    if IsBreak(line[0]) {
      body, end := "", line;
    } else if |line| == 1 {
      body, end := line, "";
    } else {
      body, end := LineWas(line[1..]);
      body := [line[0]] + body;
      assert line == body + end;
    }
  }

  /** A single line, spelled out. */
  lemma SingleIff(line: string)
    ensures SingleLine(line) <==> exists body, end :: LineOf(line, body, end)
  {
    hide LineOf;
    if SingleLine(line) {
      var body, end := LineWas(line);
    }
    if body, end :| LineOf(line, body, end) {
      LineReads(line, body, end);
      NotEmpty(line, body, end);
    }
  }

  lemma NotEmpty(line: string, body: string, end: string)
    requires LineOf(line, body, end)
    ensures line != ""
  {
  }
}
