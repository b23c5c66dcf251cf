/** The strict unified-diff parser and the positional applier (`parse_patch` and
    `apply_patch` in scripts/phase4_scenarios.py). */
module UnifiedDiff {
  import opened Results
  import opened Decimals
  import opened TextLines

  datatype Tag = Context | Removed | Added

  datatype BodyLine = BodyLine(tag: Tag, text: string)

  /** The new start of a header is read and dropped. */
  datatype Hunk = Hunk(oldStart: nat, oldLen: nat, newLen: nat, body: seq<BodyLine>)

  function TagOf(c: char): Option<Tag> {
    if c == ' ' then Some(Context) else if c == '-' then Some(Removed) else if c == '+' then Some(Added) else None
  }

  function TagChar(tag: Tag): char {
    match tag case Context => ' ' case Removed => '-' case Added => '+'
  }

  predicate InOld(tag: Tag) {
    !tag.Added?
  }

  predicate InNew(tag: Tag) {
    !tag.Removed?
  }

  /** The texts of the lines that are part of the old file, and of the new one. */
  function Old(body: seq<BodyLine>): seq<string> {
    if body == [] then []
    else Old(body[..|body| - 1]) + (if InOld(body[|body| - 1].tag) then [body[|body| - 1].text] else [])
  }

  function New(body: seq<BodyLine>): seq<string> {
    if body == [] then []
    else New(body[..|body| - 1]) + (if InNew(body[|body| - 1].tag) then [body[|body| - 1].text] else [])
  }

  // --- the header of a hunk ------------------------------------------------------------

  predicate IsDigit(c: char) {
    '0' <= c <= '9'
  }

  function DigitAt(c: char): Digit
    requires IsDigit(c)
  {
    var d: int := c as int - '0' as int;
    d
  }

  function DigitValues(text: string): (ds: seq<Digit>)
    requires forall c <- text :: IsDigit(c)
    ensures |ds| == |text|
  {
    if text == "" then [] else [DigitAt(text[0])] + DigitValues(text[1..])
  }

  /** How many digits a text starts with. */
  function DigitRun(text: string): (n: nat)
    ensures n <= |text| && forall c <- text[..n] :: IsDigit(c)
    ensures n < |text| ==> !IsDigit(text[n])
  {
    if text == "" || !IsDigit(text[0]) then 0 else
      assert text[..1 + DigitRun(text[1..])] == [text[0]] + text[1..][..DigitRun(text[1..])];
      1 + DigitRun(text[1..])
  }

  /** `\d+` at the start of a text: its value and what follows. */
  function ReadNumber(text: string): Verdict<(nat, string)>
  {
    var n := DigitRun(text);
    if n == 0 then Rejected else Accepted((Value(DigitValues(text[..n])), text[n..]))
  }

  /** `(?:,(\d+))?`, where an absent length means 1. */
  function ReadLength(text: string): Verdict<(nat, string)>
  {
    if text != "" && text[0] == ',' then ReadNumber(text[1..]) else Accepted((1, text))
  }

  function Skip(prefix: string, text: string): Verdict<string>
  {
    if prefix <= text then Accepted(text[|prefix|..]) else Rejected
  }

  /** `@@ -START[,LEN] +START[,LEN] @@`, matched against the whole line. */
  function ReadHeader(text: string): Verdict<(nat, nat, nat)>
  {
    var t0 :- Skip("@@ -", text);
    var oldStart :- ReadNumber(t0);
    var oldLen :- ReadLength(oldStart.1);
    var t1 :- Skip(" +", oldLen.1);
    var newStart :- ReadNumber(t1);
    var newLen :- ReadLength(newStart.1);
    if newLen.1 == " @@" then Accepted((oldStart.0, oldLen.0, newLen.0)) else Rejected
  }

  function StripNewlines(text: string): string {
    if text != "" && text[|text| - 1] == '\n' then StripNewlines(text[..|text| - 1]) else text
  }

  function UntilTab(text: string): (r: string)
    ensures r <= text && (|r| < |text| ==> text[|r|] == '\t')
  {
    if text == "" || text[0] == '\t' then "" else [text[0]] + UntilTab(text[1..])
  }

  function AfterTab(text: string): string {
    var head := UntilTab(text);
    if |head| < |text| then text[|head| + 1..] else ""
  }

  // --- the parser ------------------------------------------------------------------------

  predicate EndsLine(line: string) {
    line != "" && line[|line| - 1] == '\n'
  }

  /** A line of a hunk: a tag, then text up to and including a newline. */
  function ReadBodyLine(line: string): Verdict<BodyLine>
  {
    if line == "" || TagOf(line[0]).None? || !EndsLine(line) then Rejected
    else Accepted(BodyLine(TagOf(line[0]).value, line[1..]))
  }

  function PrintBodyLine(b: BodyLine): string {
    [TagChar(b.tag)] + b.text
  }

  predicate IsHex(c: char) {
    '0' <= c <= '9' || 'a' <= c <= 'f'
  }

  /** The two file headers: the path, and the digest after `sha256:`. */
  function ReadFileHeaders(lines: seq<string>): Verdict<(string, string)>
  {
    if |lines| < 3 || !("--- " <= lines[0]) || !("+++ " <= lines[1]) then Rejected
    else
      var first := StripNewlines(lines[0][4..]);
      var path, base := UntilTab(first), AfterTab(first);
      if !("sha256:" <= base) || |base| != 7 + 64 || exists c <- base[7..] :: !IsHex(c) then Rejected
      else if StripNewlines(UntilTab(lines[1][4..])) != path then Rejected
      else Accepted((path, base[7..]))
  }

  /** The body of one hunk, read until both counts of its header are met. */
  function ReadBody(lines: seq<string>, oldLeft: int, newLeft: int): Verdict<(seq<BodyLine>, seq<string>)>
    decreases |lines|
  {
    if lines != [] && (oldLeft > 0 || newLeft > 0) then
      var b :- ReadBodyLine(lines[0]);
      var rest :- ReadBody(lines[1..], oldLeft - (if InOld(b.tag) then 1 else 0), newLeft - (if InNew(b.tag) then 1 else 0));
      Accepted(([b] + rest.0, rest.1))
    else if oldLeft == 0 == newLeft then Accepted(([], lines))
    else Rejected
  }

  lemma {:induction false} ReadBodyShrinks(lines: seq<string>, oldLeft: int, newLeft: int)
    ensures var r := ReadBody(lines, oldLeft, newLeft); r.Accepted? ==> |r.value.1| <= |lines|
    decreases |lines|
  {
    if lines != [] && (oldLeft > 0 || newLeft > 0) && ReadBodyLine(lines[0]).Accepted? {
      var b := ReadBodyLine(lines[0]).value;
      ReadBodyShrinks(lines[1..], oldLeft - (if InOld(b.tag) then 1 else 0), newLeft - (if InNew(b.tag) then 1 else 0));
    }
  }

  function ReadHunks(lines: seq<string>): Verdict<seq<Hunk>>
    decreases |lines|
  {
    if lines == [] then Accepted([])
    else
      var header :- ReadHeader(StripNewlines(lines[0]));
      var body :- ReadBody(lines[1..], header.1, header.2);
      ReadBodyShrinks(lines[1..], header.1, header.2);
      var rest :- ReadHunks(body.1);
      Accepted([Hunk(header.0, header.1, header.2, body.0)] + rest)
  }

  datatype Patch = Patch(path: string, base: string, hunks: seq<Hunk>)

  function ReadPatch(lines: seq<string>): Verdict<Patch>
  {
    var names :- ReadFileHeaders(lines);
    var hunks :- ReadHunks(lines[2..]);
    Accepted(Patch(names.0, names.1, hunks))
  }

  /** The counts a header promises are the counts of its body. */
  predicate Counted(h: Hunk) {
    |Old(h.body)| == h.oldLen && |New(h.body)| == h.newLen
  }

  // --- the applier ---------------------------------------------------------------------------

  /** Where a hunk starts, as an index; a hunk that removes nothing names the line before it. */
  function Start(h: Hunk): int {
    if h.oldLen > 0 then h.oldStart - 1 else h.oldStart
  }

  predicate Placed(source: seq<string>, h: Hunk, position: int) {
    && position <= Start(h) <= |source|
    && 0 <= Start(h) && Start(h) + |Old(h.body)| <= |source|
    && source[Start(h)..Start(h) + |Old(h.body)|] == Old(h.body)
  }

  /** Every hunk in order, without overlap, on exactly the lines it names. */
  predicate Fits(source: seq<string>, hunks: seq<Hunk>, position: nat)
    requires position <= |source|
  {
    hunks == [] || (Placed(source, hunks[0], position) && Fits(source, hunks[1..], Start(hunks[0]) + |Old(hunks[0].body)|))
  }

  function Patched(source: seq<string>, hunks: seq<Hunk>, position: nat): seq<string>
    requires position <= |source| && Fits(source, hunks, position)
  {
    if hunks == [] then source[position..]
    else
      var h := hunks[0];
      source[position..Start(h)] + New(h.body) + Patched(source, hunks[1..], Start(h) + |Old(h.body)|)
  }

  function Apply(source: seq<string>, hunks: seq<Hunk>): Verdict<seq<string>>
  {
    if Fits(source, hunks, 0) then Accepted(Patched(source, hunks, 0)) else Rejected
  }

  /** `apply_patch` on texts, with the patch already parsed. */
  function ApplyText(original: string, hunks: seq<Hunk>): Verdict<string>
  {
    var result :- Apply(SplitLines(original), hunks);
    Accepted(JoinLines(result))
  }
}
