/** `parse_patch` and `apply_patch` as the program runs them. */
module UnifiedDiffRun {
  import opened Results
  import opened UnifiedDiff

  lemma BodySnoc(body: seq<BodyLine>, b: BodyLine)
    ensures Old(body + [b]) == Old(body) + (if InOld(b.tag) then [b.text] else [])
    ensures New(body + [b]) == New(body) + (if InNew(b.tag) then [b.text] else [])
  {
    assert (body + [b])[..|body|] == body;
  }

  /** The inner loop of the parser. */
  method ParseBody(lines: seq<string>, start: nat, oldLen: nat, newLen: nat)
    returns (r: Verdict<seq<BodyLine>>, index: nat)
    requires start <= |lines|
    ensures start <= index <= |lines|
    ensures var want := ReadBody(lines[start..], oldLen, newLen);
            if want.Rejected? then r.Rejected? else r == Accepted(want.value.0) && lines[index..] == want.value.1
    ensures r.Accepted? ==> |Old(r.value)| == oldLen && |New(r.value)| == newLen
  {
    hide Old, New, ReadBody, TagOf, EndsLine, InOld, InNew;
    index := start;
    var body: seq<BodyLine> := [];
    var oldSeen, newSeen: nat := 0, 0;
    ghost var whole := ReadBody(lines[start..], oldLen, newLen);
    assert whole.Accepted? ==> [] + whole.value.0 == whole.value.0;
    EmptyCounts();
    while index < |lines| && (oldSeen < oldLen || newSeen < newLen)
      invariant start <= index <= |lines|
      invariant oldSeen == |Old(body)| && newSeen == |New(body)|
      invariant whole == Extended(body, ReadBody(lines[index..], oldLen - oldSeen, newLen - newSeen))
      decreases |lines| - index
    {
      var line := lines[index];
      assert lines[index..][0] == line && lines[index..][1..] == lines[index + 1..];
      BodyStep(body, lines[index..], oldLen - oldSeen, newLen - newSeen);
      if line == "" || TagOf(line[0]).None? || !EndsLine(line) {
        return Rejected, index;
      }
      var b := BodyLine(TagOf(line[0]).value, line[1..]);
      BodySnoc(body, b);
      oldSeen := oldSeen + (if InOld(b.tag) then 1 else 0);
      newSeen := newSeen + (if InNew(b.tag) then 1 else 0);
      body := body + [b];
      index := index + 1;
    }
    BodyEnd(body, lines[index..], oldLen - oldSeen, newLen - newSeen);
    if oldSeen != oldLen || newSeen != newLen {
      return Rejected, index;
    }
    return Accepted(body), index;
  }

  /** What is read once `body` has been read before the rest. */
  function Extended(body: seq<BodyLine>, rest: Verdict<(seq<BodyLine>, seq<string>)>): Verdict<(seq<BodyLine>, seq<string>)> {
    if rest.Rejected? then Rejected else Accepted((body + rest.value.0, rest.value.1))
  }

  lemma BodyStep(body: seq<BodyLine>, lines: seq<string>, o: int, n: int)
    requires lines != [] && (o > 0 || n > 0)
    ensures Extended(body, ReadBody(lines, o, n)) ==
            var r := ReadBodyLine(lines[0]);
            if r.Rejected? then Rejected
            else Extended(body + [r.value], ReadBody(lines[1..], o - (if InOld(r.value.tag) then 1 else 0), n - (if InNew(r.value.tag) then 1 else 0)))
  {
    hide ReadBodyLine;
    var r := ReadBodyLine(lines[0]);
    if r.Accepted? {
      var rest := ReadBody(lines[1..], o - (if InOld(r.value.tag) then 1 else 0), n - (if InNew(r.value.tag) then 1 else 0));
      if rest.Accepted? {
        assert body + ([r.value] + rest.value.0) == (body + [r.value]) + rest.value.0;
      }
    }
  }

  lemma BodyEnd(body: seq<BodyLine>, lines: seq<string>, o: int, n: int)
    requires lines == [] || (o <= 0 && n <= 0)
    ensures Extended(body, ReadBody(lines, o, n)) == if o == 0 == n then Accepted((body, lines)) else Rejected
  {
    assert body + [] == body;
  }

  /** Every hunk an accepted patch yields has the counts of its header. */
  method ParsePatch(lines: seq<string>) returns (r: Verdict<Patch>)
    ensures r == ReadPatch(lines)
    ensures r.Accepted? ==> forall h <- r.value.hunks :: Counted(h)
  {
    hide ReadHeader, ReadBody;
    var names := ReadFileHeaders(lines);
    if names.Rejected? {
      return Rejected;
    }
    var hunks: seq<Hunk> := [];
    var index: nat := 2;
    ghost var whole := ReadHunks(lines[2..]);
    assert whole.Accepted? ==> [] + whole.value == whole.value;
    while index < |lines|
      invariant 2 <= index <= |lines|
      invariant var rest := ReadHunks(lines[index..]);
                whole == if rest.Rejected? then Rejected else Accepted(hunks + rest.value)
      invariant forall h <- hunks :: Counted(h)
      decreases |lines| - index
    {
      var tail := lines[index..];
      assert tail[0] == lines[index] && tail[1..] == lines[index + 1..];
      var header := ReadHeader(StripNewlines(lines[index]));
      if header.Rejected? {
        return Rejected;
      }
      var (oldStart, oldLen, newLen) := header.value;
      var body, next := ParseBody(lines, index + 1, oldLen, newLen);
      if body.Rejected? {
        return Rejected;
      }
      var hunk := Hunk(oldStart, oldLen, newLen, body.value);
      ghost var rest := ReadHunks(lines[next..]);
      if rest.Accepted? {
        assert hunks + ([hunk] + rest.value) == (hunks + [hunk]) + rest.value;
      }
      hunks := hunks + [hunk];
      index := next;
    }
    assert lines[index..] == [];
    assert hunks + [] == hunks;
    return Accepted(Patch(names.value.0, names.value.1, hunks));
  }

  lemma {:induction false} BodyPrefix(body: seq<BodyLine>, k: nat)
    requires k <= |body|
    ensures Old(body[..k]) <= Old(body) && New(body[..k]) <= New(body)
    decreases |body|
  {
    if k < |body| {
      BodyPrefix(body[..|body| - 1], k);
      assert body[..|body| - 1][..k] == body[..k];
    } else {
      assert body[..k] == body;
    }
  }

  /** One hunk: copies up to its start, then walks its body against the source. */
  method ApplyHunk(source: seq<string>, h: Hunk, from_: nat, sofar: seq<string>)
    returns (r: Verdict<seq<string>>, position: nat)
    requires from_ <= |source|
    ensures position <= |source|
    ensures r.Accepted? <==> Placed(source, h, from_)
    ensures r.Accepted? ==> position == Start(h) + |Old(h.body)|
    ensures r.Accepted? ==> r.value == sofar + source[from_..Start(h)] + New(h.body)
  {
    hide Old, New, Placed, InOld, InNew;
    PlacedUnfold(source, h, from_);
    position := from_;
    var start := Start(h);
    if start < position || start > |source| {
      return Rejected, position;
    }
    var result := sofar + source[position..start];
    ghost var before := result;
    position := start;
    assert h.body[..0] == [];
    EmptyCounts();
    for k := 0 to |h.body|
      invariant start <= position <= |source|
      invariant position == start + |Old(h.body[..k])|
      invariant source[start..position] == Old(h.body[..k])
      invariant result == before + New(h.body[..k])
    {
      var b := h.body[k];
      assert h.body[..k + 1] == h.body[..k] + [b];
      BodySnoc(h.body[..k], b);
      BodyPrefix(h.body, k + 1);
      if InOld(b.tag) {
        PlacedLine(source, h, from_, k);
        if position >= |source| || source[position] != b.text {
          return Rejected, position;
        }
        assert source[start..position + 1] == source[start..position] + [b.text];
        position := position + 1;
      }
      if InNew(b.tag) {
        result := result + [b.text];
      }
    }
    assert h.body[..|h.body|] == h.body;
    return Accepted(result), position;
  }

  lemma PlacedUnfold(source: seq<string>, h: Hunk, from_: nat)
    ensures var start, size := Start(h), |Old(h.body)|;
            Placed(source, h, from_) <==>
              from_ <= start && start + size <= |source| && source[start..start + size] == Old(h.body)
  {
  }

  lemma EmptyCounts()
    ensures Old([]) == [] && New([]) == []
  {
  }

  lemma PlacedLine(source: seq<string>, h: Hunk, from_: int, k: nat)
    requires k < |h.body| && InOld(h.body[k].tag)
    ensures Placed(source, h, from_) ==>
              var at := Start(h) + |Old(h.body[..k])|; at < |source| && source[at] == h.body[k].text
  {
    assert h.body[..k + 1] == h.body[..k] + [h.body[k]];
    BodySnoc(h.body[..k], h.body[k]);
    BodyPrefix(h.body, k + 1);
    var n := |Old(h.body[..k])|;
    assert Old(h.body)[n] == h.body[k].text;
    if Placed(source, h, from_) {
      assert source[Start(h)..Start(h) + |Old(h.body)|][n] == source[Start(h) + n];
    }
  }

  /** Where the rest of a run stands after `i` hunks. */
  ghost predicate Ahead(source: seq<string>, hunks: seq<Hunk>, i: nat, position: nat, result: seq<string>)
    requires i <= |hunks|
  {
    && position <= |source|
    && (Fits(source, hunks, 0) <==> Fits(source, hunks[i..], position))
    && (Fits(source, hunks, 0) ==> Patched(source, hunks, 0) == result + Patched(source, hunks[i..], position))
  }

  lemma AheadNext(source: seq<string>, hunks: seq<Hunk>, i: nat, position: nat, result: seq<string>)
    requires i < |hunks| && Ahead(source, hunks, i, position, result) && Placed(source, hunks[i], position)
    ensures Ahead(source, hunks, i + 1, Start(hunks[i]) + |Old(hunks[i].body)|,
                  result + source[position..Start(hunks[i])] + New(hunks[i].body))
  {
    hide Placed, Old, New;
    var tail, h := hunks[i..], hunks[i];
    assert tail[0] == h && tail[1..] == hunks[i + 1..];
    PlacedInside(source, h, position);
    var next := Start(h) + |Old(h.body)|;
    if Fits(source, hunks, 0) {
      Append3(result, source[position..Start(h)], New(h.body), Patched(source, hunks[i + 1..], next));
    }
  }

  lemma PlacedInside(source: seq<string>, h: Hunk, position: nat)
    requires Placed(source, h, position)
    ensures position <= Start(h) <= Start(h) + |Old(h.body)| <= |source|
  {
  }

  lemma AheadStuck(source: seq<string>, hunks: seq<Hunk>, i: nat, position: nat, result: seq<string>)
    requires i < |hunks| && Ahead(source, hunks, i, position, result) && !Placed(source, hunks[i], position)
    ensures !Fits(source, hunks, 0)
  {
    hide Placed, Old, New;
    assert hunks[i..][0] == hunks[i];
  }

  method ApplyHunks(source: seq<string>, hunks: seq<Hunk>) returns (r: Verdict<seq<string>>)
    ensures r == Apply(source, hunks)
  {
    hide Placed, Old, New, Fits, Patched;
    var result: seq<string> := [];
    var position: nat := 0;
    AheadStart(source, hunks);
    for i := 0 to |hunks|
      invariant Ahead(source, hunks, i, position, result)
    {
      var step, next := ApplyHunk(source, hunks[i], position, result);
      if step.Rejected? {
        AheadStuck(source, hunks, i, position, result);
        return Rejected;
      }
      PlacedInside(source, hunks[i], position);
      AheadNext(source, hunks, i, position, result);
      result, position := step.value, next;
    }
    AheadEnd(source, hunks, position, result);
    return Accepted(result + source[position..]);
  }

  lemma AheadStart(source: seq<string>, hunks: seq<Hunk>)
    ensures Ahead(source, hunks, 0, 0, [])
  {
    assert hunks[0..] == hunks;
    if Fits(source, hunks, 0) {
      assert [] + Patched(source, hunks, 0) == Patched(source, hunks, 0);
    }
  }

  lemma AheadEnd(source: seq<string>, hunks: seq<Hunk>, position: nat, result: seq<string>)
    requires Ahead(source, hunks, |hunks|, position, result)
    ensures Apply(source, hunks) == Accepted(result + source[position..])
  {
    assert hunks[|hunks|..] == [];
  }

  lemma Append3(a: seq<string>, b: seq<string>, c: seq<string>, d: seq<string>)
    ensures a + (b + c + d) == (a + b + c) + d
  {
  }
}
