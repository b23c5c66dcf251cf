/** The slice-aliasing check of one backing group (`GraphValidator.accept` in
    scripts/s07_binder.py). A span is a visible range: where it starts in the
    shared array, and the values it shows. */
module BackingGroups {

  datatype Span<T> = Span(start: nat, values: seq<T>)
  {
    function End(): nat {
      start + |values|
    }
  }

  ghost predicate Visible<T>(spans: seq<Span<T>>) {
    spans != [] && forall span <- spans :: span.values != []
  }

  /** Every span shows its own stretch of `backing`. */
  ghost predicate Windows<T(!new)>(backing: seq<T>, spans: seq<Span<T>>) {
    forall span <- spans :: span.End() <= |backing| && backing[span.start..span.End()] == span.values
  }

  ghost predicate Origin<T>(spans: seq<Span<T>>) {
    exists span <- spans :: span.start == 0
  }

  /** No boundary inside `backing` separates the spans into two groups. */
  ghost predicate Connected<T(!new)>(length: nat, spans: seq<Span<T>>) {
    forall k | 0 < k < length :: Crossed(k, spans)
  }

  ghost predicate Crossed<T(!new)>(k: nat, spans: seq<Span<T>>) {
    exists span <- spans :: span.start < k < span.End()
  }

  ghost predicate Backs<T(!new)>(backing: seq<T>, spans: seq<Span<T>>) {
    Windows(backing, spans) && Origin(spans) && Connected(|backing|, spans)
  }

  /** The spans are ranges of one array that starts at 0 and cannot be split. */
  ghost predicate Shared<T(!new)>(spans: seq<Span<T>>) {
    exists backing :: Backs(backing, spans)
  }

  // --- `spans.sort(key=lambda item: item[0])` -------------------------------

  function Insert<T>(span: Span<T>, sorted: seq<Span<T>>): seq<Span<T>>
  {
    if sorted == [] || span.start < sorted[0].start then [span] + sorted
    else [sorted[0]] + Insert(span, sorted[1..])
  }

  /** The stable sort by start: equal starts keep their order. */
  function SortByStart<T>(spans: seq<Span<T>>): seq<Span<T>>
  {
    if spans == [] then [] else Insert(spans[|spans| - 1], SortByStart(spans[..|spans| - 1]))
  }

  ghost predicate Ascending<T>(spans: seq<Span<T>>) {
    forall i, j | 0 <= i < j < |spans| :: spans[i].start <= spans[j].start
  }

  lemma {:induction false} InsertAscends<T>(span: Span<T>, sorted: seq<Span<T>>)
    requires Ascending(sorted)
    ensures var r := Insert(span, sorted); Ascending(r) && multiset(r) == multiset(sorted) + multiset{span}
  {
    if sorted == [] || span.start < sorted[0].start {
    } else {
      InsertAscends(span, sorted[1..]);
      var rest := Insert(span, sorted[1..]);
      assert sorted == [sorted[0]] + sorted[1..];
      hide Insert;
      InsertedFrom(span, sorted[1..], rest);
      AscendsFrom(sorted[0], rest);
    }
  }

  lemma AscendsFrom<T>(first: Span<T>, rest: seq<Span<T>>)
    requires Ascending(rest) && forall k | 0 <= k < |rest| :: first.start <= rest[k].start
    ensures Ascending([first] + rest)
  {
  }

  lemma InsertedFrom<T>(span: Span<T>, sorted: seq<Span<T>>, rest: seq<Span<T>>)
    requires multiset(rest) == multiset(sorted) + multiset{span}
    ensures forall k | 0 <= k < |rest| :: rest[k] == span || rest[k] in sorted
  {
    forall k | 0 <= k < |rest|
      ensures rest[k] == span || rest[k] in sorted
    {
      assert rest[k] in multiset(rest);
    }
  }

  lemma {:induction false} SortAscends<T>(spans: seq<Span<T>>)
    ensures Ascending(SortByStart(spans)) && multiset(SortByStart(spans)) == multiset(spans)
  {
    if spans != [] {
      SortAscends(spans[..|spans| - 1]);
      InsertAscends(spans[|spans| - 1], SortByStart(spans[..|spans| - 1]));
      assert spans == spans[..|spans| - 1] + [spans[|spans| - 1]];
    }
  }

  // --- order does not matter ------------------------------------------------

  lemma SameMembers<T(!new)>(spans: seq<Span<T>>, others: seq<Span<T>>)
    requires multiset(spans) == multiset(others)
    ensures forall span :: span in spans <==> span in others
  {
    forall span ensures span in spans <==> span in others {
      assert span in spans <==> span in multiset(spans);
      assert span in others <==> span in multiset(others);
    }
  }

  /** The verdict is about the set of records: reordering them changes nothing. */
  lemma SharedAnyOrder<T(!new)>(spans: seq<Span<T>>, others: seq<Span<T>>)
    requires multiset(spans) == multiset(others)
    ensures Shared(spans) <==> Shared(others)
    ensures forall backing :: Backs(backing, spans) <==> Backs(backing, others)
  {
    SameMembers(spans, others);
    forall backing: seq<T> ensures Backs(backing, spans) <==> Backs(backing, others) {
      assert forall k :: Crossed(k, spans) <==> Crossed(k, others);
    }
  }

  /** Only one array can back a group: every element of it is visible somewhere. */
  lemma BackingUnique<T(!new)>(a: seq<T>, b: seq<T>, spans: seq<Span<T>>)
    requires Visible(spans) && Backs(a, spans) && Backs(b, spans)
    ensures a == b
  {
    BackingPrefix(a, b, spans);
    BackingPrefix(b, a, spans);
  }

  lemma Shown<T(!new)>(i: nat, backing: seq<T>, spans: seq<Span<T>>) returns (span: Span<T>)
    requires Visible(spans) && Backs(backing, spans) && i < |backing|
    ensures span in spans && span.start <= i < span.End()
  {
    if i == 0 {
      span :| span in spans && span.start == 0;
    } else {
      assert Crossed(i, spans);
      span :| span in spans && span.start < i < span.End();
    }
  }

  lemma BackingPrefix<T(!new)>(a: seq<T>, b: seq<T>, spans: seq<Span<T>>)
    requires Visible(spans) && Backs(a, spans) && Backs(b, spans)
    ensures a <= b
  {
    if a != [] {
      var last := Shown(|a| - 1, a, spans);
      assert |a| <= last.End() <= |b|;
    }
    forall i | 0 <= i < |a|
      ensures a[i] == b[i]
    {
      var span := Shown(i, a, spans);
      assert a[i] == a[span.start..span.End()][i - span.start];
      assert b[i] == b[span.start..span.End()][i - span.start];
    }
    assert a == b[..|a|];
  }

  // --- the check itself -----------------------------------------------------

  /** How much of a span falls on contents that are already known. */
  function Overlap<T>(contents: seq<T>, span: Span<T>): (n: nat)
    requires span.start <= |contents|
    ensures n <= |span.values| && span.start + n <= |contents|
    ensures n == |span.values| || span.start + n == |contents|
  {
    if |span.values| < |contents| - span.start then |span.values| else |contents| - span.start
  }

  /** The span shows the known contents where it overlaps them. */
  predicate Agrees<T(==)>(contents: seq<T>, span: Span<T>)
    requires span.start <= |contents|
  {
    span.values[..Overlap(contents, span)] == contents[span.start..span.start + Overlap(contents, span)]
  }

  function Extended<T>(contents: seq<T>, span: Span<T>): seq<T>
    requires span.start <= |contents|
  {
    contents + span.values[Overlap(contents, span)..]
  }

  /** Every array the spans could be windows of starts with `contents`. */
  ghost predicate Forced<T(!new)>(contents: seq<T>, spans: seq<Span<T>>) {
    forall backing | Windows(backing, spans) :: contents <= backing
  }

  lemma ExtendedShows<T>(contents: seq<T>, span: Span<T>)
    requires span.start <= |contents| && Agrees(contents, span)
    ensures span.End() <= |Extended(contents, span)|
    ensures Extended(contents, span)[span.start..span.End()] == span.values
  {
    var n := Overlap(contents, span);
    var longer := Extended(contents, span);
    assert longer[span.start..span.start + n] == span.values[..n];
    if n < |span.values| {
      assert longer[span.start + n..span.End()] == span.values[n..];
      assert longer[span.start..span.End()] == longer[span.start..span.start + n] + longer[span.start + n..span.End()];
      assert span.values == span.values[..n] + span.values[n..];
    }
  }

  lemma ExtendWindows<T(!new)>(contents: seq<T>, span: Span<T>, spans: seq<Span<T>>)
    requires Windows(contents, spans)
    requires span.start <= |contents| && Agrees(contents, span)
    ensures Windows(Extended(contents, span), spans + [span])
  {
    ExtendedShows(contents, span);
    forall s <- spans + [span]
      ensures s.End() <= |Extended(contents, span)| && Extended(contents, span)[s.start..s.End()] == s.values
    {
      if s in spans {
        assert Extended(contents, span)[s.start..s.End()] == contents[s.start..s.End()];
      }
    }
  }

  lemma ExtendConnects<T(!new)>(contents: seq<T>, span: Span<T>, spans: seq<Span<T>>)
    requires Connected(|contents|, spans)
    requires span.start < |contents| || |contents| == 0 == span.start
    ensures Connected(|Extended(contents, span)|, spans + [span])
  {
    forall k | 0 < k < |Extended(contents, span)|
      ensures Crossed(k, spans + [span])
    {
      if k < |contents| {
        assert Crossed(k, spans);
        var s :| s in spans && s.start < k < s.End();
        assert s in spans + [span];
      } else {
        assert span in spans + [span];
      }
    }
  }

  lemma ExtendForced<T(!new)>(contents: seq<T>, span: Span<T>, spans: seq<Span<T>>)
    requires Forced(contents, spans) && span in spans
    requires span.start <= |contents|
    ensures Forced(Extended(contents, span), spans)
  {
    var n := Overlap(contents, span);
    forall backing | Windows(backing, spans)
      ensures Extended(contents, span) <= backing
    {
      assert contents <= backing;
      assert backing[span.start..span.End()] == span.values;
      if n < |span.values| {
        assert span.values[n..] == backing[span.start..span.End()][n..] == backing[|contents|..span.End()];
        assert backing[..span.End()] == backing[..|contents|] + backing[|contents|..span.End()];
      }
    }
  }

  /** A span that starts past the known contents leaves a boundary nobody crosses. */
  lemma GapRefutes<T(!new)>(contents: seq<T>, i: nat, spans: seq<Span<T>>)
    requires i < |spans| && Ascending(spans) && Visible(spans)
    requires Windows(contents, spans[..i])
    requires contents != [] && spans[i].start >= |contents|
    ensures !Shared(spans)
  {
    var k := |contents|;
    forall s <- spans
      ensures !(s.start < k < s.End())
    {
      var j :| 0 <= j < |spans| && spans[j] == s;
      if j < i {
        assert s in spans[..i];
      }
    }
    assert !Crossed(k, spans);
    assert spans[i] in spans && spans[i].values != [];
    forall backing | Windows(backing, spans)
      ensures !Connected(|backing|, spans)
    {
      assert k < spans[i].End() <= |backing|;
    }
  }

  lemma SharedAgrees<T(!new)>(contents: seq<T>, span: Span<T>, spans: seq<Span<T>>)
    requires Forced(contents, spans) && span in spans
    requires span.start <= |contents|
    ensures Shared(spans) ==> Agrees(contents, span)
  {
    forall backing | Windows(backing, spans)
      ensures Agrees(contents, span)
    {
      var n := Overlap(contents, span);
      assert contents <= backing;
      assert backing[span.start..span.End()] == span.values;
      assert span.values[..n] == backing[span.start..span.start + n] == contents[span.start..span.start + n];
    }
  }

  lemma SortedView<T(!new)>(spans: seq<Span<T>>)
    requires Visible(spans)
    ensures var sorted := SortByStart(spans);
            Visible(sorted) && Ascending(sorted) && (Shared(sorted) <==> Shared(spans))
  {
    var sorted := SortByStart(spans);
    SortAscends(spans);
    SameMembers(spans, sorted);
    SharedAnyOrder(spans, sorted);
    assert |sorted| == |multiset(sorted)| == |multiset(spans)| == |spans|;
  }

  lemma NoOrigin<T(!new)>(sorted: seq<Span<T>>)
    requires Visible(sorted) && Ascending(sorted) && sorted[0].start != 0
    ensures !Shared(sorted)
  {
    forall span <- sorted ensures span.start != 0 {
      var j :| 0 <= j < |sorted| && sorted[j] == span;
    }
  }

  /** The state of the loop after the first `i` spans. */
  ghost predicate Laid<T(!new)>(contents: seq<T>, i: nat, sorted: seq<Span<T>>)
    requires i <= |sorted|
  {
    && Windows(contents, sorted[..i])
    && Connected(|contents|, sorted[..i])
    && (contents == [] <==> i == 0)
    && Forced(contents, sorted)
  }

  lemma LayNext<T(!new)>(contents: seq<T>, i: nat, sorted: seq<Span<T>>)
    requires i < |sorted| && Visible(sorted) && Laid(contents, i, sorted)
    requires sorted[i].start < |contents| || |contents| == 0 == sorted[i].start
    requires Agrees(contents, sorted[i])
    ensures Laid(Extended(contents, sorted[i]), i + 1, sorted)
  {
    var span := sorted[i];
    assert span in sorted && span.values != [];
    assert sorted[..i + 1] == sorted[..i] + [span];
    ExtendWindows(contents, span, sorted[..i]);
    ExtendConnects(contents, span, sorted[..i]);
    ExtendForced(contents, span, sorted);
  }

  lemma LaidAll<T(!new)>(contents: seq<T>, sorted: seq<Span<T>>)
    requires Visible(sorted) && sorted[0].start == 0 && Laid(contents, |sorted|, sorted)
    ensures Shared(sorted)
  {
    assert sorted[..|sorted|] == sorted;
    assert sorted[0] in sorted;
    assert Backs(contents, sorted);
  }

  /** The loop of the `counts` record over one group: it accepts exactly the
      groups whose spans are ranges of one array, whatever order they came in. */
  method CheckGroup<T(==, !new)>(spans: seq<Span<T>>) returns (ok: bool)
    requires Visible(spans)
    ensures ok <==> Shared(spans)
  {
    var sorted := SortByStart(spans);
    SortedView(spans);
    if sorted[0].start != 0 {
      NoOrigin(sorted);
      return false;
    }
    var contents: seq<T> := [];
    assert sorted[..0] == [];
    for i := 0 to |sorted|
      invariant Laid(contents, i, sorted)
    {
      var span := sorted[i];
      if contents != [] && span.start >= |contents| {
        GapRefutes(contents, i, sorted);
        return false;
      }
      SharedAgrees(contents, span, sorted);
      if !Agrees(contents, span) {
        return false;
      }
      LayNext(contents, i, sorted);
      contents := Extended(contents, span);
    }
    LaidAll(contents, sorted);
    return true;
  }
}
