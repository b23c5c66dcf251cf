/** What a run of `GraphValidator` (scripts/s07_binder.py) accepts, said of the records alone:
    their order, numbers, fields and shared arrays. */
module BinderWellFormed {
  import opened Results
  import opened BackingGroups
  import opened BinderGraph
  import opened BinderGraphProperties
  import opened BinderFields

  // --- shared arrays -------------------------------------------------------------------

  predicate Ranged(r: Record) {
    r.Nodes? || r.Texts? || r.Declarations?
  }

  /** How many elements of its array a record shows; a declaration list shows its capacity. */
  function Length(r: Record): nat
    requires Ranged(r)
  {
    match r
    case Nodes(_, values, _, _) => |values|
    case Texts(_, texts, _, _) => |texts|
    case Declarations(_, _, _, capacityValues, _, _) => |capacityValues|
  }

  predicate InGroup(r: Record, g: int) {
    Ranged(r) && Length(r) > 0 && r.group == g
  }

  /** The record's elements are those of the array from its start on. */
  predicate Shows(r: Record, backing: seq<Cell>)
    requires Ranged(r)
  {
    && 0 <= r.start && r.start + Length(r) <= |backing|
    && match r
       case Nodes(_, values, _, start) => forall k | 0 <= k < |values| :: backing[start + k] == Link(values[k])
       case Texts(_, texts, _, start) => forall k | 0 <= k < |texts| :: backing[start + k] == Text(texts[k])
       case Declarations(_, _, _, capacityValues, _, start) =>
         forall k | 0 <= k < |capacityValues| :: backing[start + k] == Link(capacityValues[k])
  }

  ghost predicate Crosses(r: Record, g: int, k: int) {
    InGroup(r, g) && r.start < k < r.start + Length(r)
  }

  ghost predicate Joined(records: seq<Record>, g: int, k: int) {
    exists r <- records :: Crosses(r, g, k)
  }

  ghost predicate Starts(r: Record, g: int) {
    InGroup(r, g) && r.start == 0
  }

  /** One array behind a group: every record shows its part of it, some record its
      beginning, and no place inside it separates the records. */
  ghost predicate Behind(backing: seq<Cell>, g: int, records: seq<Record>) {
    && (forall r <- records | InGroup(r, g) :: Shows(r, backing))
    && (exists r <- records :: Starts(r, g))
    && forall k | 0 < k < |backing| :: Joined(records, g, k)
  }

  ghost predicate Used(records: seq<Record>, g: int) {
    exists r <- records :: InGroup(r, g)
  }

  ghost predicate OneArray(records: seq<Record>, g: int) {
    exists backing :: Behind(backing, g, records)
  }

  /** An empty range has no group; any other is in a used group or opens the next number. */
  ghost predicate GroupFits(r: Record, earlier: seq<Record>) {
    Ranged(r) ==>
      && 0 <= r.group <= 0x7FFF_FFFF_FFFF_FFFF && 0 <= r.start <= 0x7FFF_FFFF_FFFF_FFFF
      && if Length(r) == 0 then r.group == 0 && r.start == 0
         else r.group == 1 || (r.group > 1 && Used(earlier, r.group - 1))
  }

  // --- the whole graph --------------------------------------------------------------------

  ghost predicate IdsFit(r: Record, earlier: seq<Record>) {
    HasKind(r) && forall d | IsA(r, d) :: r.id == Number(earlier, d) + 1
  }

  ghost predicate Ends(records: seq<Record>) {
    |records| > 1 && records[0].Source? && records[|records| - 1].Counts?
  }

  ghost predicate AllIds(records: seq<Record>) {
    forall i | 0 < i < |records| - 1 :: IdsFit(records[i], records[..i])
  }

  ghost predicate AllGroups(records: seq<Record>) {
    forall i | 0 <= i < |records| :: GroupFits(records[i], records[..i])
  }

  ghost predicate AllFields(records: seq<Record>, schema: Schema) {
    forall i | 0 <= i < |records| - 1 :: FieldsOk(records[i], records, schema)
  }

  ghost predicate Counted(records: seq<Record>, counts: map<Domain, int>) {
    forall d: Domain :: d in counts && counts[d] == Number(records, d)
  }

  ghost predicate AllArrays(records: seq<Record>) {
    forall g | Used(records, g) :: OneArray(records, g)
  }

  /** The source first, then records numbered 1, 2, ... per kind with every field in
      order, then their true numbers; and one array behind every group. */
  ghost predicate WellFormed(records: seq<Record>, schema: Schema) {
    && Ends(records) && AllIds(records) && AllGroups(records) && AllFields(records, schema)
    && Counted(records, records[|records| - 1].counts) && AllArrays(records)
  }

  // --- numbers ------------------------------------------------------------------------------

  lemma KindIsA(r: Record, d: Domain)
    ensures HasKind(r) <==> r.Numbered()
    ensures r.Numbered() ==> (IsA(r, d) <==> r.Kind() == d)
    ensures IsA(r, d) ==> r.Numbered()
  {
  }

  lemma NumberNext(earlier: seq<Record>, r: Record, d: Domain)
    ensures Number(earlier + [r], d) == Number(earlier, d) + if IsA(r, d) then 1 else 0
  {
    hide IsA;
    var before, all := Places(earlier, d), Places(earlier + [r], d);
    if IsA(r, d) {
      assert all == before + {|earlier|};
    } else {
      assert all == before;
    }
  }

  lemma {:induction false} NumberIsCount(records: seq<Record>, d: Domain)
    ensures Number(records, d) == CountOf(d, records)
  {
    hide Number, IsA;
    if records == [] {
      NoneNumbered(d);
    } else {
      var n := |records| - 1;
      assert records == records[..n] + [records[n]];
      NumberIsCount(records[..n], d);
      NumberNext(records[..n], records[n], d);
      KindIsA(records[n], d);
    }
  }

  lemma NoneNumbered(d: Domain)
    ensures Number([], d) == 0
  {
    assert Places([], d) == {};
  }

  lemma PresentIsEmitted(records: seq<Record>, d: Domain, id: int)
    ensures Present(records, d, id) <==> Emitted(records, d, id)
  {
    forall r <- records
      ensures IsA(r, d) && r.id == id <==> Names(r, d, id)
    {
      KindIsA(r, d);
    }
  }

  // --- groups ---------------------------------------------------------------------------------

  lemma CellsAre(r: Record)
    ensures Ranged(r) <==> r.Backed()
    ensures Ranged(r) ==> |r.Cells()| == Length(r)
    ensures Ranged(r) && 0 <= r.start ==>
              forall backing :: Shows(r, backing) <==>
                r.start + |r.Cells()| <= |backing| && backing[r.start..r.start + |r.Cells()|] == r.Cells()
  {
    if Ranged(r) && 0 <= r.start {
      forall backing
        ensures Shows(r, backing) <==>
                r.start + |r.Cells()| <= |backing| && backing[r.start..r.start + |r.Cells()|] == r.Cells()
      {
        ShowsCells(r, backing);
      }
    }
  }

  lemma ShowsCells(r: Record, backing: seq<Cell>)
    requires Ranged(r) && 0 <= r.start
    ensures |r.Cells()| == Length(r)
    ensures Shows(r, backing) <==>
              r.start + |r.Cells()| <= |backing| && backing[r.start..r.start + |r.Cells()|] == r.Cells()
  {
    var cells := r.Cells();
    if r.start + |cells| <= |backing| {
      var part := backing[r.start..r.start + |cells|];
      assert forall k | 0 <= k < |cells| :: part[k] == backing[r.start + k];
      if Shows(r, backing) {
        assert forall k | 0 <= k < |cells| :: part[k] == cells[k];
      }
    }
  }

  /** With the groups in order so far, the used ones are those up to the highest. */
  lemma {:induction false} UsedUpTo(records: seq<Record>, n: nat)
    requires n <= |records| && forall i | 0 <= i < n :: GroupFits(records[i], records[..i])
    ensures forall g :: Used(records[..n], g) <==> 1 <= g <= Groups(records[..n])
  {
    if n > 0 {
      hide GroupFits, InGroup;
      var earlier, r := records[..n - 1], records[n - 1];
      UsedUpTo(records, n - 1);
      assert records[..n] == earlier + [r];
      UsedNext(earlier, r);
    } else {
      assert records[..0] == [];
    }
  }

  lemma UsedNext(earlier: seq<Record>, r: Record)
    requires GroupFits(r, earlier) && forall g :: Used(earlier, g) <==> 1 <= g <= Groups(earlier)
    ensures forall g :: Used(earlier + [r], g) <==> 1 <= g <= Groups(earlier + [r])
  {
    Pushed(earlier, r);
    hide Edges, LocalOk, Groups, SpansOf, CountOf, AllEdges;
    CellsAre(r);
    forall g
      ensures Used(earlier + [r], g) <==> Used(earlier, g) || InGroup(r, g)
    {
      assert r in earlier + [r];
      if Used(earlier, g) {
        var x :| x in earlier && InGroup(x, g);
        assert x in earlier + [r];
      }
    }
  }

  lemma GroupFitsIff(r: Record, earlier: seq<Record>)
    requires forall g :: Used(earlier, g) <==> 1 <= g <= Groups(earlier)
    ensures GroupFits(r, earlier) <==>
            (r.Backed() ==>
               && 0 <= r.group <= MAX_INT64 && 0 <= r.start <= MAX_INT64
               && if r.Cells() == [] then r.group == 0 == r.start else 1 <= r.group <= Groups(earlier) + 1)
  {
    hide Groups, Used;
    CellsAre(r);
  }

  ghost predicate SpanOf(r: Record, g: int, span: Span<Cell>) {
    r.Backed() && r.Cells() != [] && r.group == g && r.start >= 0 && span == Span(r.start, r.Cells())
  }

  lemma {:induction false} SpansHold(g: int, records: seq<Record>, span: Span<Cell>)
    ensures span in SpansOf(g, records) <==> exists r <- records :: SpanOf(r, g, span)
  {
    if records != [] {
      var n := |records| - 1;
      var earlier, r := records[..n], records[n];
      assert records == earlier + [r];
      SpansHold(g, earlier, span);
      Pushed(earlier, r);
      hide SpansOf, SpanOf;
      LastSpan(r, g, span);
      if x :| x in earlier && SpanOf(x, g, span) {
        assert x in records;
      }
    }
  }

  lemma LastSpan(r: Record, g: int, span: Span<Cell>)
    ensures SpanOf(r, g, span) <==>
            span in if r.Backed() && r.Cells() != [] && r.group == g && r.start >= 0 then [Span(r.start, r.Cells())] else []
  {
  }

  /** A record of a group is one of its spans. */
  lemma SpanIff(r: Record, g: int)
    requires Ranged(r) ==> 0 <= r.start
    ensures InGroup(r, g) ==> |r.Cells()| == Length(r) && SpanOf(r, g, Span(r.start, r.Cells()))
    ensures forall span | SpanOf(r, g, span) :: InGroup(r, g) && span == Span(r.start, r.Cells())
  {
    CellsAre(r);
  }

  lemma SpansAre(g: int, records: seq<Record>)
    requires forall r <- records :: Ranged(r) ==> 0 <= r.start
    ensures Spanned(g, records, SpansOf(g, records))
  {
    var spans := SpansOf(g, records);
    hide SpansOf, SpanOf, Length;
    forall r <- records | InGroup(r, g)
      ensures |r.Cells()| == Length(r) && Span(r.start, r.Cells()) in spans
    {
      SpanIff(r, g);
      SpansHold(g, records, Span(r.start, r.Cells()));
    }
    forall span <- spans
      ensures exists r <- records :: InGroup(r, g) && 0 <= r.start && span == Span(r.start, r.Cells())
    {
      SpansHold(g, records, span);
      var r :| r in records && SpanOf(r, g, span);
      SpanIff(r, g);
      SpanRanged(r, g, span);
    }
  }

  lemma SpanRanged(r: Record, g: int, span: Span<Cell>)
    requires SpanOf(r, g, span)
    ensures Ranged(r) && 0 <= r.start
  {
  }

  lemma BehindIffBacks(backing: seq<Cell>, g: int, records: seq<Record>)
    requires forall r <- records :: Ranged(r) ==> 0 <= r.start
    ensures Behind(backing, g, records) <==> Backs(backing, SpansOf(g, records))
  {
    var spans := SpansOf(g, records);
    SpansAre(g, records);
    WindowsIff(backing, g, records, spans);
    OriginIff(g, records, spans);
    forall k | 0 < k < |backing|
      ensures Joined(records, g, k) <==> Crossed(k, spans)
    {
      CrossedIff(k, g, records, spans);
    }
    hide SpansOf, Shows, InGroup, Spanned, Windows, Origin, Crossed, Joined, Starts;
  }

  /** The spans are the ranges of the group's records. */
  ghost predicate Spanned(g: int, records: seq<Record>, spans: seq<Span<Cell>>) {
    && (forall r <- records :: InGroup(r, g) ==>
          0 <= r.start && |r.Cells()| == Length(r) && Span(r.start, r.Cells()) in spans)
    && forall span <- spans :: exists r <- records :: InGroup(r, g) && 0 <= r.start && span == Span(r.start, r.Cells())
  }

  lemma WindowsIff(backing: seq<Cell>, g: int, records: seq<Record>, spans: seq<Span<Cell>>)
    requires Spanned(g, records, spans)
    ensures (forall r <- records | InGroup(r, g) :: Shows(r, backing)) <==> Windows(backing, spans)
  {
    forall r <- records | InGroup(r, g)
      ensures Shows(r, backing) <==>
              r.start + |r.Cells()| <= |backing| && backing[r.start..r.start + |r.Cells()|] == r.Cells()
    {
      ShowsCells(r, backing);
    }
    hide Shows, Length;
    if Windows(backing, spans) {
      forall r <- records | InGroup(r, g) ensures Shows(r, backing) {
        assert Span(r.start, r.Cells()) in spans;
      }
    }
  }

  lemma OriginIff(g: int, records: seq<Record>, spans: seq<Span<Cell>>)
    requires Spanned(g, records, spans)
    ensures (exists r <- records :: Starts(r, g)) <==> Origin(spans)
  {
    hide Length;
    if r :| r in records && Starts(r, g) {
      assert Span(r.start, r.Cells()) in spans;
    }
    if span :| span in spans && span.start == 0 {
      var r :| r in records && InGroup(r, g) && 0 <= r.start && span == Span(r.start, r.Cells());
      assert Starts(r, g);
    }
  }

  lemma CrossedIff(k: nat, g: int, records: seq<Record>, spans: seq<Span<Cell>>)
    requires Spanned(g, records, spans)
    ensures Joined(records, g, k) <==> Crossed(k, spans)
  {
    hide Length;
    if r :| r in records && Crosses(r, g, k) {
      assert Span(r.start, r.Cells()) in spans && Span(r.start, r.Cells()).End() == r.start + Length(r);
    }
    if span :| span in spans && span.start < k < span.End() {
      var r :| r in records && InGroup(r, g) && 0 <= r.start && span == Span(r.start, r.Cells());
      assert Crosses(r, g, k);
    }
  }

  // --- both descriptions agree -----------------------------------------------------------------

  ghost predicate PlacedGroup(r: Record, earlier: seq<Record>) {
    r.Backed() ==>
      && 0 <= r.group <= MAX_INT64 && 0 <= r.start <= MAX_INT64
      && if r.Cells() == [] then r.group == 0 == r.start else 1 <= r.group <= Groups(earlier) + 1
  }

  ghost predicate AllPlacedGroups(records: seq<Record>, n: nat)
    requires n <= |records|
  {
    forall i | 0 <= i < n :: PlacedGroup(records[i], records[..i])
  }

  /** Numbering by highest group and by used groups is one thing. */
  lemma {:induction false} GroupsIff(records: seq<Record>, n: nat)
    requires n <= |records|
    ensures AllPlacedGroups(records, n) <==> forall i | 0 <= i < n :: GroupFits(records[i], records[..i])
  {
    hide PlacedGroup, GroupFits, Groups, Used;
    if n > 0 {
      GroupsIff(records, n - 1);
      assert AllPlacedGroups(records, n) <==> AllPlacedGroups(records, n - 1) && PlacedGroup(records[n - 1], records[..n - 1]);
      if forall i | 0 <= i < n - 1 :: GroupFits(records[i], records[..i]) {
        UsedUpTo(records, n - 1);
        PlacedIffFits(records[n - 1], records[..n - 1]);
      }
    }
  }

  lemma PlacedIffFits(r: Record, earlier: seq<Record>)
    requires forall g :: Used(earlier, g) <==> 1 <= g <= Groups(earlier)
    ensures PlacedGroup(r, earlier) <==> GroupFits(r, earlier)
  {
    GroupFitsIff(r, earlier);
  }

  lemma IdsIff(r: Record, earlier: seq<Record>)
    ensures IdsFit(r, earlier) <==> r.Numbered() && r.id == CountOf(r.Kind(), earlier) + 1
  {
    hide CountOf, Number;
    forall d: Domain
      ensures Number(earlier, d) == CountOf(d, earlier)
      ensures r.Numbered() ==> (IsA(r, d) <==> r.Kind() == d)
    {
      NumberIsCount(earlier, d);
      KindIsA(r, d);
    }
    KindIsA(r, NodeKind);
  }

  /** Numbered in their places, the records of a kind are 1, 2, ..., their number. */
  lemma NumberedDense(records: seq<Record>)
    requires forall i | 0 <= i < |records| && records[i].Numbered() :: records[i].id == CountOf(records[i].Kind(), records[..i]) + 1
    ensures Dense(records)
  {
    hide CountOf;
    forall d: Domain, id
      ensures Present(records, d, id) <==> 1 <= id <= CountOf(d, records)
    {
      PresentIsEmitted(records, d, id);
      if 1 <= id <= CountOf(d, records) {
        var i := FindNumbered(d, id, records);
        assert Names(records[i], d, id) && records[i] in records;
      }
      if Emitted(records, d, id) {
        var r :| r in records && Names(r, d, id);
        var i :| 0 <= i < |records| && records[i] == r;
        CountGrows(d, records, i + 1);
        assert records[..i + 1][..i] == records[..i];
        CountNext(d, records[..i], r);
        assert records[..i + 1] == records[..i] + [r];
      }
    }
  }

  lemma CountNext(d: Domain, earlier: seq<Record>, r: Record)
    requires r.Numbered() && r.Kind() == d
    ensures CountOf(d, earlier + [r]) == CountOf(d, earlier) + 1
  {
    assert (earlier + [r])[..|earlier|] == earlier;
  }

  lemma {:induction false} EdgesHold(records: seq<Record>, e: Edge)
    ensures e in AllEdges(records) <==> exists r <- records :: e in Edges(r)
  {
    hide Edges;
    if records != [] {
      EdgesHold(records[..|records| - 1], e);
      assert records == records[..|records| - 1] + [records[|records| - 1]];
    }
  }

  /** A record in order apart from its number and group. */
  ghost predicate Sound(r: Record, records: seq<Record>, schema: Schema) {
    LocalOk(r, schema) && AllGood(Edges(r), records)
  }

  ghost predicate AllSound(records: seq<Record>, schema: Schema) {
    forall i | 0 <= i < |records| - 1 :: Sound(records[i], records, schema)
  }

  ghost predicate AllLocal(records: seq<Record>, schema: Schema) {
    forall i | 0 <= i < |records| - 1 :: LocalOk(records[i], schema)
  }

  predicate EdgesCounted(records: seq<Record>) {
    forall e <- AllEdges(records) :: e.target <= CountOf(e.domain, records)
  }

  lemma SoundEdges(records: seq<Record>, schema: Schema)
    requires Ends(records) && AllSound(records, schema)
    ensures EdgesCounted(records)
  {
    hide Edges, LocalOk, CountOf, AllEdges;
    var last := |records| - 1;
    forall e <- AllEdges(records) ensures e.target <= CountOf(e.domain, records) {
      EdgesHold(records, e);
      var r :| r in records && e in Edges(r);
      var i :| 0 <= i < |records| && records[i] == r;
      NoEdges(records[last]);
      assert Sound(records[i], records, schema);
    }
  }

  lemma NoEdges(r: Record)
    ensures r.Counts? ==> Edges(r) == []
  {
  }

  lemma EdgesSound(records: seq<Record>, schema: Schema)
    requires Ends(records) && AllLocal(records, schema) && EdgesCounted(records)
    ensures AllSound(records, schema)
  {
    hide Edges, LocalOk, CountOf, AllEdges;
    forall i | 0 <= i < |records| - 1
      ensures Sound(records[i], records, schema)
    {
      LocalLegal(records[i], schema);
      forall e <- Edges(records[i]) ensures Good(e, records) {
        assert records[i] in records;
        EdgesHold(records, e);
      }
    }
  }

  lemma SoundIff(records: seq<Record>, schema: Schema)
    requires Ends(records)
    ensures AllLocal(records, schema) && EdgesCounted(records) <==> AllSound(records, schema)
  {
    hide LocalOk, EdgesCounted;
    if AllLocal(records, schema) && EdgesCounted(records) {
      EdgesSound(records, schema);
    }
    if AllSound(records, schema) {
      SoundEdges(records, schema);
    }
  }

  lemma LocalLegal(r: Record, schema: Schema)
    requires LocalOk(r, schema)
    ensures forall e <- Edges(r) :: e.Legal()
  {
    hide Edges;
  }

  lemma CountsIff(records: seq<Record>, counts: map<Domain, int>)
    ensures counts == CountMap(records) <==> Counted(records, counts)
  {
    hide CountOf, Number;
    forall d: Domain
      ensures d in CountMap(records) && CountMap(records)[d] == Number(records, d)
    {
      AllKinds(d);
      NumberIsCount(records, d);
    }
  }

  ghost predicate AllShared(records: seq<Record>) {
    forall g | 1 <= g <= Groups(records) :: Shared(SpansOf(g, records))
  }

  lemma StartsFit(records: seq<Record>)
    requires AllGroups(records)
    ensures forall r <- records :: Ranged(r) ==> 0 <= r.start
  {
    hide Length, Used;
    forall r <- records
      ensures Ranged(r) ==> 0 <= r.start
    {
      var i :| 0 <= i < |records| && records[i] == r;
      assert GroupFits(records[i], records[..i]);
    }
  }

  lemma ArraysIff(records: seq<Record>)
    requires AllGroups(records)
    ensures AllShared(records) <==> AllArrays(records)
  {
    hide GroupFits, Groups, SpansOf, Used, Shared, OneArray;
    UsedUpTo(records, |records|);
    assert records[..|records|] == records;
    StartsFit(records);
    hide AllGroups;
    forall g
      ensures Shared(SpansOf(g, records)) <==> OneArray(records, g)
    {
      SharedIff(g, records);
    }
  }

  lemma SharedIff(g: int, records: seq<Record>)
    requires forall r <- records :: Ranged(r) ==> 0 <= r.start
    ensures Shared(SpansOf(g, records)) <==> OneArray(records, g)
  {
    hide SpansOf, Behind, Backs, Ranged;
    if backing :| Backs(backing, SpansOf(g, records)) {
      BehindIffBacks(backing, g, records);
    }
    if backing :| Behind(backing, g, records) {
      BehindIffBacks(backing, g, records);
    }
  }

  lemma PlacedIff(r: Record, earlier: seq<Record>, schema: Schema)
    ensures Placed(r, earlier, schema) <==> IdsFit(r, earlier) && LocalOk(r, schema) && PlacedGroup(r, earlier)
  {
    hide LocalOk, CountOf, Groups, IdsFit;
    IdsIff(r, earlier);
  }

  lemma EndGroups(records: seq<Record>)
    requires Ends(records)
    ensures PlacedGroup(records[0], records[..0]) && PlacedGroup(records[|records| - 1], records[..|records| - 1])
  {
  }

  /** The parts of a closed graph. */
  lemma ClosedParts(records: seq<Record>, schema: Schema)
    ensures ClosedGraph(records, schema) <==>
            && Ends(records) && AllIds(records) && AllPlacedGroups(records, |records|) && AllLocal(records, schema)
            && records[|records| - 1].counts == CountMap(records) && EdgesCounted(records) && AllShared(records)
  {
    hide LocalOk, IdsFit, Placed, CountMap, Shared, SpansOf, AllEdges, CountOf, PlacedGroup, Groups;
    if Ends(records) {
      var last := |records| - 1;
      EndGroups(records);
      forall i | 0 < i < last
        ensures Placed(records[i], records[..i], schema) <==>
                IdsFit(records[i], records[..i]) && LocalOk(records[i], schema) && PlacedGroup(records[i], records[..i])
      {
        PlacedIff(records[i], records[..i], schema);
      }
    }
  }

  lemma IdsDense(records: seq<Record>)
    requires Ends(records) && AllIds(records)
    ensures Dense(records)
    ensures forall i | 0 < i < |records| - 1 :: HasKind(records[i])
  {
    hide CountOf;
    forall i | 0 <= i < |records| && records[i].Numbered()
      ensures records[i].id == CountOf(records[i].Kind(), records[..i]) + 1
    {
      IdsIff(records[i], records[..i]);
    }
    NumberedDense(records);
  }

  lemma SoundIffFields(records: seq<Record>, schema: Schema)
    requires Ends(records) && Dense(records) && forall i | 0 < i < |records| - 1 :: HasKind(records[i])
    ensures AllSound(records, schema) <==> AllFields(records, schema)
  {
    hide Dense, HasKind, FieldsOk, LocalOk, Edges, AllGood;
    forall i | 0 <= i < |records| - 1
      ensures Sound(records[i], records, schema) <==> FieldsOk(records[i], records, schema)
    {
      FieldsIff(records[i], records, schema);
    }
    hide Sound;
  }

  /** The main result. A run of the validator ends closed exactly on a graph whose
      records are in their places, with every field naming a record of the right kind. */
  lemma ClosedIffWellFormed(records: seq<Record>, schema: Schema)
    ensures Run(records, schema).Accepted? && Run(records, schema).value.closed <==> WellFormed(records, schema)
  {
    hide Run, ClosedGraph, Ends, AllIds, AllGroups, AllPlacedGroups, AllLocal, AllFields, AllSound, EdgesCounted, CountMap, Counted, AllShared, AllArrays, Dense, HasKind;
    AcceptsIffClosed(records, schema);
    ClosedParts(records, schema);
    AllGroupsIff(records);
    if Ends(records) && AllIds(records) {
      IdsDense(records);
      SoundIff(records, schema);
      SoundIffFields(records, schema);
      LastCounts(records);
      if AllGroups(records) {
        ArraysIff(records);
      }
    }
  }

  lemma AllGroupsIff(records: seq<Record>)
    ensures AllPlacedGroups(records, |records|) <==> AllGroups(records)
  {
    GroupsIff(records, |records|);
  }

  lemma LastCounts(records: seq<Record>)
    requires Ends(records)
    ensures records != [] && records[|records| - 1].Counts?
    ensures records[|records| - 1].counts == CountMap(records) <==> Counted(records, records[|records| - 1].counts)
  {
    CountsIff(records, records[|records| - 1].counts);
  }
}
