/** The graph validator accepts exactly the closed graphs. */
module BinderGraphProperties {
  import opened Results
  import opened BackingGroups
  import opened BinderGraph

  /** A graph whose source and numbered records are in place but not yet counted. */
  ghost predicate OpenGraph(records: seq<Record>, schema: Schema) {
    && records != []
    && records[0].Source? && LocalOk(records[0], schema)
    && forall i | 0 < i < |records| :: Placed(records[i], records[..i], schema)
  }

  function UpTo(n: nat): (s: set<int>)
    ensures forall g :: g in s <==> 1 <= g <= n
    ensures |s| == n
  {
    if n == 0 then {} else UpTo(n - 1) + {n}
  }

  lemma UpToIs(s: set<int>, n: nat)
    requires forall g :: g in s <==> 1 <= g <= n
    ensures s == UpTo(n) && |s| == n
  {
  }

  lemma AllKinds(d: Domain)
    ensures d in KINDS
  {
    match d {
      case NodeKind =>
      case ListKind =>
      case NodesKind =>
      case TextsKind =>
      case SymbolKind =>
      case TableKind =>
      case DeclarationsKind =>
      case FlowKind =>
      case FlowListKind =>
    }
  }

  lemma {:induction false} NoSpansBeyond(g: int, records: seq<Record>)
    requires g > Groups(records)
    ensures SpansOf(g, records) == []
  {
    if records != [] {
      NoSpansBeyond(g, records[..|records| - 1]);
    }
  }

  /** What the state holds after the records of an open graph. */
  ghost predicate Summarises(s: GraphState, records: seq<Record>) {
    && s.counts.Keys == KINDS
    && (forall d <- KINDS :: s.counts[d] == CountOf(d, records))
    && s.references == AllEdges(records)
    && s.source && !s.closed
    && s.digested == records
    && (forall g :: g in s.aliases <==> 1 <= g <= Groups(records))
    && (forall g | g in s.aliases :: s.aliases[g] == SpansOf(g, records))
  }

  lemma Pushed(earlier: seq<Record>, r: Record)
    ensures var records := earlier + [r];
            && AllEdges(records) == AllEdges(earlier) + Edges(r)
            && Groups(records) == (if r.Backed() && r.group > Groups(earlier) then r.group else Groups(earlier))
            && (forall d :: CountOf(d, records) == CountOf(d, earlier) + (if r.Numbered() && r.Kind() == d then 1 else 0))
            && (forall g :: SpansOf(g, records) == SpansOf(g, earlier)
                 + (if r.Backed() && r.Cells() != [] && r.group == g && r.start >= 0 then [Span(r.start, r.Cells())] else []))
  {
    hide Edges, LocalOk;
    var records := earlier + [r];
    assert records[..|records| - 1] == earlier && records[|records| - 1] == r;
  }

  lemma SourceStep(r: Record, schema: Schema)
    requires r.Source? && LocalOk(r, schema)
    ensures Step(EMPTY, r, schema).Accepted? && Summarises(Step(EMPTY, r, schema).value, [r])
  {
    hide Edges, LocalOk;
    Pushed([], r);
    assert [] + [r] == [r];
  }

  lemma AliasStep(aliases: map<int, seq<Span<Cell>>>, earlier: seq<Record>, r: Record)
    requires r.Backed() && GroupOk(r, aliases.Keys)
    requires forall g :: g in aliases <==> 1 <= g <= Groups(earlier)
    requires forall g | g in aliases :: aliases[g] == SpansOf(g, earlier)
    ensures var next, records := Alias(aliases, r), earlier + [r];
            && (forall g :: g in next <==> 1 <= g <= Groups(records))
            && (forall g | g in next :: next[g] == SpansOf(g, records))
  {
    hide Edges, LocalOk;
    Pushed(earlier, r);
    UpToIs(aliases.Keys, Groups(earlier));
    NoSpansBeyond(Groups(earlier) + 1, earlier);
    var next, records := Alias(aliases, r), earlier + [r];
    forall g | g in next
      ensures next[g] == SpansOf(g, records)
    {
      if r.Cells() != [] && r.group == g {
      } else {
        assert next[g] == aliases[g] + [];
      }
    }
  }

  lemma NumberedAllowedIffPlaced(s: GraphState, earlier: seq<Record>, r: Record, schema: Schema)
    requires Summarises(s, earlier) && r.Numbered()
    ensures NumberedAllowed(s, r, schema) <==> Placed(r, earlier, schema)
  {
    hide Edges, LocalOk;
    assert r.Kind() in KINDS;
    UpToIs(s.aliases.Keys, Groups(earlier));
  }

  lemma NumberedStep(s: GraphState, earlier: seq<Record>, r: Record, schema: Schema)
    requires Summarises(s, earlier) && r.Numbered() && NumberedAllowed(s, r, schema)
    ensures Summarises(AddNumbered(s, r), earlier + [r])
  {
    hide Edges, LocalOk, Alias, Groups, SpansOf, CountOf, AllEdges;
    var records := earlier + [r];
    var next := AddNumbered(s, r);
    AllKinds(r.Kind());
    Pushed(earlier, r);
    assert next.references == AllEdges(records);
    CountStep(s, earlier, r);
    if r.Backed() {
      AliasStep(s.aliases, earlier, r);
    } else {
      forall g | g in next.aliases ensures next.aliases[g] == SpansOf(g, records) {
        assert SpansOf(g, records) == SpansOf(g, earlier) + [];
      }
    }
  }

  lemma CountStep(s: GraphState, earlier: seq<Record>, r: Record)
    requires Summarises(s, earlier) && r.Numbered()
    ensures var counts := s.counts[r.Kind() := CountsOf(s, r.Kind()) + 1];
            counts.Keys == KINDS && forall d <- KINDS :: counts[d] == CountOf(d, earlier + [r])
  {
    hide Edges, LocalOk, GroupOk, Alias, Groups, SpansOf, CountOf, AllEdges;
    AllKinds(r.Kind());
    Pushed(earlier, r);
  }

  lemma StepOnEmpty(r: Record, schema: Schema)
    ensures Step(EMPTY, r, schema).Accepted? <==> r.Source? && LocalOk(r, schema)
    ensures Step(EMPTY, r, schema).Accepted? ==> Summarises(Step(EMPTY, r, schema).value, [r])
  {
    hide Edges, LocalOk, Summarises;
    if r.Source? && LocalOk(r, schema) {
      SourceStep(r, schema);
    }
  }

  lemma StepOnOpen(s: GraphState, earlier: seq<Record>, r: Record, schema: Schema)
    requires Summarises(s, earlier)
    ensures Step(s, r, schema).Accepted? && !Step(s, r, schema).value.closed <==> Placed(r, earlier, schema)
    ensures Placed(r, earlier, schema) ==> Summarises(Step(s, r, schema).value, earlier + [r])
    ensures Step(s, r, schema).Accepted? && Step(s, r, schema).value.closed <==> r.Counts? && CountsAllowed(s, r)
  {
    hide Edges, LocalOk, GroupOk, CountsAllowed;
    if r.Numbered() {
      NumberedAllowedIffPlaced(s, earlier, r, schema);
      if Placed(r, earlier, schema) {
        NumberedStep(s, earlier, r, schema);
      }
    }
  }

  lemma {:induction false} OpenRun(records: seq<Record>, schema: Schema)
    ensures OpenGraph(records, schema) ==>
              Run(records, schema).Accepted? && Summarises(Run(records, schema).value, records)
    ensures Run(records, schema).Accepted? && !Run(records, schema).value.closed ==>
              records == [] || OpenGraph(records, schema)
  {
    hide Edges, LocalOk, Summarises, OpenGraph, Placed, Step;
    if records == [] {
      NotOpen(schema);
    } else {
      var earlier, last := records[..|records| - 1], records[|records| - 1];
      assert records == earlier + [last];
      if earlier == [] {
        assert records == [last];
        assert Run(earlier, schema) == Accepted(EMPTY);
        StepOnEmpty(last, schema);
        SingleOpen(last, schema);
      } else {
        OpenRun(earlier, schema);
        PrefixPlaced(earlier, last, schema);
        if Run(earlier, schema).Accepted? {
          var s := Run(earlier, schema).value;
          if s.closed {
            ClosedIsFinal(s, last, schema);
            if OpenGraph(earlier, schema) {
              OpenFlags(s, earlier);
            }
          } else {
            StepOnOpen(s, earlier, last, schema);
          }
        }
      }
    }
  }

  lemma NotOpen(schema: Schema)
    ensures !OpenGraph([], schema)
  {
  }

  lemma SingleOpen(r: Record, schema: Schema)
    ensures OpenGraph([r], schema) <==> r.Source? && LocalOk(r, schema)
  {
    hide LocalOk, Placed;
  }

  lemma ClosedIsFinal(s: GraphState, r: Record, schema: Schema)
    requires s.closed
    ensures Step(s, r, schema).Rejected?
  {
  }

  lemma OpenFlags(s: GraphState, records: seq<Record>)
    requires Summarises(s, records)
    ensures s.source && !s.closed
  {
  }

  lemma PrefixPlaced(earlier: seq<Record>, last: Record, schema: Schema)
    requires earlier != []
    ensures OpenGraph(earlier + [last], schema) <==> OpenGraph(earlier, schema) && Placed(last, earlier, schema)
  {
    hide Edges, LocalOk, Placed;
    var records := earlier + [last];
    assert forall i | 0 < i < |earlier| :: records[i] == earlier[i] && records[..i] == earlier[..i];
    assert records[..|earlier|] == earlier;
  }

  lemma CountsStep(s: GraphState, earlier: seq<Record>, r: Record)
    requires Summarises(s, earlier) && r.Counts?
    ensures CountsAllowed(s, r) <==> Balanced(earlier + [r], r.counts)
  {
    hide LocalOk, Shared;
    var records := earlier + [r];
    Pushed(earlier, r);
    assert AllEdges(records) == AllEdges(earlier) + [] == s.references;
    assert Groups(records) == Groups(earlier);
    forall d: Domain ensures CountsOf(s, d) == CountOf(d, records) {
      AllKinds(d);
    }
    assert s.counts == CountMap(records);
    forall g | g in s.aliases ensures 1 <= g <= Groups(records) && s.aliases[g] == SpansOf(g, records) {
      assert SpansOf(g, records) == SpansOf(g, earlier) + [];
    }
    SharedSame(s, records);
  }

  lemma SharedSame(s: GraphState, records: seq<Record>)
    requires forall g :: g in s.aliases <==> 1 <= g <= Groups(records)
    requires forall g | g in s.aliases :: s.aliases[g] == SpansOf(g, records)
    ensures (forall g <- s.aliases :: Shared(s.aliases[g])) <==>
            (forall g | 1 <= g <= Groups(records) :: Shared(SpansOf(g, records)))
  {
    hide Shared, SpansOf, Groups;
    if forall g <- s.aliases :: Shared(s.aliases[g]) {
      forall g | 1 <= g <= Groups(records) ensures Shared(SpansOf(g, records)) {
        assert g in s.aliases;
      }
    }
    if g :| g in s.aliases && !Shared(s.aliases[g]) {
      assert !Shared(SpansOf(g, records));
    }
  }

  lemma ClosedGraphSplit(earlier: seq<Record>, last: Record, schema: Schema)
    requires earlier != []
    ensures ClosedGraph(earlier + [last], schema) <==>
              OpenGraph(earlier, schema) && last.Counts? && Balanced(earlier + [last], last.counts)
  {
    hide Edges, LocalOk, Placed, Balanced;
    var records := earlier + [last];
    assert |records| - 1 == |earlier| && records[|earlier|] == last && records[0] == earlier[0];
    assert forall i | 0 < i < |earlier| :: records[i] == earlier[i] && records[..i] == earlier[..i];
  }

  /** The main result: a run of the validator ends closed exactly on a closed graph. */
  lemma AcceptsIffClosed(records: seq<Record>, schema: Schema)
    ensures Run(records, schema).Accepted? && Run(records, schema).value.closed <==> ClosedGraph(records, schema)
    ensures ClosedGraph(records, schema) ==> Run(records, schema).value.digested == records
  {
    hide Edges, LocalOk, Placed, CountOf, CountMap, AllEdges, Groups, SpansOf, Shared, CountsAllowed, OpenGraph, ClosedGraph, Summarises, Step;
    if records != [] {
      var earlier, last := records[..|records| - 1], records[|records| - 1];
      assert records == earlier + [last];
      if earlier == [] {
        assert records == [last];
        StepOnEmpty(last, schema);
        SingleNotClosed(last, schema);
      } else {
        OpenRun(earlier, schema);
        ClosedGraphSplit(earlier, last, schema);
        if Run(earlier, schema).Accepted? {
          var s := Run(earlier, schema).value;
          if s.closed {
            ClosedIsFinal(s, last, schema);
            if OpenGraph(earlier, schema) {
              OpenFlags(s, earlier);
            }
          } else {
            StepOnOpen(s, earlier, last, schema);
            if last.Counts? {
              CountsStep(s, earlier, last);
              if CountsAllowed(s, last) {
                Digested(s, earlier, last, schema);
              }
            }
          }
        }
      }
    } else {
      EmptyNotClosed(schema);
    }
  }

  lemma SingleNotClosed(r: Record, schema: Schema)
    ensures !ClosedGraph([r], schema)
    ensures Step(EMPTY, r, schema).Accepted? ==> !Step(EMPTY, r, schema).value.closed
  {
    hide Edges, LocalOk, Placed, Shared;
  }

  lemma EmptyNotClosed(schema: Schema)
    ensures !ClosedGraph([], schema)
  {
  }

  lemma Digested(s: GraphState, earlier: seq<Record>, r: Record, schema: Schema)
    requires Summarises(s, earlier) && r.Counts? && Step(s, r, schema).Accepted?
    ensures Step(s, r, schema).value.digested == earlier + [r]
  {
    hide CountsAllowed;
  }

  // --- what a closed graph gives a reader --------------------------------------

  lemma {:induction false} CountGrows(d: Domain, records: seq<Record>, i: nat)
    requires i <= |records|
    ensures CountOf(d, records[..i]) <= CountOf(d, records)
  {
    if i < |records| {
      CountGrows(d, records[..|records| - 1], i);
      assert records[..|records| - 1][..i] == records[..i];
    } else {
      assert records[..i] == records;
    }
  }

  /** The record that raised the count of its kind to `n`. */
  lemma {:induction false} FindNumbered(d: Domain, n: nat, records: seq<Record>) returns (i: nat)
    requires 1 <= n <= CountOf(d, records)
    ensures i < |records| && records[i].Numbered() && records[i].Kind() == d
    ensures CountOf(d, records[..i]) == n - 1
  {
    var last := |records| - 1;
    if CountOf(d, records[..last]) >= n {
      i := FindNumbered(d, n, records[..last]);
      assert records[..last][..i] == records[..i];
    } else {
      i := last;
    }
  }

  ghost predicate Names(r: Record, d: Domain, id: int) {
    r.Numbered() && r.Kind() == d && r.id == id
  }

  /** Some emitted record of that kind carries that identity. */
  ghost predicate Emitted(records: seq<Record>, d: Domain, id: int) {
    exists r <- records :: Names(r, d, id)
  }

  lemma InPlace(records: seq<Record>, schema: Schema, i: nat)
    requires ClosedGraph(records, schema) && i < |records| && records[i].Numbered()
    ensures 0 < i < |records| - 1
    ensures records[i].id == CountOf(records[i].Kind(), records[..i]) + 1
  {
    hide Edges, LocalOk, Shared, AllEdges, SpansOf, Groups, CountOf;
    assert Placed(records[i], records[..i], schema);
  }

  lemma EmittedIffCounted(records: seq<Record>, schema: Schema, d: Domain, id: int)
    requires ClosedGraph(records, schema)
    ensures Emitted(records, d, id) <==> 1 <= id <= CountOf(d, records)
  {
    hide ClosedGraph;
    if 1 <= id <= CountOf(d, records) {
      var i := FindNumbered(d, id, records);
      InPlace(records, schema, i);
      assert Names(records[i], d, id) && records[i] in records;
    }
    if r :| r in records && Names(r, d, id) {
      var i :| 0 <= i < |records| && records[i] == r;
      InPlace(records, schema, i);
      CountGrows(d, records, i + 1);
      assert records[..i + 1][..i] == records[..i];
    }
  }

  /** Identities are 1, 2, ... in each kind, each used once, and every nonzero
      edge of every record names an emitted record. */
  lemma ClosedGraphNames(records: seq<Record>, schema: Schema)
    requires ClosedGraph(records, schema)
    ensures forall d, id :: Emitted(records, d, id) <==> 1 <= id <= CountOf(d, records)
    ensures forall i, j | 0 <= i < j < |records| && records[i].Numbered() && records[j].Numbered() ::
              records[i].Kind() == records[j].Kind() ==> records[i].id < records[j].id
    ensures forall e <- AllEdges(records) | e.target != 0 :: Emitted(records, e.domain, e.target)
  {
    hide Edges, LocalOk, Shared, SpansOf, Groups;
    forall d, id
      ensures Emitted(records, d, id) <==> 1 <= id <= CountOf(d, records)
    {
      EmittedIffCounted(records, schema, d, id);
    }
    forall i, j | 0 <= i < j < |records| && records[i].Numbered() && records[j].Numbered() &&
                  records[i].Kind() == records[j].Kind()
      ensures records[i].id < records[j].id
    {
      InPlace(records, schema, i);
      InPlace(records, schema, j);
      assert records[..j][..i + 1] == records[..i + 1];
      assert records[..i + 1][..i] == records[..i];
      CountGrows(records[i].Kind(), records[..j], i + 1);
    }
    forall e <- AllEdges(records) | e.target != 0
      ensures Emitted(records, e.domain, e.target)
    {
      EdgesLegal(records, schema, |records|);
      assert records[..|records|] == records;
      assert 1 <= e.target <= CountOf(e.domain, records);
    }
  }

  lemma {:induction false} EdgesLegal(records: seq<Record>, schema: Schema, n: nat)
    requires ClosedGraph(records, schema) && n <= |records|
    ensures forall e <- AllEdges(records[..n]) :: e.Legal()
  {
    if n > 0 {
      EdgesLegal(records, schema, n - 1);
      assert records[..n][..n - 1] == records[..n - 1];
      var r := records[n - 1];
      if n == |records| {
        assert Edges(r) == [];
      } else if n > 1 {
        assert Placed(r, records[..n - 1], schema);
      }
    }
  }

  /** Groups are numbered in order of first appearance: the first record of a
      group comes after the first record of every smaller group, and no number
      up to the highest is skipped. */
  lemma {:induction false} GroupsInOrder(records: seq<Record>, schema: Schema, n: nat, g: int)
    requires ClosedGraph(records, schema) && n <= |records|
    requires 1 <= g <= Groups(records[..n])
    ensures exists i | 0 < i < n ::
              records[i].Backed() && records[i].Cells() != [] && records[i].group == g && Groups(records[..i]) == g - 1
  {
    hide Balanced, LocalOk, CountOf;
    assert n > 0;
    assert records[..n][..n - 1] == records[..n - 1];
    if g <= Groups(records[..n - 1]) {
      GroupsInOrder(records, schema, n - 1, g);
    } else {
      assert Placed(records[n - 1], records[..n - 1], schema);
    }
  }
}
