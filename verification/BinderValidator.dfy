/** `GraphValidator` of scripts/s07_binder.py: the object that consumes one stage's records. */
module BinderValidator {
  import opened Results
  import opened BackingGroups
  import opened BinderNames
  import opened BinderGraph
  import opened BinderGraphProperties

  const COLLECTIONS: map<Collection, nat> := map[Parse := 0, Js := 0, JsDoc := 0, Bind := 0]

  predicate DiagnosticFits(ds: seq<SourceDiagnostic>, i: nat)
    requires i < |ds|
  {
    && ds[i].index == CollectionCount(ds[i].collection, ds[..i])
    && (i > 0 ==> Rank(ds[i - 1].collection) <= Rank(ds[i].collection))
  }

  lemma DiagnosticsPrefix(ds: seq<SourceDiagnostic>, i: nat)
    requires i < |ds|
    ensures DiagnosticsOrdered(ds[..i + 1]) <==> DiagnosticsOrdered(ds[..i]) && DiagnosticFits(ds, i)
    ensures DiagnosticsOrdered(ds) ==> DiagnosticsOrdered(ds[..i + 1])
    ensures forall c :: CollectionCount(c, ds[..i + 1]) ==
                        CollectionCount(c, ds[..i]) + (if ds[i].collection == c then 1 else 0)
  {
    hide CollectionCount;
    assert forall j | 0 <= j <= i :: ds[..i + 1][..j] == ds[..j];
    assert forall j | 0 <= j < i :: ds[..i][..j] == ds[..j];
    forall c
      ensures CollectionCount(c, ds[..i + 1]) == CollectionCount(c, ds[..i]) + (if ds[i].collection == c then 1 else 0)
    {
      CollectionCountNext(c, ds, i);
    }
  }

  lemma CollectionCountNext(c: Collection, ds: seq<SourceDiagnostic>, i: nat)
    requires i < |ds|
    ensures CollectionCount(c, ds[..i + 1]) == CollectionCount(c, ds[..i]) + (if ds[i].collection == c then 1 else 0)
  {
    assert ds[..i + 1][..i] == ds[..i];
  }

  /** The diagnostics of a source record, checked in one pass. */
  method DiagnosticsInOrder(ds: seq<SourceDiagnostic>) returns (ok: bool)
    ensures ok <==> DiagnosticsOrdered(ds)
  {
    hide CollectionCount, DiagnosticsOrdered;
    var indices := COLLECTIONS;
    var previous: int := -1;
    EmptyOrdered();
    assert ds[..0] == [];
    for i := 0 to |ds|
      invariant forall c :: c in indices && indices[c] == CollectionCount(c, ds[..i])
      invariant previous == if i == 0 then -1 else Rank(ds[i - 1].collection)
      invariant DiagnosticsOrdered(ds[..i])
    {
      var item := ds[i];
      DiagnosticsPrefix(ds, i);
      if Rank(item.collection) < previous || item.index != indices[item.collection] {
        return false;
      }
      previous := Rank(item.collection);
      indices := indices[item.collection := indices[item.collection] + 1];
    }
    assert ds[..|ds|] == ds;
    return true;
  }

  lemma EmptyOrdered()
    ensures DiagnosticsOrdered([])
    ensures forall c :: c in COLLECTIONS && COLLECTIONS[c] == CollectionCount(c, [])
  {
    forall c: Collection ensures c in COLLECTIONS && COLLECTIONS[c] == 0 {
      match c { case Parse => case Js => case JsDoc => case Bind => }
    }
  }

  /** The entries of a symbol table: legal names in strictly ascending byte order. */
  method EntriesInOrder(entries: seq<(Name, int)>) returns (ok: bool)
    ensures ok <==> EntriesOk(entries)
  {
    var previous: Option<seq<Byte>> := None;
    for i := 0 to |entries|
      invariant previous == if i == 0 then None else Some(entries[i - 1].0.raw)
      invariant EntriesOk(entries[..i])
    {
      var name := entries[i].0;
      if !NameOk(name) || (previous.Some? && !BytesLess(previous.value, name.raw)) {
        return false;
      }
      previous := Some(name.raw);
    }
    assert entries[..|entries|] == entries;
    return true;
  }

  lemma {:induction false} BytesLessIrreflexive(a: seq<Byte>)
    ensures !BytesLess(a, a)
  {
    if a != [] {
      BytesLessIrreflexive(a[1..]);
    }
  }

  lemma {:induction false} BytesLessTransitive(a: seq<Byte>, b: seq<Byte>, c: seq<Byte>)
    requires BytesLess(a, b) && BytesLess(b, c)
    ensures BytesLess(a, c)
  {
    if a != [] && a[0] == b[0] == c[0] {
      BytesLessTransitive(a[1..], b[1..], c[1..]);
    }
  }

  /** A symbol table has no two entries with the same literal name. */
  lemma {:induction false} EntriesAscend(entries: seq<(Name, int)>, i: nat, j: nat)
    requires EntriesOk(entries) && i < j < |entries|
    ensures BytesLess(entries[i].0.raw, entries[j].0.raw) && entries[i].0.raw != entries[j].0.raw
    decreases j
  {
    if i + 1 < j {
      EntriesAscend(entries, i, j - 1);
      BytesLessTransitive(entries[i].0.raw, entries[j - 1].0.raw, entries[j].0.raw);
    }
    BytesLessIrreflexive(entries[i].0.raw);
  }

  /** The backing groups seen so far are 1, 2, ..., and every span shows cells. */
  ghost predicate GroupsNumbered(aliases: map<int, seq<Span<Cell>>>) {
    && (forall g :: g in aliases <==> 1 <= g <= |aliases|)
    && forall g <- aliases :: Visible(aliases[g])
  }

  lemma AliasNumbered(aliases: map<int, seq<Span<Cell>>>, r: Record)
    requires GroupsNumbered(aliases) && r.Backed() && GroupOk(r, aliases.Keys)
    ensures 0 <= r.start && GroupsNumbered(Alias(aliases, r))
  {
    hide GroupsNumbered, Record.Cells;
    if r.Cells() != [] {
      SpanNumbered(aliases, r.group, Span(r.start, r.Cells()));
    }
  }

  lemma SpanNumbered(aliases: map<int, seq<Span<Cell>>>, group: int, span: Span<Cell>)
    requires GroupsNumbered(aliases) && (group in aliases || group == |aliases| + 1) && span.values != []
    ensures GroupsNumbered(aliases[group := (if group in aliases then aliases[group] else []) + [span]])
  {
    var more := aliases[group := (if group in aliases then aliases[group] else []) + [span]];
    assert more.Keys == aliases.Keys + {group};
    assert |more| == |more.Keys| && |aliases| == |aliases.Keys|;
  }

  class GraphValidator {
    const schema: Schema
    var counts: map<Domain, int>
    var references: seq<Edge>
    var source: bool
    var closed: bool
    var digest: seq<Record>
    var aliases: map<int, seq<Span<Cell>>>

    function State(): GraphState
      reads this
    {
      GraphState(counts, references, source, closed, digest, aliases)
    }

    ghost predicate Valid()
      reads this
    {
      && counts.Keys == KINDS
      && GroupsNumbered(aliases)
    }

    constructor (schema: Schema)
      ensures Valid() && State() == EMPTY && this.schema == schema
    {
      this.schema := schema;
      counts := map d | d in KINDS :: 0;
      references, source, closed, digest, aliases := [], false, false, [], map[];
    }

    /** The checks a record must pass by itself, in the order `accept` meets them. */
    method Local(record: Record) returns (ok: bool)
      ensures ok <==> LocalOk(record, schema)
    {
      hide Edges, DiagnosticsOrdered, EntriesOk, PayloadOk, NameOk, CapacityOk, SyntheticOk;
      ok := forall e <- Edges(record) :: e.Legal();
      if !ok {
        return;
      }
      match record {
        case Source(_, _, _, _, _, diagnostics, _) => ok := DiagnosticsInOrder(diagnostics);
        case Table(_, entries) => ok := EntriesInOrder(entries);
        case Node(_, _, _, _, _, _, _, _, _, _, _, payload, fields, _) => ok := PayloadOk(payload, fields, schema);
        case Symbol(_, name, _, _, _, _, _, _, _) => ok := NameOk(name);
        case Declarations(_, values, capacity, capacityValues, _, _) => ok := CapacityOk(values, capacity, capacityValues);
        case Flow(id, data, synthetic, _, _, _) => ok := SyntheticOk(id, data, synthetic);
        case _ =>
      }
    }

    /** The body of the `counts` record: cardinalities, dangling edges, backing groups. */
    method Balance(record: Record) returns (ok: bool)
      requires Valid() && record.Counts?
      ensures ok <==> source ==> CountsAllowed(State(), record)
    {
      if record.counts != counts {
        return !source;
      }
      for i := 0 to |references|
        invariant forall e <- references[..i] :: e.target <= CountsOf(State(), e.domain)
      {
        var edge := references[i];
        if edge.target > CountsOf(State(), edge.domain) {
          assert edge in references;
          return !source;
        }
      }
      assert references[..|references|] == references;
      for g := 1 to |aliases| + 1
        invariant forall k | 1 <= k < g :: Shared(aliases[k])
      {
        var shared := CheckGroup(aliases[g]);
        if !shared {
          return !source;
        }
      }
      return true;
    }

    /** Consumes one record; after a rejection the caller abandons the object. */
    method Accept(record: Record) returns (ok: bool)
      requires Valid()
      modifies this
      ensures ok <==> Step(old(State()), record, schema).Accepted?
      ensures ok ==> Valid() && State() == Step(old(State()), record, schema).value
    {
      hide Edges, LocalOk, Shared;
      if closed || record.Malformed? {
        return false;
      }
      if record.Source? {
        ok := Local(record);
        ok := ok && !source && forall d <- counts :: counts[d] == 0;
        if ok {
          source := true;
          references := references + Edges(record);
          digest := digest + [record];
        }
        return;
      }
      if !source {
        return false;
      }
      if record.Counts? {
        ok := Balance(record);
        if ok {
          closed := true;
          digest := digest + [record];
        }
        return;
      }
      ok := AcceptKind(record);
    }

    /** Consumes one record of a numbered kind. */
    method AcceptKind(record: Record) returns (ok: bool)
      requires Valid() && !closed && source && !record.Malformed? && !record.Source? && !record.Counts?
      modifies this
      ensures ok <==> Step(old(State()), record, schema).Accepted?
      ensures ok ==> Valid() && State() == Step(old(State()), record, schema).value
    {
      hide Edges, LocalOk, Shared, GroupsNumbered, GroupOk, Alias;
      var kind := record.Kind();
      AllKinds(kind);
      ok := Local(record);
      ok := ok && record.id == counts[kind] + 1 && (record.Backed() ==> GroupOk(record, aliases.Keys));
      if ok {
        counts := counts[kind := counts[kind] + 1];
        if record.Backed() {
          AliasNumbered(aliases, record);
          aliases := Alias(aliases, record);
        }
        references := references + Edges(record);
        digest := digest + [record];
      }
    }
  }

  /** Feeding a fresh validator a whole stage: it stops at the first rejection,
      and it ends closed exactly on a closed graph. */
  method ValidateStage(records: seq<Record>, schema: Schema) returns (closed: bool)
    ensures closed <==> ClosedGraph(records, schema)
  {
    hide Edges, LocalOk, Shared, Step, ClosedGraph;
    var validator := new GraphValidator(schema);
    AcceptsIffClosed(records, schema);
    for i := 0 to |records|
      invariant validator.Valid() && validator.schema == schema && fresh(validator)
      invariant Run(records[..i], schema) == Accepted(validator.State())
    {
      assert records[..i + 1][..i] == records[..i];
      var ok := validator.Accept(records[i]);
      if !ok {
        RunStuck(records, schema, i + 1);
        return false;
      }
    }
    assert records[..|records|] == records;
    return validator.closed;
  }

  lemma {:induction false} RunStuck(records: seq<Record>, schema: Schema, i: nat)
    requires i <= |records| && Run(records[..i], schema).Rejected?
    ensures Run(records, schema).Rejected?
  {
    hide Step;
    if i == |records| {
      assert records[..i] == records;
    } else {
      assert records[..|records| - 1][..i] == records[..i];
      RunStuck(records[..|records| - 1], schema, i);
    }
  }
}
