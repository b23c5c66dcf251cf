/** A closed graph record by record and field by field: which field names a record of
    which kind, and what else `GraphValidator.accept` (scripts/s07_binder.py) asks of each. */
module BinderFields {
  import opened Results
  import opened BinderNames
  import opened BinderGraph
  import opened BinderGraphProperties
  import opened BinderValidator

  predicate IsA(r: Record, d: Domain) {
    match d
    case NodeKind => r.Node?
    case ListKind => r.List?
    case NodesKind => r.Nodes?
    case TextsKind => r.Texts?
    case SymbolKind => r.Symbol?
    case TableKind => r.Table?
    case DeclarationsKind => r.Declarations?
    case FlowKind => r.Flow?
    case FlowListKind => r.FlowList?
  }

  predicate HasKind(r: Record) {
    r.Node? || r.List? || r.Nodes? || r.Texts? || r.Symbol? || r.Table? || r.Declarations? || r.Flow? || r.FlowList?
  }

  /** How many of the records are of this kind. */
  function Number(records: seq<Record>, d: Domain): nat {
    |Places(records, d)|
  }

  function Places(records: seq<Record>, d: Domain): set<nat> {
    set i: nat | i < |records| && IsA(records[i], d)
  }

  /** A record of this kind and identity is in the graph. */
  ghost predicate Present(records: seq<Record>, d: Domain, id: int) {
    exists r <- records :: IsA(r, d) && r.id == id
  }

  /** A field that has to name a record. */
  ghost predicate Known(records: seq<Record>, d: Domain, target: int) {
    target <= 0x7FFF_FFFF_FFFF_FFFF && Present(records, d, target)
  }

  /** A field that names a record, or nothing. */
  ghost predicate Ref(records: seq<Record>, d: Domain, target: int) {
    target == 0 || Known(records, d, target)
  }

  ghost predicate Refs(records: seq<Record>, d: Domain, targets: seq<int>) {
    forall target <- targets :: Ref(records, d, target)
  }

  ghost predicate DiagnosticFields(d: Diagnostic, records: seq<Record>) {
    match d
    case NoDiagnostic => true
    case Diagnostic(file, chain, related) =>
      && Ref(records, NodeKind, file)
      && (forall x <- chain :: DiagnosticFields(x, records))
      && (forall x <- related :: DiagnosticFields(x, records))
  }

  /** The first collection can be followed by the second. */
  predicate MayPrecede(first: Collection, second: Collection) {
    match first
    case Parse => true
    case Js => !second.Parse?
    case JsDoc => second.JsDoc? || second.Bind?
    case Bind => second.Bind?
  }

  /** Parse, JavaScript, JSDoc and bind diagnostics one after the other, each
      numbered by how many of its collection came before it. */
  predicate InCollections(ds: seq<SourceDiagnostic>) {
    && (forall i, j | 0 <= i < j < |ds| :: MayPrecede(ds[i].collection, ds[j].collection))
    && forall i | 0 <= i < |ds| :: ds[i].index == |InCollection(ds, ds[i].collection, i)|
  }

  /** The places before `n` of the diagnostics of one collection. */
  function InCollection(ds: seq<SourceDiagnostic>, c: Collection, n: nat): set<nat> {
    set j: nat | j < n && j < |ds| && ds[j].collection == c
  }

  /** A literal name, or one whose identity stands as a positive decimal between
      `\xfe"` ... `"pattern@` and nothing, or between `\xfe#` and `@#` ... */
  ghost predicate NameFields(name: Name, records: seq<Record>) {
    name.identity.None? ||
    var id := name.identity.value;
    && (exists n: nat :: Reconstructs(name.raw, id, n))
    && if id.kind.OfNode? then
         && [0xfe, 34] <= id.prefix && |id.prefix| >= 9
         && id.prefix[|id.prefix| - 9..] == [34, 112, 97, 116, 116, 101, 114, 110, 64]
         && id.suffix == [] && Known(records, NodeKind, id.target)
       else id.kind.OfSymbol? && id.prefix == [0xfe, 35] && [64, 35] <= id.suffix && Known(records, SymbolKind, id.target)
  }

  /** Byte strings in lexicographic order. */
  ghost predicate Before(a: seq<Byte>, b: seq<Byte>) {
    exists k | 0 <= k <= |a| && k < |b| :: a[..k] == b[..k] && (k == |a| || a[k] < b[k])
  }

  ghost predicate SyntaxField(field: Field, expected: (string, Category), records: seq<Record>) {
    && field.name == expected.0 && field.category == expected.1
    && match field.category
       case AsNode => field.value.Reference? && Ref(records, NodeKind, field.value.target)
       case AsList => field.value.Reference? && Ref(records, ListKind, field.value.target)
       case AsModifiers => field.value.Reference? && Ref(records, ListKind, field.value.target)
       case AsNodes => field.value.Reference? && Ref(records, NodesKind, field.value.target)
       case AsStrings => field.value.Reference? && Ref(records, TextsKind, field.value.target)
       case AsScalar => field.value.Scalar?
       case AsCheckerType => field.value.Null?
  }

  ghost predicate FlowFields(id: int, data: FlowData, synthetic: Option<Synthetic>, records: seq<Record>) {
    match data
    case NoData => synthetic.None?
    case Ast(node) => synthetic.None? && Known(records, NodeKind, node)
    case Switch(clauses) =>
      && Ref(records, NodeKind, clauses)
      && synthetic.Some? && synthetic.value.ownerFlow == id && synthetic.value.payload.OwnSwitch?
      && Ref(records, NodeKind, synthetic.value.parent)
    case Reduce(target, antecedents) =>
      && Ref(records, FlowKind, target) && Ref(records, FlowListKind, antecedents)
      && synthetic.Some? && synthetic.value.ownerFlow == id && synthetic.value.payload.OwnReduce?
      && Ref(records, NodeKind, synthetic.value.parent)
  }

  /** What each kind of record owes, without the record's identity and backing. */
  ghost predicate FieldsOk(r: Record, records: seq<Record>, schema: Schema) {
    match r
    case Source(root, commonJs, externalModule, globalExports, patterns, diagnostics, _) =>
      && Known(records, NodeKind, root) && Ref(records, NodeKind, commonJs) && Ref(records, NodeKind, externalModule)
      && Ref(records, TableKind, globalExports) && Refs(records, SymbolKind, patterns)
      && (forall d <- diagnostics :: DiagnosticFields(d.diagnostic, records)) && InCollections(diagnostics)
    case Node(_, parent, symbol, localSymbol, locals, nextContainer, flowNode, endFlowNode, returnFlowNode, fallthroughFlowNode, jsdoc, payload, fields, _) =>
      && Ref(records, NodeKind, parent) && Ref(records, SymbolKind, symbol) && Ref(records, SymbolKind, localSymbol)
      && Ref(records, TableKind, locals) && Ref(records, NodeKind, nextContainer)
      && Ref(records, FlowKind, flowNode) && Ref(records, FlowKind, endFlowNode)
      && Ref(records, FlowKind, returnFlowNode) && Ref(records, FlowKind, fallthroughFlowNode)
      && (forall node <- jsdoc :: Known(records, NodeKind, node))
      && payload in schema && |fields| == |schema[payload]|
      && forall i | 0 <= i < |fields| :: SyntaxField(fields[i], schema[payload][i], records)
    case List(_, nodes, _) => Ref(records, NodesKind, nodes)
    case Nodes(_, values, _, _) => Refs(records, NodeKind, values)
    case Texts(_, _, _, _) => true
    case Symbol(_, name, declarations, valueDeclaration, members, exports, parent, exportSymbol, _) =>
      && NameFields(name, records)
      && Ref(records, DeclarationsKind, declarations) && Ref(records, NodeKind, valueDeclaration)
      && Ref(records, TableKind, members) && Ref(records, TableKind, exports)
      && Ref(records, SymbolKind, parent) && Ref(records, SymbolKind, exportSymbol)
    case Table(_, entries) =>
      && (forall entry <- entries :: NameFields(entry.0, records) && Ref(records, SymbolKind, entry.1))
      && forall i, j | 0 <= i < j < |entries| :: Before(entries[i].0.raw, entries[j].0.raw)
    case Declarations(_, values, capacity, capacityValues, _, _) =>
      && Refs(records, NodeKind, capacityValues)
      && |capacityValues| == capacity <= 0xFFFF_FFFF && |values| <= capacity && capacityValues[..|values|] == values
    case Flow(id, data, synthetic, antecedent, antecedents, _) =>
      && FlowFields(id, data, synthetic, records)
      && Ref(records, FlowKind, antecedent) && Ref(records, FlowListKind, antecedents)
    case FlowList(_, flow, next) => Ref(records, FlowKind, flow) && Ref(records, FlowListKind, next)
    case Counts(_) => true
    case Malformed => false
  }

  // --- edges are those fields ----------------------------------------------------------

  /** Identities are 1, 2, ... per kind: what it takes for a count to stand for the records. */
  ghost predicate Dense(records: seq<Record>) {
    forall d: Domain, id :: Present(records, d, id) <==> 1 <= id <= CountOf(d, records)
  }

  predicate Good(e: Edge, records: seq<Record>) {
    e.Legal() && e.target <= CountOf(e.domain, records)
  }

  predicate AllGood(edges: seq<Edge>, records: seq<Record>) {
    forall e <- edges :: Good(e, records)
  }

  lemma GoodJoin(a: seq<Edge>, b: seq<Edge>, records: seq<Record>)
    ensures AllGood(a + b, records) <==> AllGood(a, records) && AllGood(b, records)
  {
    hide Good;
    assert forall e <- a :: e in a + b;
    assert forall e <- b :: e in a + b;
  }

  lemma GoodIff(records: seq<Record>, d: Domain, target: int)
    requires Dense(records)
    ensures AllGood([May(d, target)], records) <==> Ref(records, d, target)
    ensures AllGood([Must(d, target)], records) <==> Known(records, d, target)
    ensures Good(May(d, target), records) <==> Ref(records, d, target)
    ensures Good(Must(d, target), records) <==> Known(records, d, target)
  {
    hide CountOf, Present;
    assert May(d, target) in [May(d, target)] && Must(d, target) in [Must(d, target)];
  }

  lemma GoodAll(records: seq<Record>, d: Domain, targets: seq<int>)
    requires Dense(records)
    ensures AllGood(MayAll(d, targets), records) <==> Refs(records, d, targets)
  {
    hide Good, Ref;
    var edges := MayAll(d, targets);
    forall k | 0 <= k < |targets|
      ensures Good(edges[k], records) <==> Ref(records, d, targets[k])
    {
      GoodIff(records, d, targets[k]);
    }
    if AllGood(edges, records) {
      assert forall k | 0 <= k < |targets| :: edges[k] in edges;
    }
    if Refs(records, d, targets) {
      assert forall k | 0 <= k < |targets| :: targets[k] in targets;
    }
  }

  lemma InCollectionNext(ds: seq<SourceDiagnostic>, c: Collection, n: nat)
    requires n < |ds|
    ensures |InCollection(ds, c, n + 1)| == |InCollection(ds, c, n)| + if ds[n].collection == c then 1 else 0
  {
    var before, all := InCollection(ds, c, n), InCollection(ds, c, n + 1);
    if ds[n].collection == c {
      assert all == before + {n};
    } else {
      assert all == before;
    }
  }

  lemma {:induction false} CollectionSize(c: Collection, ds: seq<SourceDiagnostic>, n: nat)
    requires n <= |ds|
    ensures CollectionCount(c, ds[..n]) == |InCollection(ds, c, n)|
  {
    if n > 0 {
      CollectionSize(c, ds, n - 1);
      InCollectionNext(ds, c, n - 1);
      assert ds[..n][..n - 1] == ds[..n - 1];
      hide InCollection;
    } else {
      assert InCollection(ds, c, 0) == {};
    }
  }

  lemma {:induction false} RanksAscend(ds: seq<SourceDiagnostic>, i: nat, j: nat)
    requires i < j < |ds| && DiagnosticsOrdered(ds)
    ensures MayPrecede(ds[i].collection, ds[j].collection)
    decreases j
  {
    hide CollectionCount;
    if i + 1 < j {
      RanksAscend(ds, i, j - 1);
    }
  }

  lemma OrderedIffCollections(ds: seq<SourceDiagnostic>)
    ensures DiagnosticsOrdered(ds) <==> InCollections(ds)
  {
    hide CollectionCount, InCollection;
    forall i | 0 <= i < |ds|
      ensures CollectionCount(ds[i].collection, ds[..i]) == |InCollection(ds, ds[i].collection, i)|
    {
      CollectionSize(ds[i].collection, ds, i);
    }
    if DiagnosticsOrdered(ds) {
      forall i, j | 0 <= i < j < |ds| ensures MayPrecede(ds[i].collection, ds[j].collection) {
        RanksAscend(ds, i, j);
      }
    }
    if InCollections(ds) {
      assert forall i | 0 < i < |ds| :: MayPrecede(ds[i - 1].collection, ds[i].collection);
    }
  }

  lemma DiagnosticEdgesOk(d: Diagnostic, records: seq<Record>)
    requires Dense(records)
    ensures AllGood(DiagnosticEdges(d), records) <==> DiagnosticFields(d, records)
    decreases d, 0
  {
    hide AllGood, Ref, Dense;
    match d {
      case NoDiagnostic =>
        NoneGood(records);
      case Diagnostic(file, chain, related) =>
        GoodJoin([May(NodeKind, file)] + DiagnosticListEdges(chain), DiagnosticListEdges(related), records);
        GoodJoin([May(NodeKind, file)], DiagnosticListEdges(chain), records);
        GoodIff(records, NodeKind, file);
        DiagnosticListOk(chain, records);
        DiagnosticListOk(related, records);
    }
  }

  lemma NoneGood(records: seq<Record>)
    ensures AllGood([], records)
  {
  }

  lemma DiagnosticListOk(ds: seq<Diagnostic>, records: seq<Record>)
    requires Dense(records)
    ensures AllGood(DiagnosticListEdges(ds), records) <==> forall d <- ds :: DiagnosticFields(d, records)
    decreases ds, 1
  {
    hide AllGood, DiagnosticFields, Dense;
    if ds == [] {
      NoneGood(records);
    } else {
      GoodJoin(DiagnosticEdges(ds[0]), DiagnosticListEdges(ds[1..]), records);
      DiagnosticEdgesOk(ds[0], records);
      DiagnosticListOk(ds[1..], records);
      assert ds == [ds[0]] + ds[1..];
    }
  }

  lemma {:induction false} SourceDiagnosticsOk(ds: seq<SourceDiagnostic>, records: seq<Record>)
    requires Dense(records)
    ensures AllGood(SourceDiagnosticEdges(ds), records) <==> forall d <- ds :: DiagnosticFields(d.diagnostic, records)
  {
    hide AllGood, DiagnosticFields, Dense;
    if ds == [] {
      NoneGood(records);
    } else {
      GoodJoin(DiagnosticEdges(ds[0].diagnostic), SourceDiagnosticEdges(ds[1..]), records);
      DiagnosticEdgesOk(ds[0].diagnostic, records);
      SourceDiagnosticsOk(ds[1..], records);
      assert ds == [ds[0]] + ds[1..];
    }
  }

  // --- names and tables -------------------------------------------------------------------------

  lemma NameFieldsIff(name: Name, records: seq<Record>)
    requires Dense(records)
    ensures NameOk(name) && AllGood(NameEdges(name), records) <==> NameFields(name, records)
  {
    hide AllGood, Dense, Reconstructs, Known;
    if name.identity.None? {
      NoneGood(records);
    } else {
      var id := name.identity.value;
      GoodIff(records, if id.kind.OfNode? then NodeKind else SymbolKind, id.target);
      NameOkIffReconstructs(name);
    }
  }

  lemma {:induction false} LessIffBefore(a: seq<Byte>, b: seq<Byte>)
    ensures BytesLess(a, b) <==> Before(a, b)
  {
    if b != [] && a != [] {
      LessIffBefore(a[1..], b[1..]);
      if BytesLess(a, b) {
        if a[0] < b[0] {
          assert a[..0] == b[..0];
        } else {
          var k :| 0 <= k <= |a[1..]| && k < |b[1..]| && a[1..][..k] == b[1..][..k] && (k == |a[1..]| || a[1..][k] < b[1..][k]);
          assert a[..k + 1] == [a[0]] + a[1..][..k] && b[..k + 1] == [b[0]] + b[1..][..k];
        }
      }
      if Before(a, b) {
        var k :| 0 <= k <= |a| && k < |b| && a[..k] == b[..k] && (k == |a| || a[k] < b[k]);
        if k > 0 {
          assert a[0] == a[..k][0] == b[..k][0] == b[0];
          assert a[1..][..k - 1] == a[..k][1..] && b[1..][..k - 1] == b[..k][1..];
        }
      }
    } else if b != [] {
      assert a[..0] == b[..0];
    }
  }

  lemma {:induction false} EntryEdgesOk(entries: seq<(Name, int)>, records: seq<Record>)
    requires Dense(records)
    ensures (forall entry <- entries :: NameOk(entry.0)) && AllGood(EntryEdges(entries), records) <==>
            forall entry <- entries :: NameFields(entry.0, records) && Ref(records, SymbolKind, entry.1)
  {
    hide AllGood, Dense, NameOk, NameEdges, NameFields, Ref;
    if entries == [] {
      NoneGood(records);
    } else {
      var first, rest := entries[0], entries[1..];
      assert entries == [first] + rest;
      NameFieldsIff(first.0, records);
      GoodIff(records, SymbolKind, first.1);
      GoodJoin(NameEdges(first.0) + [May(SymbolKind, first.1)], EntryEdges(rest), records);
      GoodJoin(NameEdges(first.0), [May(SymbolKind, first.1)], records);
      EntryEdgesOk(rest, records);
    }
  }

  lemma EntriesIff(entries: seq<(Name, int)>, records: seq<Record>)
    requires Dense(records)
    ensures EntriesOk(entries) && AllGood(EntryEdges(entries), records) <==>
            && (forall entry <- entries :: NameFields(entry.0, records) && Ref(records, SymbolKind, entry.1))
            && forall i, j | 0 <= i < j < |entries| :: Before(entries[i].0.raw, entries[j].0.raw)
  {
    hide AllGood, Dense, NameOk, NameEdges, NameFields, Ref, BytesLess, Before, EntryEdges;
    EntryEdgesOk(entries, records);
    forall i, j | 0 <= i < |entries| && 0 <= j < |entries|
      ensures BytesLess(entries[i].0.raw, entries[j].0.raw) <==> Before(entries[i].0.raw, entries[j].0.raw)
    {
      LessIffBefore(entries[i].0.raw, entries[j].0.raw);
    }
    if EntriesOk(entries) {
      forall i, j | 0 <= i < j < |entries| ensures BytesLess(entries[i].0.raw, entries[j].0.raw) {
        EntriesAscend(entries, i, j);
      }
      assert forall entry <- entries :: NameOk(entry.0);
    }
    if forall i, j | 0 <= i < j < |entries| :: Before(entries[i].0.raw, entries[j].0.raw) {
      assert forall i | 0 < i < |entries| :: Before(entries[i - 1].0.raw, entries[i].0.raw);
    }
  }

  // --- syntax fields and flow data ----------------------------------------------------------------

  lemma SyntaxFieldIff(field: Field, expected: (string, Category), records: seq<Record>)
    requires Dense(records)
    ensures FieldOk(field, expected) && AllGood(FieldEdges([field]), records) <==> SyntaxField(field, expected, records)
  {
    hide AllGood, Dense, Ref;
    NoneGood(records);
    var domain := CategoryDomain(field.category);
    assert FieldEdges([field][1..]) == [];
    assert FieldEdges([field]) ==
      (if domain.Some? && field.value.Reference? then [May(domain.value, field.value.target)] else []);
    hide FieldEdges;
    if field.value.Reference? {
      GoodIff(records, NodeKind, field.value.target);
      GoodIff(records, ListKind, field.value.target);
      GoodIff(records, NodesKind, field.value.target);
      GoodIff(records, TextsKind, field.value.target);
    }
    match field.category {
      case AsNode =>
      case AsList =>
      case AsModifiers =>
      case AsNodes =>
      case AsStrings =>
      case AsScalar =>
      case AsCheckerType =>
    }
  }

  lemma FieldEdgesCons(fields: seq<Field>)
    requires fields != []
    ensures FieldEdges(fields) == FieldEdges([fields[0]]) + FieldEdges(fields[1..])
  {
    assert FieldEdges([fields[0]][1..]) == [];
  }

  lemma {:induction false} SyntaxIff(fields: seq<Field>, expected: seq<(string, Category)>, records: seq<Record>)
    requires Dense(records) && |fields| == |expected|
    ensures (forall i | 0 <= i < |fields| :: FieldOk(fields[i], expected[i])) && AllGood(FieldEdges(fields), records) <==>
            forall i | 0 <= i < |fields| :: SyntaxField(fields[i], expected[i], records)
  {
    hide AllGood, Dense, FieldOk, SyntaxField, FieldEdges;
    if fields == [] {
      NoFieldEdges(records);
    } else {
      var rest, wanted := fields[1..], expected[1..];
      FieldEdgesCons(fields);
      SyntaxFieldIff(fields[0], expected[0], records);
      SyntaxIff(rest, wanted, records);
      GoodJoin(FieldEdges([fields[0]]), FieldEdges(rest), records);
      assert forall i | 0 < i < |fields| :: fields[i] == rest[i - 1] && expected[i] == wanted[i - 1];
      assert forall i | 0 <= i < |rest| :: rest[i] == fields[i + 1] && wanted[i] == expected[i + 1];
    }
  }

  lemma NoFieldEdges(records: seq<Record>)
    ensures AllGood(FieldEdges([]), records)
  {
  }

  lemma FlowIff(r: Record, records: seq<Record>, schema: Schema)
    requires Dense(records) && r.Flow?
    ensures LocalOk(r, schema) && AllGood(Edges(r), records) <==> FieldsOk(r, records, schema)
  {
    GoodLegal(r, records);
    hide AllGood, Dense, Ref, Known;
    var head := if r.synthetic.Some? then [May(NodeKind, r.synthetic.value.parent)] else [];
    var tail := [May(FlowKind, r.antecedent), May(FlowListKind, r.antecedents)];
    GoodJoin(head + FlowDataEdges(r.data), tail, records);
    GoodJoin(head, FlowDataEdges(r.data), records);
    NoneGood(records);
    if r.synthetic.Some? {
      GoodIff(records, NodeKind, r.synthetic.value.parent);
    }
    GoodTwo(May(FlowKind, r.antecedent), May(FlowListKind, r.antecedents), records);
    GoodIff(records, FlowKind, r.antecedent);
    GoodIff(records, FlowListKind, r.antecedents);
    match r.data {
      case NoData =>
      case Ast(node) =>
        GoodIff(records, NodeKind, node);
      case Switch(clauses) =>
        GoodIff(records, NodeKind, clauses);
      case Reduce(target, antecedents) =>
        GoodTwo(May(FlowKind, target), May(FlowListKind, antecedents), records);
        GoodIff(records, FlowKind, target);
        GoodIff(records, FlowListKind, antecedents);
    }
  }

  /** Good edges are legal. */
  lemma GoodLegal(r: Record, records: seq<Record>)
    ensures AllGood(Edges(r), records) ==> forall e <- Edges(r) :: e.Legal()
  {
    hide Edges;
  }

  lemma GoodTwo(a: Edge, b: Edge, records: seq<Record>)
    ensures AllGood([a, b], records) <==> AllGood([a], records) && AllGood([b], records)
  {
    hide AllGood;
    assert [a, b] == [a] + [b];
    GoodJoin([a], [b], records);
  }

  // --- every kind of record --------------------------------------------------------------------------

  lemma SourceIff(r: Record, records: seq<Record>, schema: Schema)
    requires Dense(records) && r.Source?
    ensures LocalOk(r, schema) && AllGood(Edges(r), records) <==> FieldsOk(r, records, schema)
  {
    GoodLegal(r, records);
    hide AllGood, Dense, Ref, Known, Refs, DiagnosticFields;
    var a, b := [Must(NodeKind, r.root), May(NodeKind, r.commonJs)], [May(NodeKind, r.externalModule), May(TableKind, r.globalExports)];
    var edges := a + b + MayAll(SymbolKind, r.patterns);
    assert Edges(r) == edges + SourceDiagnosticEdges(r.diagnostics);
    GoodJoin(edges, SourceDiagnosticEdges(r.diagnostics), records);
    GoodJoin(a + b, MayAll(SymbolKind, r.patterns), records);
    GoodJoin(a, b, records);
    GoodTwo(a[0], a[1], records);
    GoodTwo(b[0], b[1], records);
    GoodIff(records, NodeKind, r.root);
    GoodIff(records, NodeKind, r.commonJs);
    GoodIff(records, NodeKind, r.externalModule);
    GoodIff(records, TableKind, r.globalExports);
    GoodAll(records, SymbolKind, r.patterns);
    SourceDiagnosticsOk(r.diagnostics, records);
    OrderedIffCollections(r.diagnostics);
  }

  lemma GoodMust(records: seq<Record>, targets: seq<int>)
    requires Dense(records)
    ensures AllGood(seq(|targets|, i requires 0 <= i < |targets| => Must(NodeKind, targets[i])), records) <==>
            forall node <- targets :: Known(records, NodeKind, node)
  {
    hide Good, Known;
    var edges := seq(|targets|, i requires 0 <= i < |targets| => Must(NodeKind, targets[i]));
    forall k | 0 <= k < |targets|
      ensures Good(edges[k], records) <==> Known(records, NodeKind, targets[k])
    {
      GoodIff(records, NodeKind, targets[k]);
    }
    if AllGood(edges, records) {
      assert forall k | 0 <= k < |targets| :: edges[k] in edges;
    }
    if forall node <- targets :: Known(records, NodeKind, node) {
      assert forall k | 0 <= k < |targets| :: targets[k] in targets;
    }
  }

  lemma LinksIff(r: Record, records: seq<Record>)
    requires Dense(records) && r.Node?
    ensures var links := [May(NodeKind, r.parent), May(SymbolKind, r.symbol), May(SymbolKind, r.localSymbol), May(TableKind, r.locals),
                          May(NodeKind, r.nextContainer), May(FlowKind, r.flowNode), May(FlowKind, r.endFlowNode),
                          May(FlowKind, r.returnFlowNode), May(FlowKind, r.fallthroughFlowNode)];
            AllGood(links, records) <==>
              && Ref(records, NodeKind, r.parent) && Ref(records, SymbolKind, r.symbol) && Ref(records, SymbolKind, r.localSymbol)
              && Ref(records, TableKind, r.locals) && Ref(records, NodeKind, r.nextContainer)
              && Ref(records, FlowKind, r.flowNode) && Ref(records, FlowKind, r.endFlowNode)
              && Ref(records, FlowKind, r.returnFlowNode) && Ref(records, FlowKind, r.fallthroughFlowNode)
  {
    hide AllGood, Dense, Ref;
    var a, b := [May(NodeKind, r.parent), May(SymbolKind, r.symbol)], [May(SymbolKind, r.localSymbol), May(TableKind, r.locals)];
    var c, d := [May(NodeKind, r.nextContainer), May(FlowKind, r.flowNode)], [May(FlowKind, r.endFlowNode), May(FlowKind, r.returnFlowNode)];
    var e := [May(FlowKind, r.fallthroughFlowNode)];
    GoodJoin(a + b + c + d, e, records);
    GoodJoin(a + b + c, d, records);
    GoodJoin(a + b, c, records);
    GoodJoin(a, b, records);
    GoodTwo(a[0], a[1], records);
    GoodTwo(b[0], b[1], records);
    GoodTwo(c[0], c[1], records);
    GoodTwo(d[0], d[1], records);
    GoodIff(records, NodeKind, r.parent);
    GoodIff(records, SymbolKind, r.symbol);
    GoodIff(records, SymbolKind, r.localSymbol);
    GoodIff(records, TableKind, r.locals);
    GoodIff(records, NodeKind, r.nextContainer);
    GoodIff(records, FlowKind, r.flowNode);
    GoodIff(records, FlowKind, r.endFlowNode);
    GoodIff(records, FlowKind, r.returnFlowNode);
    GoodIff(records, FlowKind, r.fallthroughFlowNode);
    assert a + b + c + d + e == [a[0], a[1], b[0], b[1], c[0], c[1], d[0], d[1], e[0]];
  }

  lemma NodeIff(r: Record, records: seq<Record>, schema: Schema)
    requires Dense(records) && r.Node?
    ensures LocalOk(r, schema) && AllGood(Edges(r), records) <==> FieldsOk(r, records, schema)
  {
    GoodLegal(r, records);
    hide AllGood, Dense, Ref, Known, FieldEdges, FieldOk, SyntaxField;
    var links := [May(NodeKind, r.parent), May(SymbolKind, r.symbol), May(SymbolKind, r.localSymbol), May(TableKind, r.locals),
                  May(NodeKind, r.nextContainer), May(FlowKind, r.flowNode), May(FlowKind, r.endFlowNode),
                  May(FlowKind, r.returnFlowNode), May(FlowKind, r.fallthroughFlowNode)];
    var docs := seq(|r.jsdoc|, i requires 0 <= i < |r.jsdoc| => Must(NodeKind, r.jsdoc[i]));
    GoodJoin(links + docs, FieldEdges(r.fields), records);
    GoodJoin(links, docs, records);
    LinksIff(r, records);
    GoodMust(records, r.jsdoc);
    if r.payload in schema && |r.fields| == |schema[r.payload]| {
      SyntaxIff(r.fields, schema[r.payload], records);
    }
  }

  lemma SymbolIff(r: Record, records: seq<Record>, schema: Schema)
    requires Dense(records) && r.Symbol?
    ensures LocalOk(r, schema) && AllGood(Edges(r), records) <==> FieldsOk(r, records, schema)
  {
    GoodLegal(r, records);
    hide AllGood, Dense, Ref, NameOk, NameEdges, NameFields;
    var a, b := [May(DeclarationsKind, r.declarations), May(NodeKind, r.valueDeclaration)], [May(TableKind, r.members), May(TableKind, r.exports)];
    var c := [May(SymbolKind, r.parent), May(SymbolKind, r.exportSymbol)];
    assert Edges(r) == NameEdges(r.name) + (a + b + c);
    GoodJoin(NameEdges(r.name), a + b + c, records);
    GoodJoin(a + b, c, records);
    GoodJoin(a, b, records);
    GoodTwo(a[0], a[1], records);
    GoodTwo(b[0], b[1], records);
    GoodTwo(c[0], c[1], records);
    GoodIff(records, DeclarationsKind, r.declarations);
    GoodIff(records, NodeKind, r.valueDeclaration);
    GoodIff(records, TableKind, r.members);
    GoodIff(records, TableKind, r.exports);
    GoodIff(records, SymbolKind, r.parent);
    GoodIff(records, SymbolKind, r.exportSymbol);
    NameFieldsIff(r.name, records);
  }

  lemma SliceIff(r: Record, records: seq<Record>, schema: Schema)
    requires Dense(records) && (r.Nodes? || r.Texts? || r.Declarations?)
    ensures LocalOk(r, schema) && AllGood(Edges(r), records) <==> FieldsOk(r, records, schema)
  {
    GoodLegal(r, records);
    hide AllGood, Dense, Ref;
    NoneGood(records);
    if r.Nodes? {
      GoodAll(records, NodeKind, r.values);
    } else if r.Declarations? {
      GoodJoin(MayAll(NodeKind, r.values), MayAll(NodeKind, r.capacityValues), records);
      GoodAll(records, NodeKind, r.values);
      GoodAll(records, NodeKind, r.capacityValues);
      if |r.values| <= |r.capacityValues| && r.capacityValues[..|r.values|] == r.values {
        assert forall v <- r.values :: v in r.capacityValues;
      }
    }
  }

  lemma LinkIff(r: Record, records: seq<Record>, schema: Schema)
    requires Dense(records) && (r.List? || r.FlowList? || r.Table?)
    ensures LocalOk(r, schema) && AllGood(Edges(r), records) <==> FieldsOk(r, records, schema)
  {
    GoodLegal(r, records);
    hide AllGood, Dense, Ref, NameFields, Before, EntryEdges, EntriesOk;
    if r.List? {
      GoodIff(records, NodesKind, r.nodes);
    } else if r.Table? {
      EntriesIff(r.entries, records);
    } else {
      GoodTwo(May(FlowKind, r.flow), May(FlowListKind, r.next), records);
      GoodIff(records, FlowKind, r.flow);
      GoodIff(records, FlowListKind, r.next);
    }
  }

  /** The record's own checks and its edges are its fields. */
  lemma FieldsIff(r: Record, records: seq<Record>, schema: Schema)
    requires Dense(records) && (r.Source? || HasKind(r))
    ensures LocalOk(r, schema) && AllGood(Edges(r), records) <==> FieldsOk(r, records, schema)
  {
    hide Dense, LocalOk, AllGood, Edges, FieldsOk;
    if r.Source? {
      SourceIff(r, records, schema);
    } else if r.Node? {
      NodeIff(r, records, schema);
    } else if r.Symbol? {
      SymbolIff(r, records, schema);
    } else if r.Flow? {
      FlowIff(r, records, schema);
    } else if r.Nodes? || r.Texts? || r.Declarations? {
      SliceIff(r, records, schema);
    } else {
      LinkIff(r, records, schema);
    }
  }
}
