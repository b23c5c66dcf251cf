/** The numbered graph of one binder observation stage (`GraphValidator` in
    scripts/s07_binder.py): its records, one validation step, and what a closed
    graph is. */
module BinderGraph {
  import opened Results
  import opened BackingGroups
  import opened BinderNames

  const MAX_INT64 := 0x7FFF_FFFF_FFFF_FFFF
  const MAX_UINT32 := 0xFFFF_FFFF

  /** The nine numbered record kinds, which are also the edge domains. */
  datatype Domain =
    | NodeKind | ListKind | NodesKind | TextsKind | SymbolKind
    | TableKind | DeclarationsKind | FlowKind | FlowListKind

  const KINDS: set<Domain> :=
    {NodeKind, ListKind, NodesKind, TextsKind, SymbolKind, TableKind, DeclarationsKind, FlowKind, FlowListKind}

  datatype Category = AsNode | AsList | AsModifiers | AsNodes | AsStrings | AsScalar | AsCheckerType

  datatype FieldValue = Reference(target: int) | Scalar | Null

  /** One `[name, category, value]` entry of a node's syntax payload. */
  datatype Field = Field(name: string, category: Category, value: FieldValue)

  /** Payload name to the ordered fields the syntax schema gives it. */
  type Schema = map<string, seq<(string, Category)>>

  datatype Diagnostic = NoDiagnostic | Diagnostic(file: int, chain: seq<Diagnostic>, related: seq<Diagnostic>)

  datatype Collection = Parse | Js | JsDoc | Bind

  datatype SourceDiagnostic = SourceDiagnostic(collection: Collection, index: int, diagnostic: Diagnostic)

  datatype FlowData =
    | NoData
    | Ast(node: int)
    | Switch(clauses: int)
    | Reduce(target: int, antecedents: int)

  datatype Owner = OwnSwitch | OwnReduce

  datatype Synthetic = Synthetic(ownerFlow: int, payload: Owner, parent: int)

  /** An element of a shared slice: a node edge or a text. */
  datatype Cell = Link(target: int) | Text(bytes: seq<Byte>)

  /** A graph record. `detail` spells the fields that carry no edge: flags, kinds,
      positions, counts, and the scalars inside syntax fields, diagnostics, patterns
      and flow data. `Malformed` is one whose keys, JSON types or scalar ranges are wrong. */
  datatype Record =
    | Source(root: int, commonJs: int, externalModule: int, globalExports: int,
             patterns: seq<int>, diagnostics: seq<SourceDiagnostic>, detail: string)
    | Node(id: int, parent: int, symbol: int, localSymbol: int, locals: int, nextContainer: int,
           flowNode: int, endFlowNode: int, returnFlowNode: int, fallthroughFlowNode: int,
           jsdoc: seq<int>, payload: string, fields: seq<Field>, detail: string)
    | List(id: int, nodes: int, detail: string)
    | Nodes(id: int, values: seq<int>, group: int, start: int)
    | Texts(id: int, texts: seq<seq<Byte>>, group: int, start: int)
    | Symbol(id: int, name: Name, declarations: int, valueDeclaration: int, members: int,
             exports: int, parent: int, exportSymbol: int, detail: string)
    | Table(id: int, entries: seq<(Name, int)>)
    | Declarations(id: int, values: seq<int>, capacity: int, capacityValues: seq<int>, group: int, start: int)
    | Flow(id: int, data: FlowData, synthetic: Option<Synthetic>, antecedent: int, antecedents: int, detail: string)
    | FlowList(id: int, flow: int, next: int)
    | Counts(counts: map<Domain, int>)
    | Malformed
  {
    /** A record with an identity, which is every kind but the source, the counts and the malformed. */
    predicate Numbered() {
      !Source? && !Counts? && !Malformed?
    }

    function Kind(): Domain
      requires Numbered()
    {
      match this
      case Node(_, _, _, _, _, _, _, _, _, _, _, _, _, _) => NodeKind
      case List(_, _, _) => ListKind
      case Nodes(_, _, _, _) => NodesKind
      case Texts(_, _, _, _) => TextsKind
      case Symbol(_, _, _, _, _, _, _, _, _) => SymbolKind
      case Table(_, _) => TableKind
      case Declarations(_, _, _, _, _, _) => DeclarationsKind
      case Flow(_, _, _, _, _, _) => FlowKind
      case FlowList(_, _, _) => FlowListKind
    }

    predicate Backed() {
      Nodes? || Texts? || Declarations?
    }

    /** The visible range: a declaration list shares its whole capacity. */
    function Cells(): seq<Cell>
      requires Backed()
    {
      match this
      case Nodes(_, values, _, _) => Links(values)
      case Texts(_, texts, _, _) => seq(|texts|, i requires 0 <= i < |texts| => Text(texts[i]))
      case Declarations(_, _, _, capacityValues, _, _) => Links(capacityValues)
    }
  }

  function Links(values: seq<int>): (cells: seq<Cell>)
    ensures |cells| == |values|
  {
    seq(|values|, i requires 0 <= i < |values| => Link(values[i]))
  }

  // --- edges ------------------------------------------------------------------

  datatype Edge = Edge(domain: Domain, target: int, required: bool)
  {
    /** The checks of `ref`: an unsigned identity, and not nil where nil has no meaning. */
    predicate Legal() {
      0 <= target <= MAX_INT64 && (required ==> target != 0)
    }
  }

  function May(domain: Domain, target: int): Edge {
    Edge(domain, target, false)
  }

  function Must(domain: Domain, target: int): Edge {
    Edge(domain, target, true)
  }

  function MayAll(domain: Domain, targets: seq<int>): seq<Edge> {
    seq(|targets|, i requires 0 <= i < |targets| => May(domain, targets[i]))
  }

  function DiagnosticEdges(d: Diagnostic): seq<Edge>
    decreases d, 0
  {
    match d
    case NoDiagnostic => []
    case Diagnostic(file, chain, related) =>
      [May(NodeKind, file)] + DiagnosticListEdges(chain) + DiagnosticListEdges(related)
  }

  function DiagnosticListEdges(ds: seq<Diagnostic>): seq<Edge>
    decreases ds, 1
  {
    if ds == [] then [] else DiagnosticEdges(ds[0]) + DiagnosticListEdges(ds[1..])
  }

  function SourceDiagnosticEdges(ds: seq<SourceDiagnostic>): seq<Edge> {
    if ds == [] then [] else DiagnosticEdges(ds[0].diagnostic) + SourceDiagnosticEdges(ds[1..])
  }

  function CategoryDomain(category: Category): Option<Domain> {
    match category
    case AsNode => Some(NodeKind)
    case AsList => Some(ListKind)
    case AsModifiers => Some(ListKind)
    case AsNodes => Some(NodesKind)
    case AsStrings => Some(TextsKind)
    case AsScalar => None
    case AsCheckerType => None
  }

  function FieldEdges(fields: seq<Field>): seq<Edge> {
    if fields == [] then []
    else
      var domain := CategoryDomain(fields[0].category);
      (if domain.Some? && fields[0].value.Reference? then [May(domain.value, fields[0].value.target)] else [])
      + FieldEdges(fields[1..])
  }

  function NameEdges(name: Name): seq<Edge> {
    match name.identity
    case None => []
    case Some(id) => [Must(if id.kind.OfNode? then NodeKind else SymbolKind, id.target)]
  }

  function EntryEdges(entries: seq<(Name, int)>): seq<Edge> {
    if entries == [] then []
    else NameEdges(entries[0].0) + [May(SymbolKind, entries[0].1)] + EntryEdges(entries[1..])
  }

  function FlowDataEdges(data: FlowData): seq<Edge> {
    match data
    case NoData => []
    case Ast(node) => [Must(NodeKind, node)]
    case Switch(clauses) => [May(NodeKind, clauses)]
    case Reduce(target, antecedents) => [May(FlowKind, target), May(FlowListKind, antecedents)]
  }

  /** Every edge `accept` hands to `ref` for this record. */
  function Edges(r: Record): seq<Edge> {
    match r
    case Source(root, commonJs, externalModule, globalExports, patterns, diagnostics, _) =>
      [Must(NodeKind, root), May(NodeKind, commonJs), May(NodeKind, externalModule), May(TableKind, globalExports)]
      + MayAll(SymbolKind, patterns) + SourceDiagnosticEdges(diagnostics)
    case Node(_, parent, symbol, localSymbol, locals, nextContainer, flowNode, endFlow, returnFlow, fallthrough, jsdoc, _, fields, _) =>
      [May(NodeKind, parent), May(SymbolKind, symbol), May(SymbolKind, localSymbol), May(TableKind, locals),
       May(NodeKind, nextContainer), May(FlowKind, flowNode), May(FlowKind, endFlow), May(FlowKind, returnFlow),
       May(FlowKind, fallthrough)]
      + seq(|jsdoc|, i requires 0 <= i < |jsdoc| => Must(NodeKind, jsdoc[i])) + FieldEdges(fields)
    case List(_, nodes, _) => [May(NodesKind, nodes)]
    case Nodes(_, values, _, _) => MayAll(NodeKind, values)
    case Texts(_, _, _, _) => []
    case Symbol(_, name, declarations, valueDeclaration, members, exports, parent, exportSymbol, _) =>
      NameEdges(name)
      + [May(DeclarationsKind, declarations), May(NodeKind, valueDeclaration), May(TableKind, members),
         May(TableKind, exports), May(SymbolKind, parent), May(SymbolKind, exportSymbol)]
    case Table(_, entries) => EntryEdges(entries)
    case Declarations(_, values, _, capacityValues, _, _) =>
      MayAll(NodeKind, values) + MayAll(NodeKind, capacityValues)
    case Flow(_, data, synthetic, antecedent, antecedents, _) =>
      (if synthetic.Some? then [May(NodeKind, synthetic.value.parent)] else [])
      + FlowDataEdges(data) + [May(FlowKind, antecedent), May(FlowListKind, antecedents)]
    case FlowList(_, flow, next) => [May(FlowKind, flow), May(FlowListKind, next)]
    case Counts(_) => []
    case Malformed => []
  }

  // --- what one record must satisfy on its own --------------------------------

  function Rank(c: Collection): nat {
    match c case Parse => 0 case Js => 1 case JsDoc => 2 case Bind => 3
  }

  function CollectionCount(c: Collection, ds: seq<SourceDiagnostic>): nat {
    if ds == [] then 0
    else CollectionCount(c, ds[..|ds| - 1]) + (if ds[|ds| - 1].collection == c then 1 else 0)
  }

  /** Diagnostics come collection by collection, each numbered from 0. */
  predicate DiagnosticsOrdered(ds: seq<SourceDiagnostic>) {
    forall i | 0 <= i < |ds| ::
      && ds[i].index == CollectionCount(ds[i].collection, ds[..i])
      && (i > 0 ==> Rank(ds[i - 1].collection) <= Rank(ds[i].collection))
  }

  predicate BytesLess(a: seq<Byte>, b: seq<Byte>) {
    b != [] && (a == [] || a[0] < b[0] || (a[0] == b[0] && BytesLess(a[1..], b[1..])))
  }

  predicate EntriesOk(entries: seq<(Name, int)>) {
    forall i | 0 <= i < |entries| ::
      && NameOk(entries[i].0)
      && (i > 0 ==> BytesLess(entries[i - 1].0.raw, entries[i].0.raw))
  }

  predicate FieldOk(field: Field, expected: (string, Category)) {
    && field.name == expected.0 && field.category == expected.1
    && match field.category
       case AsScalar => field.value.Scalar?
       case AsCheckerType => field.value.Null?
       case _ => field.value.Reference?
  }

  predicate PayloadOk(payload: string, fields: seq<Field>, schema: Schema) {
    && payload in schema
    && |fields| == |schema[payload]|
    && forall i | 0 <= i < |fields| :: FieldOk(fields[i], schema[payload][i])
  }

  /** Only switch and reduce data carry a synthetic identity, and it names its own flow record. */
  predicate SyntheticOk(id: int, data: FlowData, synthetic: Option<Synthetic>) {
    match data
    case Switch(_) => synthetic.Some? && synthetic.value.ownerFlow == id && synthetic.value.payload.OwnSwitch?
    case Reduce(_, _) => synthetic.Some? && synthetic.value.ownerFlow == id && synthetic.value.payload.OwnReduce?
    case _ => synthetic.None?
  }

  predicate CapacityOk(values: seq<int>, capacity: int, capacityValues: seq<int>) {
    |values| <= capacity <= MAX_UINT32 && |capacityValues| == capacity && values <= capacityValues
  }

  predicate LocalOk(r: Record, schema: Schema) {
    && (forall e <- Edges(r) :: e.Legal())
    && match r
       case Source(_, _, _, _, _, diagnostics, _) => DiagnosticsOrdered(diagnostics)
       case Node(_, _, _, _, _, _, _, _, _, _, _, payload, fields, _) => PayloadOk(payload, fields, schema)
       case Symbol(_, name, _, _, _, _, _, _, _) => NameOk(name)
       case Table(_, entries) => EntriesOk(entries)
       case Declarations(_, values, capacity, capacityValues, _, _) => CapacityOk(values, capacity, capacityValues)
       case Flow(id, data, synthetic, _, _, _) => SyntheticOk(id, data, synthetic)
       case _ => true
  }

  /** The backing identity against the groups already opened: an empty range
      has none, any other names an open group or opens the next number. */
  predicate GroupOk(r: Record, groups: set<int>)
    requires r.Backed()
  {
    && 0 <= r.group <= MAX_INT64 && 0 <= r.start <= MAX_INT64
    && if r.Cells() == [] then r.group == 0 == r.start
       else r.group != 0 && (r.group in groups || r.group == |groups| + 1)
  }

  // --- one step -----------------------------------------------------------------

  datatype GraphState = GraphState(
    counts: map<Domain, int>,
    references: seq<Edge>,
    source: bool,
    closed: bool,
    digested: seq<Record>,
    aliases: map<int, seq<Span<Cell>>>)

  const EMPTY: GraphState := GraphState(map d | d in KINDS :: 0, [], false, false, [], map[])

  function CountsOf(s: GraphState, d: Domain): int {
    if d in s.counts then s.counts[d] else 0
  }

  predicate Resolved(s: GraphState) {
    forall e <- s.references :: e.target <= CountsOf(s, e.domain)
  }

  function Alias(aliases: map<int, seq<Span<Cell>>>, r: Record): map<int, seq<Span<Cell>>>
    requires r.Backed() && 0 <= r.start
  {
    if r.Cells() == [] then aliases
    else
      var span := Span(r.start, r.Cells());
      aliases[r.group := (if r.group in aliases then aliases[r.group] else []) + [span]]
  }

  function AddSource(s: GraphState, r: Record): GraphState {
    s.(source := true, references := s.references + Edges(r), digested := s.digested + [r])
  }

  predicate SourceAllowed(s: GraphState, r: Record, schema: Schema) {
    !s.source && (forall d <- s.counts :: s.counts[d] == 0) && LocalOk(r, schema)
  }

  ghost predicate CountsAllowed(s: GraphState, r: Record)
    requires r.Counts?
  {
    s.source && r.counts == s.counts && Resolved(s) && forall g <- s.aliases :: Shared(s.aliases[g])
  }

  predicate NumberedAllowed(s: GraphState, r: Record, schema: Schema)
    requires r.Numbered()
  {
    && s.source
    && r.id == CountsOf(s, r.Kind()) + 1
    && LocalOk(r, schema)
    && (r.Backed() ==> GroupOk(r, s.aliases.Keys))
  }

  function AddNumbered(s: GraphState, r: Record): GraphState
    requires r.Numbered() && (r.Backed() ==> 0 <= r.start)
  {
    s.(counts := s.counts[r.Kind() := CountsOf(s, r.Kind()) + 1],
       references := s.references + Edges(r),
       digested := s.digested + [r],
       aliases := if r.Backed() then Alias(s.aliases, r) else s.aliases)
  }

  /** `GraphValidator.accept` as a function of the state it updates. */
  ghost function Step(s: GraphState, r: Record, schema: Schema): Verdict<GraphState> {
    if s.closed || r.Malformed? then Rejected
    else if r.Source? then
      if SourceAllowed(s, r, schema) then Accepted(AddSource(s, r)) else Rejected
    else if r.Counts? then
      if CountsAllowed(s, r) then Accepted(s.(closed := true, digested := s.digested + [r])) else Rejected
    else
      if NumberedAllowed(s, r, schema) then Accepted(AddNumbered(s, r)) else Rejected
  }

  ghost function Run(records: seq<Record>, schema: Schema): Verdict<GraphState> {
    if records == [] then Accepted(EMPTY)
    else
      var s :- Run(records[..|records| - 1], schema);
      Step(s, records[|records| - 1], schema)
  }

  // --- what a closed graph is, without the state ---------------------------------

  function CountOf(d: Domain, records: seq<Record>): nat {
    if records == [] then 0
    else
      var last := records[|records| - 1];
      CountOf(d, records[..|records| - 1]) + (if last.Numbered() && last.Kind() == d then 1 else 0)
  }

  function CountMap(records: seq<Record>): map<Domain, int> {
    map d | d in KINDS :: CountOf(d, records)
  }

  function AllEdges(records: seq<Record>): seq<Edge> {
    if records == [] then [] else AllEdges(records[..|records| - 1]) + Edges(records[|records| - 1])
  }

  /** The highest group number used, which is how many groups have appeared. */
  function Groups(records: seq<Record>): nat {
    if records == [] then 0
    else
      var earlier := Groups(records[..|records| - 1]);
      var last := records[|records| - 1];
      if last.Backed() && last.group > earlier then last.group else earlier
  }

  function SpansOf(g: int, records: seq<Record>): seq<Span<Cell>> {
    if records == [] then []
    else
      var last := records[|records| - 1];
      SpansOf(g, records[..|records| - 1])
      + (if last.Backed() && last.Cells() != [] && last.group == g && last.start >= 0 then [Span(last.start, last.Cells())] else [])
  }

  /** A record in its place after `earlier`: numbered next in its kind, its
      backing group already open or the next to open. */
  predicate Placed(r: Record, earlier: seq<Record>, schema: Schema) {
    && r.Numbered()
    && r.id == CountOf(r.Kind(), earlier) + 1
    && LocalOk(r, schema)
    && (r.Backed() ==>
          && 0 <= r.group <= MAX_INT64 && 0 <= r.start <= MAX_INT64
          && if r.Cells() == [] then r.group == 0 == r.start else 1 <= r.group <= Groups(earlier) + 1)
  }

  /** What the closing record states and checks about the whole graph. */
  ghost predicate Balanced(records: seq<Record>, counts: map<Domain, int>) {
    && counts == CountMap(records)
    && (forall e <- AllEdges(records) :: e.target <= CountOf(e.domain, records))
    && (forall g | 1 <= g <= Groups(records) :: Shared(SpansOf(g, records)))
  }

  ghost predicate ClosedGraph(records: seq<Record>, schema: Schema) {
    var last := |records| - 1;
    && last >= 1
    && records[0].Source? && LocalOk(records[0], schema)
    && (forall i | 0 < i < last :: Placed(records[i], records[..i], schema))
    && records[last].Counts? && Balanced(records, records[last].counts)
  }
}
