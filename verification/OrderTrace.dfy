/** Validation of creation traces (`validate_trace` in scripts/phase2_order_trace.py). */
module OrderTrace {
  import opened Results

  datatype Kind = TypeKind | SymbolKind

  datatype Ident = Ident(kind: Kind, owner: int, token: int)

  /** A comparison operand as the trace shows it. `observed` is false for a value
      marked unobserved; a missing or ill-typed declaration list is `None`. */
  datatype Operand = Operand(
    observed: bool,
    owner: int,
    token: int,
    semanticId: int,
    symbol: Option<Operand>,
    name: string,
    declarations: Option<seq<string>>,
    flags: int,
    objectFlags: int)

  datatype Site = Site(file: string, line: int)

  datatype Event =
    | Birth(kind: Kind, owner: int, token: int, semanticId: int, sites: seq<Site>)
    | Assignment(kind: Kind, owner: int, token: int, semanticId: int)
    | SortBegin(kind: Kind, operation: string, values: seq<Operand>)
    | SortEnd(kind: Kind, operation: string, values: seq<Operand>)
    | Fallback(kind: Kind, left: Operand, right: Operand, sign: int, branch: string)
    | Malformed

  datatype Family = Family(kind: Kind, branch: string, leftFlags: int, rightFlags: int, leftObject: int, rightObject: int)

  datatype Tie = Tie(low: nat, high: nat, sign: int)

  datatype Frame = Frame(kind: Kind, operation: string, ids: seq<Ident>)

  /** What the request asks about: the operands of one kind, and the fallback
      branch that has to be taken between two of them. */
  datatype Witness = Witness(kind: Kind, operands: seq<Operand>, queries: nat, requiredBranch: string, reverseMapped: bool)

  datatype State = State(
    births: set<Ident>,
    current: map<Ident, int>,
    families: set<Family>,
    sorts: seq<Frame>,
    ties: set<Tie>)

  datatype Summary = Summary(ties: set<Tie>, families: set<Family>, births: nat, events: nat)

  const BRANCHES: set<string> := {"final_type_id", "declarationless", "equal_first_declaration"}

  // --- one event ---------------------------------------------------------------------------------

  function IdentOf(value: Operand, kind: Kind): Ident {
    Ident(kind, value.owner, value.token)
  }

  function Sign(n: int): int {
    if n > 0 then 1 else if n < 0 then -1 else 0
  }

  /** The id an identity carries at this point; an unknown one carries none. */
  function Carried(current: map<Ident, int>, ident: Ident): int {
    if ident in current then current[ident] else 0
  }

  predicate SnapshotOk(births: set<Ident>, current: map<Ident, int>, value: Operand, kind: Kind) {
    var ident := IdentOf(value, kind);
    && value.observed
    && value.token > 0
    && ident in births
    && value.semanticId >= 0
    && value.semanticId == Carried(current, ident)
    && (kind == TypeKind && value.symbol.Some? ==> SnapshotOk(births, current, value.symbol.value, SymbolKind))
    && (kind == SymbolKind ==> value.declarations.Some?)
  }

  predicate BirthOk(event: Event)
    requires event.Birth?
  {
    && event.token > 0
    && event.sites != []
    && (forall site <- event.sites :: site.file != "" && site.line > 0)
    && event.semanticId >= 0
    && (event.kind == TypeKind ==> event.semanticId == event.token)
    && (event.kind == SymbolKind ==> event.semanticId == 0)
  }

  /** The declarations two symbols show agree with the branch reported for them. */
  predicate SymbolsTie(a: Operand, b: Operand, branch: string)
    requires a.declarations.Some? && b.declarations.Some?
  {
    var x, y := a.declarations.value, b.declarations.value;
    && a.name == b.name
    && (branch == "declarationless" ==> x == [] && y == [])
    && (branch == "equal_first_declaration" ==> x != [] && y != [] && x[0] == y[0])
  }

  predicate FallbackOk(event: Event)
    requires event.Fallback?
    requires event.kind == SymbolKind ==> event.left.declarations.Some? && event.right.declarations.Some?
  {
    && event.sign == Sign(event.left.semanticId - event.right.semanticId)
    && event.branch in BRANCHES
    && (event.kind == SymbolKind ==> SymbolsTie(event.left, event.right, event.branch))
  }

  function FamilyOf(event: Event): Family
    requires event.Fallback?
  {
    Family(event.kind, event.branch, event.left.flags, event.right.flags, event.left.objectFlags, event.right.objectFlags)
  }

  /** The witnessed tie an event contributes, lower label first. */
  function TieOf(labels: map<Ident, nat>, w: Witness, event: Event): Option<Tie> {
    if !event.Fallback? then None
    else
      var left, right := IdentOf(event.left, event.kind), IdentOf(event.right, event.kind);
      if event.kind == w.kind && left in labels && right in labels && left != right && event.branch == w.requiredBranch then
        var a, b := labels[left], labels[right];
        Some(if a < b then Tie(a, b, event.sign) else Tie(b, a, -event.sign))
      else None
  }

  function Idents(values: seq<Operand>, kind: Kind): (ids: seq<Ident>)
    ensures |ids| == |values|
    ensures forall k | 0 <= k < |values| :: ids[k] == IdentOf(values[k], kind)
  {
    seq(|values|, k requires 0 <= k < |values| => IdentOf(values[k], kind))
  }

  function FrameOf(event: Event): Frame
    requires event.SortBegin? || event.SortEnd?
  {
    Frame(event.kind, event.operation, Idents(event.values, event.kind))
  }

  predicate Permutes(a: Frame, b: Frame) {
    a.kind == b.kind && a.operation == b.operation && multiset(a.ids) == multiset(b.ids)
  }

  function Step(labels: map<Ident, nat>, w: Witness, s: State, event: Event): Verdict<State> {
    match event
    case Birth(kind, owner, token, id, _) =>
      var ident := Ident(kind, owner, token);
      if ident in s.births || !BirthOk(event) then Rejected
      else Accepted(s.(births := s.births + {ident}, current := s.current[ident := id]))
    case Assignment(kind, owner, token, id) =>
      var ident := Ident(kind, owner, token);
      if token <= 0 || kind != SymbolKind || ident !in s.births || Carried(s.current, ident) != 0 || id <= 0 then Rejected
      else Accepted(s.(current := s.current[ident := id]))
    case SortBegin(kind, _, values) =>
      if exists v <- values :: !SnapshotOk(s.births, s.current, v, kind) then Rejected
      else Accepted(s.(sorts := s.sorts + [FrameOf(event)]))
    case SortEnd(kind, _, values) =>
      if exists v <- values :: !SnapshotOk(s.births, s.current, v, kind) then Rejected
      else if s.sorts == [] || !Permutes(s.sorts[|s.sorts| - 1], FrameOf(event)) then Rejected
      else Accepted(s.(sorts := s.sorts[..|s.sorts| - 1]))
    case Fallback(kind, left, right, _, _) =>
      if !SnapshotOk(s.births, s.current, left, kind) || !SnapshotOk(s.births, s.current, right, kind) then Rejected
      else if !FallbackOk(event) then Rejected
      else
        var tie := TieOf(labels, w, event);
        Accepted(s.(families := s.families + {FamilyOf(event)}, ties := if tie.Some? then s.ties + {tie.value} else s.ties))
    case Malformed => Rejected
  }

  const EMPTY := State({}, map[], {}, [], {})

  function Run(labels: map<Ident, nat>, w: Witness, events: seq<Event>): Verdict<State> {
    if events == [] then Accepted(EMPTY)
    else
      var s :- Run(labels, w, events[..|events| - 1]);
      Step(labels, w, s, events[|events| - 1])
  }

  // --- the whole validation --------------------------------------------------------------------------

  /** The operands' labels; a repeated operand keeps its last position. */
  function Labels(operands: seq<Operand>, kind: Kind): map<Ident, nat> {
    if operands == [] then map[]
    else
      var last := |operands| - 1;
      Labels(operands[..last], kind)[IdentOf(operands[last], kind) := last]
  }

  predicate OperandsOk(w: Witness) {
    (forall v <- w.operands :: v.token > 0) && |Labels(w.operands, w.kind)| == w.queries
  }

  /** Bit 10 of the object flags, for negative flags as well. */
  predicate ReverseMapped(v: Operand) {
    v.objectFlags / 1024 % 2 == 1
  }

  function Validate(w: Witness, events: seq<Event>): Verdict<Summary> {
    if events == [] || !OperandsOk(w) then Rejected
    else
      var s :- Run(Labels(w.operands, w.kind), w, events);
      if s.sorts != [] || s.ties == {} then Rejected
      else if w.reverseMapped && exists v <- w.operands :: !ReverseMapped(v) then Rejected
      else Accepted(Summary(s.ties, s.families, |s.births|, |events|))
  }

  lemma {:induction false} RejectedStays(labels: map<Ident, nat>, w: Witness, events: seq<Event>, n: nat)
    requires n <= |events| && Run(labels, w, events[..n]).Rejected?
    ensures Run(labels, w, events).Rejected?
    decreases |events|
  {
    hide Step;
    if n < |events| {
      assert events[..|events| - 1][..n] == events[..n];
      RejectedStays(labels, w, events[..|events| - 1], n);
    } else {
      assert events[..n] == events;
    }
  }

  method ValidateTrace(w: Witness, events: seq<Event>) returns (r: Verdict<Summary>)
    ensures r == Validate(w, events)
  {
    hide Step;
    if events == [] {
      return Rejected;
    }
    var labels: map<Ident, nat> := map[];
    for i := 0 to |w.operands|
      invariant forall k | 0 <= k < i :: w.operands[k].token > 0
      invariant labels == Labels(w.operands[..i], w.kind)
    {
      if w.operands[i].token <= 0 {
        assert w.operands[i] in w.operands;
        return Rejected;
      }
      assert w.operands[..i + 1][..i] == w.operands[..i];
      labels := labels[IdentOf(w.operands[i], w.kind) := i];
    }
    assert w.operands[..|w.operands|] == w.operands;
    if |labels| != w.queries {
      return Rejected;
    }
    var births: set<Ident> := {};
    var current: map<Ident, int> := map[];
    var families: set<Family> := {};
    var sorts: seq<Frame> := [];
    var ties: set<Tie> := {};
    for i := 0 to |events|
      invariant Run(labels, w, events[..i]) == Accepted(State(births, current, families, sorts, ties))
    {
      assert events[..i + 1][..i] == events[..i];
      var s := State(births, current, families, sorts, ties);
      var next := Observe(labels, w, s, events[i]);
      if next.Rejected? {
        RejectedStays(labels, w, events, i + 1);
        return Rejected;
      }
      births, current, families := next.value.births, next.value.current, next.value.families;
      sorts, ties := next.value.sorts, next.value.ties;
    }
    assert events[..|events|] == events;
    if sorts != [] || ties == {} {
      return Rejected;
    }
    if w.reverseMapped && exists v <- w.operands :: !ReverseMapped(v) {
      return Rejected;
    }
    return Accepted(Summary(ties, families, |births|, |events|));
  }

  /** The body of the loop. */
  method Observe(labels: map<Ident, nat>, w: Witness, s: State, event: Event) returns (r: Verdict<State>)
    ensures r == Step(labels, w, s, event)
  {
    var births, current, families, sorts, ties := s.births, s.current, s.families, s.sorts, s.ties;
    match event {
      case Birth(kind, owner, token, id, sites) =>
        var ident := Ident(kind, owner, token);
        if token <= 0 || ident in births || sites == [] || exists site <- sites :: site.file == "" || site.line <= 0 {
          return Rejected;
        }
        births := births + {ident};
        current := current[ident := id];
        if current[ident] < 0 || (kind == TypeKind && current[ident] != token) || (kind == SymbolKind && current[ident] != 0) {
          return Rejected;
        }
      case Assignment(kind, owner, token, id) =>
        var ident := Ident(kind, owner, token);
        if token <= 0 || kind != SymbolKind || ident !in births || Carried(current, ident) != 0 || id <= 0 {
          return Rejected;
        }
        current := current[ident := id];
      case SortBegin(kind, _, values) =>
        if exists v <- values :: !SnapshotOk(births, current, v, kind) {
          return Rejected;
        }
        sorts := sorts + [FrameOf(event)];
      case SortEnd(kind, _, values) =>
        if (exists v <- values :: !SnapshotOk(births, current, v, kind)) || sorts == [] {
          return Rejected;
        }
        var prior := sorts[|sorts| - 1];
        sorts := sorts[..|sorts| - 1];
        if !Permutes(prior, FrameOf(event)) {
          return Rejected;
        }
      case Fallback(kind, left, right, sign, branch) =>
        if !SnapshotOk(births, current, left, kind) || !SnapshotOk(births, current, right, kind) {
          return Rejected;
        }
        if !FallbackOk(event) {
          return Rejected;
        }
        families := families + {FamilyOf(event)};
        var a, b := IdentOf(left, kind), IdentOf(right, kind);
        if kind == w.kind && a in labels && b in labels && a != b && branch == w.requiredBranch {
          var low, high := if labels[a] < labels[b] then labels[a] else labels[b], if labels[a] < labels[b] then labels[b] else labels[a];
          ties := ties + {Tie(low, high, if labels[a] < labels[b] then sign else -sign)};
        }
      case Malformed =>
        return Rejected;
    }
    return Accepted(State(births, current, families, sorts, ties));
  }
}
