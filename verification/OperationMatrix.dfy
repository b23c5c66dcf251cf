/** The operation matrix: how `create` (scripts/s07_operations.py) assembles it and
    how `validate_document` (scripts/s07_operation_validation.py) re-checks it. */
module OperationMatrix {
  import opened Results
  import opened OperationGraph

  datatype Spec = Spec(id: string, roots: seq<Id>)

  /** A recorded call, tagged with the operation it was found under. */
  datatype Recorded = Recorded(operation: string, call: Call)

  datatype Operation = Operation(id: string, roots: seq<Id>, source: set<Id>, generated: set<Id>, excluded: map<Id, string>)
  {
    function Required(): set<Id> {
      source + generated
    }

    function Declared(): set<Id> {
      source + generated + excluded.Keys
    }
  }

  datatype Document = Document(
    functions: map<Id, FunctionKind>,
    operations: seq<Operation>,
    calls: seq<Recorded>,
    boundaries: seq<Recorded>,
    dynamic: seq<Recorded>,
    unresolved: seq<Recorded>,
    initializers: seq<Initializer>,
    unresolvedInitializers: seq<Initializer>)

  // --- assembling ------------------------------------------------------------------------

  function Tag(operation: string, calls: seq<Call>): (r: seq<Recorded>)
    ensures |r| == |calls|
  {
    seq(|calls|, i requires 0 <= i < |calls| => Recorded(operation, calls[i]))
  }

  function OfKind(p: Program, ids: set<Id>, kind: FunctionKind): set<Id> {
    set id | id in ids && p.KindOf(id) == kind
  }

  function OperationOf(p: Program, spec: Spec, t: Trace): Operation {
    Operation(spec.id, spec.roots, OfKind(p, t.seen, SourceKind), OfKind(p, t.seen, GeneratedKind), t.omitted)
  }

  ghost predicate TraceOf(p: Program, spec: Spec, t: Trace) {
    && LeastClosed(p, spec.roots, t.seen + t.omitted.Keys)
    && (forall id <- t.seen :: id !in p.excluded)
    && (forall id <- t.omitted :: id in p.excluded && t.omitted[id] == p.excluded[id])
    && t.seen <= p.functions
    && exists order :: Visits(order, t.seen) && Families(p, t, order)
  }

  function TagAll(specs: seq<Spec>, traces: seq<Trace>, family: Family): seq<Recorded>
    requires |specs| == |traces|
  {
    if specs == [] then []
    else
      var n := |specs| - 1;
      var t := traces[n];
      TagAll(specs[..n], traces[..n], family)
      + Tag(specs[n].id, match family case Static => t.calls case Boundary => t.boundaries
                                      case Dynamic => t.dynamic case Unresolved => t.unresolved)
  }

  function Touched(traces: seq<Trace>): set<Id> {
    if traces == [] then {}
    else Touched(traces[..|traces| - 1]) + traces[|traces| - 1].seen + traces[|traces| - 1].omitted.Keys
  }

  function Operations(p: Program, specs: seq<Spec>, traces: seq<Trace>): (r: seq<Operation>)
    requires |specs| == |traces|
    ensures |r| == |specs|
  {
    seq(|specs|, i requires 0 <= i < |specs| => OperationOf(p, specs[i], traces[i]))
  }

  /** What the traces contribute. */
  function Gathered(p: Program, specs: seq<Spec>, traces: seq<Trace>): Document
    requires |specs| == |traces|
  {
    Document(map id | id in Touched(traces) :: p.KindOf(id), Operations(p, specs, traces),
             TagAll(specs, traces, Static), TagAll(specs, traces, Boundary),
             TagAll(specs, traces, Dynamic), TagAll(specs, traces, Unresolved), [], [])
  }

  /** A static project call in an initialiser that no function is known for. */
  predicate Blocked(c: Initializer) {
    !c.dynamic && c.callee.None? && c.project && !c.interface
  }

  function BlockedOf(calls: seq<Initializer>): seq<Initializer> {
    if calls == [] then []
    else BlockedOf(calls[..|calls| - 1]) + if Blocked(calls[|calls| - 1]) then [calls[|calls| - 1]] else []
  }

  function Assemble(p: Program, specs: seq<Spec>, traces: seq<Trace>): Document
    requires |specs| == |traces|
  {
    Gathered(p, specs, traces).(initializers := p.initializers, unresolvedInitializers := BlockedOf(p.initializers))
  }

  predicate RootsKnown(p: Program, specs: seq<Spec>) {
    forall spec <- specs :: forall root <- spec.roots :: root in p.functions
  }

  /** The document after the first specifications, with every trace it came from. */
  ghost predicate Assembling(p: Program, specs: seq<Spec>, traces: seq<Trace>) {
    && |traces| == |specs| && RootsKnown(p, specs)
    && (forall i | 0 <= i < |specs| :: TraceOf(p, specs[i], traces[i]))
    && (forall t <- traces :: Listed(p, t))
  }

  /** The ledger lists the file of every required function. */
  predicate Listed(p: Program, t: Trace) {
    forall id <- t.seen :: !p.KindOf(id).Unlisted?
  }

  lemma AssemblingNext(p: Program, specs: seq<Spec>, traces: seq<Trace>, spec: Spec, t: Trace)
    requires Assembling(p, specs, traces) && TraceOf(p, spec, t) && Listed(p, t)
    requires forall root <- spec.roots :: root in p.functions
    ensures Assembling(p, specs + [spec], traces + [t])
  {
    hide TraceOf, Listed;
  }

  /** `create`: raises on an unknown root, or on a required function whose file the ledger does not list. */
  method Create(p: Program, specs: seq<Spec>) returns (r: Verdict<Document>, ghost traces: seq<Trace>)
    requires p.Valid()
    ensures r.Accepted? ==> Assembling(p, specs, traces) && r.value == Assemble(p, specs, traces)
    ensures r.Rejected? ==>
              !RootsKnown(p, specs) || exists spec <- specs, t :: TraceOf(p, spec, t) && !Listed(p, t)
  {
    hide LeastClosed, Families, Visits, TraceOf, Assembling, Blocked, OperationOf, Operations, TagAll, Touched, Gathered;
    traces := [];
    var d := Document(map[], [], [], [], [], [], [], []);
    AssembleNothing(p, specs);
    for i := 0 to |specs|
      invariant Assembling(p, specs[..i], traces) && |traces| == i
      invariant d == Gathered(p, specs[..i], traces)
    {
      var spec := specs[i];
      assert spec in specs;
      if exists root <- spec.roots :: root !in p.functions {
        return Rejected, traces;
      }
      var t, order := TraceOperation(p, spec.roots);
      assert TraceOf(p, spec, t) by { TraceIs(p, spec, t, order); }
      if !Listed(p, t) {
        return Rejected, traces;
      }
      assert specs[..i + 1] == specs[..i] + [spec];
      AssemblingNext(p, specs[..i], traces, spec, t);
      DocumentNext(p, specs[..i], traces, spec, t);
      traces := traces + [t];
      d := AddTrace(p, d, spec, t);
    }
    assert specs[..|specs|] == specs;
    var blocked: seq<Initializer> := [];
    for i := 0 to |p.initializers|
      invariant blocked == BlockedOf(p.initializers[..i])
    {
      assert p.initializers[..i + 1][..i] == p.initializers[..i];
      if Blocked(p.initializers[i]) {
        blocked := blocked + [p.initializers[i]];
      }
    }
    assert p.initializers[..|p.initializers|] == p.initializers;
    r := Accepted(d.(initializers := p.initializers, unresolvedInitializers := blocked));
  }

  /** What one operation adds to the document. */
  function AddTrace(p: Program, d: Document, spec: Spec, t: Trace): Document {
    Document(d.functions + (map id | id in t.seen + t.omitted.Keys :: p.KindOf(id)),
             d.operations + [OperationOf(p, spec, t)],
             d.calls + Tag(spec.id, t.calls), d.boundaries + Tag(spec.id, t.boundaries),
             d.dynamic + Tag(spec.id, t.dynamic), d.unresolved + Tag(spec.id, t.unresolved),
             d.initializers, d.unresolvedInitializers)
  }

  lemma TraceIs(p: Program, spec: Spec, t: Trace, order: seq<Id>)
    requires LeastClosed(p, spec.roots, t.seen + t.omitted.Keys)
    requires (forall id <- t.seen :: id !in p.excluded) && t.seen <= p.functions
    requires forall id <- t.omitted :: id in p.excluded && t.omitted[id] == p.excluded[id]
    requires Visits(order, t.seen) && Families(p, t, order)
    ensures TraceOf(p, spec, t)
  {
    hide LeastClosed, Visits, Families;
  }

  lemma AssembleNothing(p: Program, specs: seq<Spec>)
    ensures Assembling(p, specs[..0], []) && Gathered(p, specs[..0], []) == Document(map[], [], [], [], [], [], [], [])
  {
    assert specs[..0] == [];
  }

  lemma DocumentNext(p: Program, specs: seq<Spec>, traces: seq<Trace>, spec: Spec, t: Trace)
    requires |specs| == |traces|
    ensures Gathered(p, specs + [spec], traces + [t]) == AddTrace(p, Gathered(p, specs, traces), spec, t)
  {
    hide OperationOf, Operations, TagAll, Touched, Tag;
    AssembleNext(p, specs, traces, spec, t);
  }

  lemma AssembleNext(p: Program, specs: seq<Spec>, traces: seq<Trace>, spec: Spec, t: Trace)
    requires |specs| == |traces|
    ensures Operations(p, specs + [spec], traces + [t]) == Operations(p, specs, traces) + [OperationOf(p, spec, t)]
    ensures Touched(traces + [t]) == Touched(traces) + t.seen + t.omitted.Keys
    ensures forall family :: TagAll(specs + [spec], traces + [t], family) == TagAll(specs, traces, family)
              + Tag(spec.id, match family case Static => t.calls case Boundary => t.boundaries
                                          case Dynamic => t.dynamic case Unresolved => t.unresolved)
  {
    hide OperationOf, Tag;
    assert (specs + [spec])[..|specs|] == specs && (traces + [t])[..|traces|] == traces;
  }

  // --- re-checking -----------------------------------------------------------------------------

  /** The recorded calls of one operation lead from its required functions to declared ones. */
  predicate Leads(d: Document, op: Operation, id: Id, next: Id) {
    && id !in op.excluded && next in op.Declared()
    && exists r <- d.calls :: r.operation == op.id && r.call.caller == id && r.call.callee == Some(next)
  }

  ghost predicate RecordedClosed(d: Document, op: Operation, s: set<Id>) {
    && (forall root <- op.roots :: root in s)
    && (forall id, next | id in s && Leads(d, op, id, next) :: next in s)
  }

  /** The rooted closure of the recorded edges. */
  ghost predicate RootedClosure(d: Document, op: Operation, s: set<Id>) {
    RecordedClosed(d, op, s) && forall other | RecordedClosed(d, op, other) :: s <= other
  }

  predicate CallsLead(d: Document, op: Operation) {
    forall r <- d.calls | r.operation == op.id ::
      && r.call.caller in op.Required()
      && r.call.callee.Some?
      && (r.call.callee.value in op.Declared()
          || exists b <- d.boundaries :: b.operation == op.id && b.call.caller == r.call.caller && b.call.callee == r.call.callee)
  }

  predicate CallersRequired(records: seq<Recorded>, op: Operation) {
    forall r <- records | r.operation == op.id :: r.call.caller in op.Required()
  }

  predicate KindsOk(d: Document, op: Operation) {
    && (forall id <- op.source :: id in d.functions && d.functions[id] == SourceKind)
    && (forall id <- op.generated :: id in d.functions && d.functions[id] == GeneratedKind)
  }

  predicate ExclusionsOk(d: Document, op: Operation) {
    && (forall id <- op.excluded :: op.excluded[id] != "" && id in d.functions)
    && op.Required() !! op.excluded.Keys
  }

  /** The tables of the checked-out source that the document is held against. */
  predicate FunctionsOk(d: Document, p: Program) {
    forall id <- d.functions :: id in p.functions && !p.KindOf(id).Unlisted? && d.functions[id] == p.KindOf(id)
  }

  predicate FamiliesOk(d: Document, p: Program) {
    && (forall r <- d.calls :: r.call.caller in p.functions && !r.call.dynamic
                               && r.call.callee.Some? && r.call.callee.value in p.functions)
    && (forall r <- d.boundaries :: r.call.caller in p.functions
                               && !(r.call.callee.None? && r.call.project && !r.call.interface))
    && (forall r <- d.dynamic :: r.call.caller in p.functions && r.call.dynamic)
  }

  ghost predicate OperationOk(d: Document, op: Operation) {
    && KindsOk(d, op) && ExclusionsOk(d, op) && CallsLead(d, op)
    && RootedClosure(d, op, op.Declared())
    && CallersRequired(d.dynamic, op) && CallersRequired(d.boundaries, op)
  }

  function Owned(operations: seq<Operation>): set<Id> {
    if operations == [] then {} else Owned(operations[..|operations| - 1]) + operations[|operations| - 1].Declared()
  }

  predicate OperationsKnown(d: Document, specs: seq<Spec>) {
    forall r <- d.calls + d.boundaries + d.dynamic :: exists spec <- specs :: spec.id == r.operation
  }

  predicate SpecsMatch(d: Document, specs: seq<Spec>) {
    |d.operations| == |specs| &&
    forall i | 0 <= i < |specs| :: d.operations[i].id == specs[i].id && d.operations[i].roots == specs[i].roots
  }

  /** What a valid document is. */
  ghost predicate DocumentOk(d: Document, p: Program, specs: seq<Spec>) {
    && d.unresolved == [] && d.unresolvedInitializers == [] && d.functions.Keys != {}
    && FunctionsOk(d, p) && SpecsMatch(d, specs) && FamiliesOk(d, p)
    && (forall op <- d.operations :: OperationOk(d, op))
    && Owned(d.operations) == d.functions.Keys
    && OperationsKnown(d, specs)
    && forall c <- d.initializers :: c.anchored && !Blocked(c)
  }

  /** The successors the validator's own graph gives one function. */
  function Successors(d: Document, op: Operation, id: Id, calls: seq<Recorded>): seq<Id> {
    if calls == [] then []
    else
      var r := calls[|calls| - 1];
      Successors(d, op, id, calls[..|calls| - 1])
      + (if r.operation == op.id && r.call.caller == id && r.call.callee.Some? && r.call.callee.value in op.Declared()
         then [r.call.callee.value] else [])
  }

  lemma {:induction false} SuccessorsAre(d: Document, op: Operation, id: Id, calls: seq<Recorded>, next: Id)
    ensures next in Successors(d, op, id, calls) <==>
            next in op.Declared() && exists r <- calls :: r.operation == op.id && r.call.caller == id && r.call.callee == Some(next)
  {
    if calls != [] {
      var front := calls[..|calls| - 1];
      SuccessorsAre(d, op, id, front, next);
      assert calls == front + [calls[|calls| - 1]];
    }
  }

  /** What holds between two turns of the reachability loop. */
  ghost predicate Reaching(d: Document, op: Operation, reachable: set<Id>, pending: seq<Id>) {
    && (forall root <- op.roots :: root in reachable || root in pending)
    && (forall id, next | id in reachable && Leads(d, op, id, next) :: next in reachable || next in pending)
    && (forall s, id | RecordedClosed(d, op, s) && (id in reachable || id in pending) :: id in s)
  }

  lemma ReachSeen(d: Document, op: Operation, reachable: set<Id>, pending: seq<Id>)
    requires Reaching(d, op, reachable, pending) && pending != [] && pending[|pending| - 1] in reachable
    ensures Reaching(d, op, reachable, pending[..|pending| - 1])
  {
    hide Leads, RecordedClosed;
    Popped(pending);
  }

  lemma ReachNew(d: Document, op: Operation, reachable: set<Id>, pending: seq<Id>)
    requires Reaching(d, op, reachable, pending) && pending != []
    ensures var id := pending[|pending| - 1];
            Reaching(d, op, reachable + {id},
                     pending[..|pending| - 1] + (if id in op.excluded then [] else Successors(d, op, id, d.calls)))
  {
    hide RecordedClosed;
    Popped(pending);
    var id := pending[|pending| - 1];
    var rest := pending[..|pending| - 1] + (if id in op.excluded then [] else Successors(d, op, id, d.calls));
    forall next ensures Leads(d, op, id, next) <==> id !in op.excluded && next in Successors(d, op, id, d.calls) {
      SuccessorsAre(d, op, id, d.calls, next);
    }
    forall s, x | RecordedClosed(d, op, s) && (x in reachable + {id} || x in rest)
      ensures x in s
    {
      RecordedStep(d, op, s, id, x);
    }
  }

  lemma RecordedStep(d: Document, op: Operation, s: set<Id>, id: Id, next: Id)
    requires RecordedClosed(d, op, s)
    ensures id in s && Leads(d, op, id, next) ==> next in s
  {
  }

  lemma {:induction false} SuccessorsDeclared(d: Document, op: Operation, id: Id, calls: seq<Recorded>)
    ensures forall next <- Successors(d, op, id, calls) :: next in op.Declared()
  {
    if calls != [] {
      SuccessorsDeclared(d, op, id, calls[..|calls| - 1]);
    }
  }

  /** The validator's reachability loop finds the rooted closure of the recorded edges. */
  method ReachRecorded(d: Document, op: Operation) returns (reachable: set<Id>)
    ensures RootedClosure(d, op, reachable)
  {
    hide Leads, RecordedClosed, Successors;
    reachable := {};
    var pending := op.roots;
    ghost var all := op.Declared() + (set root | root in op.roots);
    assert Reaching(d, op, {}, pending) by { ReachStart(d, op); }
    while pending != []
      invariant Reaching(d, op, reachable, pending)
      invariant reachable <= all && forall id <- pending :: id in all
      decreases |all - reachable|, |pending|
    {
      var id := pending[|pending| - 1];
      var rest := pending[..|pending| - 1];
      assert id in pending;
      if id in reachable {
        ReachSeen(d, op, reachable, pending);
        pending := rest;
      } else {
        ReachNew(d, op, reachable, pending);
        SuccessorsDeclared(d, op, id, d.calls);
        assert all - (reachable + {id}) < all - reachable by {
          assert id in all - reachable;
        }
        SmallerSet(all - (reachable + {id}), all - reachable);
        reachable := reachable + {id};
        pending := rest + (if id in op.excluded then [] else Successors(d, op, id, d.calls));
      }
    }
    assert RecordedClosed(d, op, reachable) by { ReachEnd(d, op, reachable); }
  }

  lemma ReachStart(d: Document, op: Operation)
    ensures Reaching(d, op, {}, op.roots)
  {
  }

  lemma ReachEnd(d: Document, op: Operation, reachable: set<Id>)
    requires Reaching(d, op, reachable, [])
    ensures RecordedClosed(d, op, reachable)
  {
  }

  lemma RootedClosureUnique(d: Document, op: Operation, s: set<Id>, t: set<Id>)
    requires RootedClosure(d, op, s) && RootedClosure(d, op, t)
    ensures s == t
  {
    hide RecordedClosed;
  }

  /** `validate_document`: accepts exactly the documents in good order, and so
      rejects any whose declared functions differ from their rooted closure. */
  method ValidateDocument(d: Document, p: Program, specs: seq<Spec>) returns (ok: bool)
    ensures ok <==> DocumentOk(d, p, specs)
  {
    hide RootedClosure, KindsOk, ExclusionsOk, CallsLead, CallersRequired, FunctionsOk, FamiliesOk, SpecsMatch, OperationsKnown;
    if d.unresolved != [] || d.unresolvedInitializers != [] || d.functions.Keys == {} {
      return false;
    }
    if !FunctionsOk(d, p) || !SpecsMatch(d, specs) || !FamiliesOk(d, p) {
      return false;
    }
    var owned: set<Id> := {};
    assert d.operations[..0] == [];
    for i := 0 to |d.operations|
      invariant forall op <- d.operations[..i] :: OperationOk(d, op)
      invariant owned == Owned(d.operations[..i])
    {
      var op := d.operations[i];
      assert op in d.operations;
      assert d.operations[..i + 1] == d.operations[..i] + [op];
      if !KindsOk(d, op) || !ExclusionsOk(d, op) || !CallsLead(d, op) {
        return false;
      }
      var reachable := ReachRecorded(d, op);
      if RootedClosure(d, op, op.Declared()) {
        RootedClosureUnique(d, op, reachable, op.Declared());
      }
      if reachable != op.Declared() || !CallersRequired(d.dynamic, op) || !CallersRequired(d.boundaries, op) {
        return false;
      }
      owned := owned + op.Declared();
    }
    assert d.operations[..|d.operations|] == d.operations;
    if owned != d.functions.Keys || !OperationsKnown(d, specs) {
      return false;
    }
    for i := 0 to |d.initializers|
      invariant forall k | 0 <= k < i :: d.initializers[k].anchored && !Blocked(d.initializers[k])
    {
      if !d.initializers[i].anchored || Blocked(d.initializers[i]) {
        assert d.initializers[i] in d.initializers;
        return false;
      }
    }
    return true;
  }
}
