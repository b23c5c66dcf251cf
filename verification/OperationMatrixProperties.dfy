/** The validator agrees with the generator, and exactly when it can. */
module OperationMatrixProperties {
  import opened Results
  import opened OperationGraph
  import opened OperationMatrix

  lemma {:induction false} SelectMember(p: Program, family: Family, calls: seq<Call>, c: Call)
    ensures c in Select(p, family, calls) <==> c in calls && Belongs(p, family, c)
  {
    hide Belongs;
    if calls != [] {
      SelectMember(p, family, calls[..|calls| - 1], c);
      assert calls == calls[..|calls| - 1] + [calls[|calls| - 1]];
    }
  }

  lemma {:induction false} CollectMember(p: Program, family: Family, order: seq<Id>, c: Call)
    requires p.Valid()
    ensures c in Collect(p, family, order) <==> c.caller in order && c in p.CallsOf(c.caller) && Belongs(p, family, c)
  {
    hide Belongs, Select;
    if order != [] {
      var last := order[|order| - 1];
      CollectMember(p, family, order[..|order| - 1], c);
      SelectMember(p, family, p.CallsOf(last), c);
      assert order == order[..|order| - 1] + [last];
      if c in p.CallsOf(last) {
        assert c.caller == last;
      }
    }
  }

  function CallsIn(t: Trace, family: Family): seq<Call> {
    match family case Static => t.calls case Boundary => t.boundaries case Dynamic => t.dynamic case Unresolved => t.unresolved
  }

  /** A trace holds exactly the calls of its seen functions, sorted into families. */
  lemma TraceCalls(p: Program, spec: Spec, t: Trace)
    requires p.Valid() && TraceOf(p, spec, t)
    ensures forall family, c :: c in CallsIn(t, family) <==>
              c.caller in t.seen && c in p.CallsOf(c.caller) && Belongs(p, family, c)
  {
    hide LeastClosed, Belongs, Collect;
    var order :| Visits(order, t.seen) && Families(p, t, order);
    forall family, c
      ensures c in CallsIn(t, family) <==> c.caller in t.seen && c in p.CallsOf(c.caller) && Belongs(p, family, c)
    {
      CollectMember(p, family, order, c);
    }
  }

  lemma {:induction false} TagAllMember(specs: seq<Spec>, traces: seq<Trace>, family: Family, r: Recorded)
    requires |specs| == |traces|
    ensures r in TagAll(specs, traces, family) <==>
            exists i | 0 <= i < |specs| :: r.operation == specs[i].id && r.call in CallsIn(traces[i], family)
  {
    if specs != [] {
      var n := |specs| - 1;
      TagAllMember(specs[..n], traces[..n], family, r);
      var last := Tag(specs[n].id, CallsIn(traces[n], family));
      assert r in last <==> r.operation == specs[n].id && r.call in CallsIn(traces[n], family) by {
        if r.operation == specs[n].id && r.call in CallsIn(traces[n], family) {
          var k :| 0 <= k < |CallsIn(traces[n], family)| && CallsIn(traces[n], family)[k] == r.call;
          assert last[k] == r;
        }
      }
      assert TagAll(specs, traces, family) == TagAll(specs[..n], traces[..n], family) + last;
      if i :| 0 <= i < |specs| && r.operation == specs[i].id && r.call in CallsIn(traces[i], family) {
        assert i < n ==> specs[..n][i] == specs[i] && traces[..n][i] == traces[i];
      }
    }
  }

  ghost predicate DistinctIds(specs: seq<Spec>) {
    forall i, j | 0 <= i < j < |specs| :: specs[i].id != specs[j].id
  }

  /** The calls recorded under one operation are that operation's own. */
  lemma RecordedUnder(p: Program, specs: seq<Spec>, traces: seq<Trace>, i: nat, family: Family, r: Recorded)
    requires p.Valid() && Assembling(p, specs, traces) && DistinctIds(specs) && i < |specs| && r.operation == specs[i].id
    ensures r in TagAll(specs, traces, family) <==>
            r.call.caller in traces[i].seen && r.call in p.CallsOf(r.call.caller) && Belongs(p, family, r.call)
  {
    hide TraceOf, Belongs, CallsIn, TagAll;
    TagAllMember(specs, traces, family, r);
    TraceCalls(p, specs[i], traces[i]);
    assert forall j | 0 <= j < |specs| && specs[j].id == specs[i].id :: j == i;
  }

  lemma ClosureKnown(p: Program, spec: Spec, t: Trace)
    requires p.Valid() && TraceOf(p, spec, t) && forall root <- spec.roots :: root in p.functions
    ensures t.seen + t.omitted.Keys <= p.functions
  {
    hide Visits, Families;
    assert Closed(p, spec.roots, p.functions) by {
      forall id, next | id in p.functions && Follows(p, id, next) ensures next in p.functions {
      }
    }
  }

  // --- one operation ------------------------------------------------------------------------

  /** Every required function is one the matrix can list. */
  predicate Listable(p: Program, t: Trace) {
    forall id <- t.seen :: p.KindOf(id).SourceKind? || p.KindOf(id).GeneratedKind?
  }

  /** The edges recorded for operation `i`, in terms of the program. */
  lemma LeadsIffFollows(p: Program, specs: seq<Spec>, traces: seq<Trace>, i: nat, id: Id, next: Id)
    requires p.Valid() && Assembling(p, specs, traces) && DistinctIds(specs) && i < |specs|
    requires id in traces[i].seen && Follows(p, id, next)
    ensures exists r <- Assemble(p, specs, traces).calls ::
              r.operation == specs[i].id && r.call.caller == id && r.call.callee == Some(next) && Belongs(p, Static, r.call)
  {
    hide TraceOf, TagAll;
    var c :| c in p.CallsOf(id) && !c.dynamic && c.callee == Some(next) && next in p.entered;
    RecordedUnder(p, specs, traces, i, Static, Recorded(specs[i].id, c));
    assert Recorded(specs[i].id, c) in Assemble(p, specs, traces).calls;
  }

  lemma ListableDeclares(p: Program, spec: Spec, t: Trace)
    requires Listable(p, t)
    ensures OperationOf(p, spec, t).Required() == t.seen
    ensures OperationOf(p, spec, t).Declared() == t.seen + t.omitted.Keys
  {
  }

  /** With every required function listable, what is declared is the rooted closure. */
  lemma DeclaredIsClosure(p: Program, specs: seq<Spec>, traces: seq<Trace>, i: nat)
    requires p.Valid() && Assembling(p, specs, traces) && DistinctIds(specs) && i < |specs|
    requires Listable(p, traces[i])
    ensures var d := Assemble(p, specs, traces); RootedClosure(d, d.operations[i], d.operations[i].Declared())
  {
    hide TagAll, Visits, Families, Follows, Listed;
    var d := Assemble(p, specs, traces);
    var t, op := traces[i], d.operations[i];
    assert TraceOf(p, specs[i], t);
    ListableDeclares(p, specs[i], t);
    var whole := op.Declared();
    forall s | RecordedClosed(d, op, s) ensures whole <= s {
      var both := s * whole;
      forall id, next | id in both && Follows(p, id, next) ensures next in both {
        assert id in t.seen by { FollowsSeen(p, specs[i], t, id, next); }
        LeadsIffFollows(p, specs, traces, i, id, next);
        assert Leads(d, op, id, next);
      }
      assert Closed(p, specs[i].roots, both);
    }
  }

  lemma FollowsSeen(p: Program, spec: Spec, t: Trace, id: Id, next: Id)
    requires TraceOf(p, spec, t) && id in t.seen + t.omitted.Keys && Follows(p, id, next)
    ensures id in t.seen && next in t.seen + t.omitted.Keys
  {
    hide Visits, Families;
  }

  lemma CallsLeadOk(p: Program, specs: seq<Spec>, traces: seq<Trace>, i: nat)
    requires p.Valid() && Assembling(p, specs, traces) && DistinctIds(specs) && i < |specs|
    requires Listable(p, traces[i])
    ensures var d := Assemble(p, specs, traces); CallsLead(d, d.operations[i])
  {
    hide TagAll, TraceOf, OperationOf, Listed;
    var d := Assemble(p, specs, traces);
    var t, op := traces[i], OperationOf(p, specs[i], traces[i]);
    assert d.operations[i] == op;
    OperationFields(p, specs[i], t);
    ListableDeclares(p, specs[i], t);
    forall r <- d.calls | r.operation == op.id
      ensures r.call.caller in op.Required() && r.call.callee.Some?
      ensures r.call.callee.value in op.Declared()
              || exists b <- d.boundaries :: b.operation == op.id && b.call.caller == r.call.caller && b.call.callee == r.call.callee
    {
      RecordedUnder(p, specs, traces, i, Static, r);
      if r.call.callee.value in p.entered {
        CalleeDeclared(p, specs[i], t, r.call);
      } else {
        RecordedUnder(p, specs, traces, i, Boundary, r);
        assert r in d.boundaries;
      }
    }
  }

  lemma CalleeDeclared(p: Program, spec: Spec, t: Trace, c: Call)
    requires TraceOf(p, spec, t) && c.caller in t.seen && c in p.CallsOf(c.caller)
    requires Belongs(p, Static, c) && c.callee.value in p.entered
    ensures c.callee.value in t.seen + t.omitted.Keys
  {
    hide Visits, Families;
    assert Follows(p, c.caller, c.callee.value);
  }

  lemma OperationFields(p: Program, spec: Spec, t: Trace)
    ensures var op := OperationOf(p, spec, t); op.id == spec.id && op.roots == spec.roots && op.excluded == t.omitted
  {
  }

  lemma CallersOk(p: Program, specs: seq<Spec>, traces: seq<Trace>, i: nat)
    requires p.Valid() && Assembling(p, specs, traces) && DistinctIds(specs) && i < |specs|
    requires Listable(p, traces[i])
    ensures var d := Assemble(p, specs, traces);
            CallersRequired(d.dynamic, d.operations[i]) && CallersRequired(d.boundaries, d.operations[i])
  {
    hide TagAll, TraceOf, OperationOf, Listed, Belongs;
    var d := Assemble(p, specs, traces);
    OperationFields(p, specs[i], traces[i]);
    ListableDeclares(p, specs[i], traces[i]);
    forall r <- d.dynamic | r.operation == specs[i].id ensures r.call.caller in traces[i].seen {
      RecordedUnder(p, specs, traces, i, Dynamic, r);
    }
    forall r <- d.boundaries | r.operation == specs[i].id ensures r.call.caller in traces[i].seen {
      RecordedUnder(p, specs, traces, i, Boundary, r);
    }
  }

  lemma {:induction false} TouchedMember(traces: seq<Trace>, id: Id)
    ensures id in Touched(traces) <==> exists t <- traces :: id in t.seen || id in t.omitted
  {
    if traces != [] {
      TouchedMember(traces[..|traces| - 1], id);
      assert traces == traces[..|traces| - 1] + [traces[|traces| - 1]];
    }
  }

  lemma KindsAndExclusions(p: Program, specs: seq<Spec>, traces: seq<Trace>, i: nat)
    requires p.Valid() && Assembling(p, specs, traces) && i < |specs|
    ensures var d := Assemble(p, specs, traces); KindsOk(d, d.operations[i]) && ExclusionsOk(d, d.operations[i])
  {
    hide TagAll, LeastClosed, Visits, Families, Touched, Listed;
    assert TraceOf(p, specs[i], traces[i]);
    forall id | id in traces[i].seen || id in traces[i].omitted ensures id in Touched(traces) {
      TouchedMember(traces, id);
      assert traces[i] in traces;
    }
  }

  // --- the whole matrix -----------------------------------------------------------------------

  lemma {:induction false} OwnedListable(p: Program, specs: seq<Spec>, traces: seq<Trace>)
    requires |specs| == |traces| && forall t <- traces :: Listable(p, t)
    ensures Owned(Operations(p, specs, traces)) == Touched(traces)
  {
    hide OperationOf, Listable;
    if specs != [] {
      var n := |specs| - 1;
      OwnedListable(p, specs[..n], traces[..n]);
      assert Operations(p, specs, traces)[..n] == Operations(p, specs[..n], traces[..n]);
      assert traces[n] in traces;
      ListableDeclares(p, specs[n], traces[n]);
    }
  }

  lemma FamiliesIffResolved(p: Program, specs: seq<Spec>, traces: seq<Trace>)
    requires p.Valid() && Assembling(p, specs, traces)
    ensures var d := Assemble(p, specs, traces);
            d.unresolved == [] ==> FamiliesOk(d, p) && OperationsKnown(d, specs)
  {
    hide TagAll, TraceOf, OperationOf, Listed, Operations, Touched;
    var d := Assemble(p, specs, traces);
    if d.unresolved == [] {
      forall family, r | r in TagAll(specs, traces, family)
        ensures RecordOk(p, specs, family, r)
      {
        TagAllMember(specs, traces, family, r);
        var i :| 0 <= i < |specs| && r.operation == specs[i].id && r.call in CallsIn(traces[i], family);
        TraceCalls(p, specs[i], traces[i]);
        SeenKnown(p, specs[i], traces[i]);
        TagAllMember(specs, traces, Unresolved, r);
        assert r !in d.unresolved;
        assert specs[i] in specs;
      }
      assert forall r <- d.calls :: RecordOk(p, specs, Static, r);
      assert forall r <- d.boundaries :: RecordOk(p, specs, Boundary, r);
      assert forall r <- d.dynamic :: RecordOk(p, specs, Dynamic, r);
    }
  }

  ghost predicate RecordOk(p: Program, specs: seq<Spec>, family: Family, r: Recorded) {
    && r.call.caller in p.functions && r.call in p.CallsOf(r.call.caller) && Belongs(p, family, r.call)
    && (r.call.callee.Some? ==> r.call.callee.value in p.functions)
    && (family == Boundary ==> !Belongs(p, Unresolved, r.call))
    && exists spec <- specs :: spec.id == r.operation
  }

  lemma SeenKnown(p: Program, spec: Spec, t: Trace)
    requires TraceOf(p, spec, t)
    ensures t.seen <= p.functions
  {
    hide LeastClosed, Visits, Families;
  }

  lemma FunctionsIffListed(p: Program, specs: seq<Spec>, traces: seq<Trace>)
    requires p.Valid() && Assembling(p, specs, traces)
    ensures FunctionsOk(Assemble(p, specs, traces), p) <==> forall t <- traces :: forall id <- t.omitted :: !p.KindOf(id).Unlisted?
  {
    hide TagAll, TraceOf, Operations, Touched;
    var d := Assemble(p, specs, traces);
    forall id ensures id in Touched(traces) <==> exists t <- traces :: id in t.seen || id in t.omitted {
      TouchedMember(traces, id);
    }
    forall i | 0 <= i < |specs| ensures traces[i].seen + traces[i].omitted.Keys <= p.functions {
      assert specs[i] in specs && TraceOf(p, specs[i], traces[i]);
      ClosureKnown(p, specs[i], traces[i]);
    }
    forall id <- Touched(traces) ensures id in p.functions {
      var t :| t in traces && (id in t.seen || id in t.omitted);
      var i :| 0 <= i < |traces| && traces[i] == t;
    }
    if forall t <- traces :: forall id <- t.omitted :: !p.KindOf(id).Unlisted? {
      forall id <- d.functions ensures !p.KindOf(id).Unlisted? {
        var t :| t in traces && (id in t.seen || id in t.omitted);
        assert Listed(p, t);
      }
    }
    if FunctionsOk(d, p) {
      forall t <- traces, id <- t.omitted ensures !p.KindOf(id).Unlisted? {
        assert id in d.functions;
      }
    }
  }

  /** A valid matrix lists every function the program reaches. */
  lemma ValidIsListable(p: Program, specs: seq<Spec>, traces: seq<Trace>, i: nat)
    requires p.Valid() && Assembling(p, specs, traces) && DistinctIds(specs) && i < |specs|
    requires var d := Assemble(p, specs, traces); OperationOk(d, d.operations[i])
    ensures Listable(p, traces[i])
  {
    hide TagAll, Visits, Families, Listed, KindsOk, ExclusionsOk, CallersRequired, Leads;
    var d := Assemble(p, specs, traces);
    var t, op := traces[i], d.operations[i];
    assert TraceOf(p, specs[i], t);
    var declared := op.Declared();
    assert declared <= t.seen + t.omitted.Keys;
    forall id, next | id in declared && Follows(p, id, next) ensures next in declared {
      FollowsSeen(p, specs[i], t, id, next);
      LeadsIffFollows(p, specs, traces, i, id, next);
      var r :| r in d.calls && r.operation == specs[i].id && r.call.caller == id && r.call.callee == Some(next);
      if next !in declared {
        var b :| b in d.boundaries && b.operation == op.id && b.call.caller == id && b.call.callee == Some(next);
        RecordedUnder(p, specs, traces, i, Boundary, b);
        assert false;
      }
    }
    assert Closed(p, specs[i].roots, declared);
  }

  predicate InitializersOk(p: Program) {
    forall c <- p.initializers :: c.anchored && !Blocked(c)
  }

  lemma {:induction false} BlockedMember(calls: seq<Initializer>, c: Initializer)
    ensures c in BlockedOf(calls) <==> c in calls && Blocked(c)
  {
    if calls != [] {
      BlockedMember(calls[..|calls| - 1], c);
      assert calls == calls[..|calls| - 1] + [calls[|calls| - 1]];
    }
  }

  lemma NoneBlocked(p: Program)
    requires InitializersOk(p)
    ensures BlockedOf(p.initializers) == []
  {
    var blocked := BlockedOf(p.initializers);
    if blocked != [] {
      BlockedMember(p.initializers, blocked[0]);
    }
  }

  /** Validity in terms of what the traversal of each operation found. */
  lemma ValidIffTraces(p: Program, specs: seq<Spec>, traces: seq<Trace>)
    requires p.Valid() && Assembling(p, specs, traces) && DistinctIds(specs)
    ensures DocumentOk(Assemble(p, specs, traces), p, specs) <==>
              && (forall t <- traces :: Listable(p, t))
              && (forall t <- traces :: forall id <- t.omitted :: !p.KindOf(id).Unlisted?)
              && TagAll(specs, traces, Unresolved) == []
              && Touched(traces) != {}
              && InitializersOk(p)
  {
    hide Blocked, TagAll, TraceOf, Touched, Listable, OperationOk, FunctionsOk, FamiliesOk, OperationsKnown, Owned, OperationOf, Listed;
    var d := Assemble(p, specs, traces);
    FunctionsIffListed(p, specs, traces);
    FamiliesIffResolved(p, specs, traces);
    assert d.functions.Keys == Touched(traces);
    assert SpecsMatch(d, specs) by {
      forall i | 0 <= i < |specs| ensures d.operations[i].id == specs[i].id && d.operations[i].roots == specs[i].roots {
        OperationFields(p, specs[i], traces[i]);
      }
    }
    if InitializersOk(p) {
      NoneBlocked(p);
    }
    if forall t <- traces :: Listable(p, t) {
      OwnedListable(p, specs, traces);
      forall op <- d.operations ensures OperationOk(d, op) {
        var i :| 0 <= i < |specs| && d.operations[i] == op;
        assert traces[i] in traces;
        ListableIsOk(p, specs, traces, i);
      }
    }
    if DocumentOk(d, p, specs) {
      forall t <- traces ensures Listable(p, t) {
        var i :| 0 <= i < |traces| && traces[i] == t;
        assert d.operations[i] in d.operations;
        ValidIsListable(p, specs, traces, i);
      }
    }
  }

  lemma ListableIsOk(p: Program, specs: seq<Spec>, traces: seq<Trace>, i: nat)
    requires p.Valid() && Assembling(p, specs, traces) && DistinctIds(specs) && i < |specs|
    requires Listable(p, traces[i])
    ensures var d := Assemble(p, specs, traces); OperationOk(d, d.operations[i])
  {
    hide TagAll, TraceOf, Touched, Listable, RootedClosure, KindsOk, ExclusionsOk, CallsLead, CallersRequired, OperationOf, Listed;
    KindsAndExclusions(p, specs, traces, i);
    CallsLeadOk(p, specs, traces, i);
    CallersOk(p, specs, traces, i);
    DeclaredIsClosure(p, specs, traces, i);
  }

  // --- the condition on the program ---------------------------------------------------------------

  /** A function an operation can contain: a stop the ledger lists, or a source or
      generated function without an unresolved project call. */
  predicate Sound(p: Program, id: Id) {
    if id in p.excluded then !p.KindOf(id).Unlisted?
    else (p.KindOf(id).SourceKind? || p.KindOf(id).GeneratedKind?) && forall c <- p.CallsOf(id) :: !Belongs(p, Unresolved, c)
  }

  /** Everything the operation's roots lead to is sound. */
  ghost predicate SoundFrom(p: Program, spec: Spec) {
    forall s | LeastClosed(p, spec.roots, s) :: forall id <- s :: Sound(p, id)
  }

  ghost predicate Creatable(p: Program, specs: seq<Spec>) {
    && (forall spec <- specs :: SoundFrom(p, spec))
    && (exists spec <- specs :: spec.roots != [])
    && InitializersOk(p)
  }

  ghost predicate TraceSound(p: Program, t: Trace) {
    && Listable(p, t)
    && (forall id <- t.omitted :: !p.KindOf(id).Unlisted?)
    && t.unresolved == []
  }

  /** A trace has no unresolved call when none of its functions makes one. */
  lemma ResolvedIffCalls(p: Program, spec: Spec, t: Trace)
    requires p.Valid() && TraceOf(p, spec, t)
    ensures t.unresolved == [] <==> forall id <- t.seen :: forall c <- p.CallsOf(id) :: !Belongs(p, Unresolved, c)
  {
    TraceCalls(p, spec, t);
    hide TraceOf, Belongs;
    assert forall c :: c in t.unresolved <==> c in CallsIn(t, Unresolved);
    if t.unresolved == [] {
      forall id <- t.seen, c <- p.CallsOf(id)
        ensures !Belongs(p, Unresolved, c)
      {
        assert c.caller == id;
        assert c !in CallsIn(t, Unresolved);
      }
    } else {
      var c := t.unresolved[0];
      assert c in CallsIn(t, Unresolved) && c.caller in t.seen;
    }
  }

  /** The closure of an operation is the one its trace found. */
  lemma ClosureIsTrace(p: Program, spec: Spec, t: Trace)
    requires p.Valid() && TraceOf(p, spec, t)
    ensures forall s :: LeastClosed(p, spec.roots, s) <==> s == t.seen + t.omitted.Keys
    ensures t.seen + t.omitted.Keys == {} <==> spec.roots == []
  {
    var s := t.seen + t.omitted.Keys;
    forall other | LeastClosed(p, spec.roots, other)
      ensures other == s
    {
      LeastClosedUnique(p, spec.roots, s, other);
    }
    if spec.roots == [] {
      assert Closed(p, spec.roots, {});
    } else {
      assert spec.roots[0] in s;
    }
  }

  lemma SoundIffTrace(p: Program, spec: Spec, t: Trace)
    requires p.Valid() && TraceOf(p, spec, t)
    ensures SoundFrom(p, spec) <==> TraceSound(p, t)
  {
    ClosureIsTrace(p, spec, t);
    ResolvedIffCalls(p, spec, t);
    assert (forall id <- t.seen :: id !in p.excluded) && forall id <- t.omitted :: id in p.excluded;
    hide TraceOf, LeastClosed, Belongs;
    var s := t.seen + t.omitted.Keys;
    assert SoundFrom(p, spec) <==> forall id <- s :: Sound(p, id);
  }

  lemma {:induction false} TracesUnresolved(specs: seq<Spec>, traces: seq<Trace>)
    requires |specs| == |traces|
    ensures TagAll(specs, traces, Unresolved) == [] <==> forall t <- traces :: t.unresolved == []
    ensures Touched(traces) == {} <==> forall t <- traces :: t.seen + t.omitted.Keys == {}
  {
    if specs != [] {
      var n := |specs| - 1;
      TracesUnresolved(specs[..n], traces[..n]);
      assert traces == traces[..n] + [traces[n]];
    }
  }

  lemma SoundIffTraces(p: Program, specs: seq<Spec>, traces: seq<Trace>)
    requires p.Valid() && Assembling(p, specs, traces)
    ensures (forall spec <- specs :: SoundFrom(p, spec)) <==> forall t <- traces :: TraceSound(p, t)
  {
    hide SoundFrom, TraceOf, TraceSound, Listed, RootsKnown;
    forall i | 0 <= i < |specs|
      ensures SoundFrom(p, specs[i]) <==> TraceSound(p, traces[i])
    {
      SoundIffTrace(p, specs[i], traces[i]);
    }
    if forall t <- traces :: TraceSound(p, t) {
      forall i | 0 <= i < |specs| ensures SoundFrom(p, specs[i]) {
        assert traces[i] in traces;
      }
    }
    if forall spec <- specs :: SoundFrom(p, spec) {
      forall i | 0 <= i < |traces| ensures TraceSound(p, traces[i]) {
        assert specs[i] in specs;
      }
    }
  }

  lemma RootsIffTouched(p: Program, specs: seq<Spec>, traces: seq<Trace>)
    requires p.Valid() && Assembling(p, specs, traces)
    ensures (exists spec <- specs :: spec.roots != []) <==> Touched(traces) != {}
  {
    hide TraceOf, Listed, RootsKnown, Touched;
    TracesUnresolved(specs, traces);
    forall i | 0 <= i < |specs|
      ensures traces[i].seen + traces[i].omitted.Keys == {} <==> specs[i].roots == []
    {
      ClosureIsTrace(p, specs[i], traces[i]);
    }
    if spec :| spec in specs && spec.roots != [] {
      var i :| 0 <= i < |specs| && specs[i] == spec;
      assert traces[i] in traces;
    }
    if t :| t in traces && t.seen + t.omitted.Keys != {} {
      var i :| 0 <= i < |traces| && traces[i] == t;
      assert specs[i] in specs;
    }
  }

  /** The main result. The matrix the generator assembles passes its own validator
      exactly when everything its operations' roots lead to is sound, some
      operation has a root, and no initialiser makes an unresolved call. */
  lemma CreatedIsValid(p: Program, specs: seq<Spec>, traces: seq<Trace>)
    requires p.Valid() && Assembling(p, specs, traces) && DistinctIds(specs)
    ensures DocumentOk(Assemble(p, specs, traces), p, specs) <==> Creatable(p, specs)
  {
    hide DocumentOk, Assemble, SoundFrom, TraceOf, Listed, RootsKnown, TraceSound, TagAll, Touched, Listable, InitializersOk, DistinctIds;
    ValidIffTraces(p, specs, traces);
    TracesUnresolved(specs, traces);
    SoundIffTraces(p, specs, traces);
    RootsIffTouched(p, specs, traces);
    TracesParts(p, traces);
  }

  lemma TracesParts(p: Program, traces: seq<Trace>)
    ensures (forall t <- traces :: TraceSound(p, t)) <==>
            && (forall t <- traces :: Listable(p, t))
            && (forall t <- traces :: forall id <- t.omitted :: !p.KindOf(id).Unlisted?)
            && forall t <- traces :: t.unresolved == []
  {
    hide Listable;
  }

  // --- without the condition ---------------------------------------------------------------------

  /** One function, whose file the ledger lists as neither source nor generated. */
  const HARNESS := Program({"r"}, map[], {}, map[], map["r" := OtherKind], [])
  const HARNESS_SPECS := [Spec("op", ["r"])]

  /** It is created without complaint, and then refused by the validator. */
  lemma HarnessRootRefused()
    ensures HARNESS.Valid()
    ensures var traces := [Trace({"r"}, map[], [], [], [], [])];
            && Assembling(HARNESS, HARNESS_SPECS, traces) && DistinctIds(HARNESS_SPECS)
            && !DocumentOk(Assemble(HARNESS, HARNESS_SPECS, traces), HARNESS, HARNESS_SPECS)
  {
    var t := Trace({"r"}, map[], [], [], [], []);
    assert LeastClosed(HARNESS, ["r"], {"r"});
    assert t.seen + t.omitted.Keys == {"r"};
    assert Visits(["r"], t.seen);
    assert ["r"][..0] == [];
    assert forall family :: Collect(HARNESS, family, ["r"][..0]) == [] && Select(HARNESS, family, []) == [];
    assert Families(HARNESS, t, ["r"]);
    assert TraceOf(HARNESS, HARNESS_SPECS[0], t);
    CreatedIsValid(HARNESS, HARNESS_SPECS, [t]);
    assert HARNESS_SPECS[0] in HARNESS_SPECS && !Sound(HARNESS, "r");
  }
}
