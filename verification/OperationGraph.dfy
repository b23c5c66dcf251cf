/** Operation dependency closures: the worklist of `create` in
    scripts/s07_operations.py. */
module OperationGraph {
  import opened Results

  type Id = string

  /** A typed call site. `project` says the callee's package belongs to the
      project, `interface` that it is dispatched through one. */
  datatype Call = Call(caller: Id, callee: Option<Id>, dynamic: bool, project: bool, interface: bool)

  /** A call in a package initialiser, which belongs to no function. `anchored` says
      that its file is one of the fingerprinted source files. */
  datatype Initializer = Initializer(callee: Option<Id>, dynamic: bool, project: bool, interface: bool, anchored: bool)

  datatype FunctionKind = SourceKind | GeneratedKind | OtherKind | Unlisted

  /** The inspected program: its functions, the calls of each, which callees the
      traversal enters, which functions it stops at, with the reason, and the calls
      of the package initialisers. */
  datatype Program = Program(
    functions: set<Id>,
    calls: map<Id, seq<Call>>,
    entered: set<Id>,
    excluded: map<Id, string>,
    kinds: map<Id, FunctionKind>,
    initializers: seq<Initializer>)
  {
    function CallsOf(id: Id): seq<Call> {
      if id in calls then calls[id] else []
    }

    function KindOf(id: Id): FunctionKind {
      if id in kinds then kinds[id] else Unlisted
    }

    /** Calls belong to their caller, and resolved callees are known functions. */
    ghost predicate Valid() {
      && calls.Keys <= functions && entered <= functions
      && (forall id <- calls :: forall c <- calls[id] :: c.caller == id && (c.callee.Some? ==> c.callee.value in functions))
      && (forall id <- excluded :: excluded[id] != "")
    }
  }

  // --- the reference: least closed set -----------------------------------------------------

  /** A successor the traversal follows. */
  predicate Follows(p: Program, id: Id, next: Id) {
    && id !in p.excluded
    && exists c <- p.CallsOf(id) :: !c.dynamic && c.callee == Some(next) && next in p.entered
  }

  ghost predicate Closed(p: Program, roots: seq<Id>, s: set<Id>) {
    && (forall root <- roots :: root in s)
    && (forall id, next | id in s && Follows(p, id, next) :: next in s)
  }

  /** Closed, and inside every closed set. */
  ghost predicate LeastClosed(p: Program, roots: seq<Id>, s: set<Id>) {
    Closed(p, roots, s) && forall other | Closed(p, roots, other) :: s <= other
  }

  lemma LeastClosedUnique(p: Program, roots: seq<Id>, s: set<Id>, t: set<Id>)
    requires LeastClosed(p, roots, s) && LeastClosed(p, roots, t)
    ensures s == t
  {
  }

  // --- what one visited function contributes ------------------------------------------------

  datatype Family = Static | Boundary | Dynamic | Unresolved

  predicate Belongs(p: Program, family: Family, c: Call) {
    match family
    case Dynamic => c.dynamic
    case Static => !c.dynamic && c.callee.Some?
    case Boundary => !c.dynamic && (c.callee.None? || c.callee.value !in p.entered)
    case Unresolved => !c.dynamic && c.callee.None? && c.project && !c.interface
  }

  function Select(p: Program, family: Family, calls: seq<Call>): seq<Call> {
    if calls == [] then []
    else
      Select(p, family, calls[..|calls| - 1])
      + (if Belongs(p, family, calls[|calls| - 1]) then [calls[|calls| - 1]] else [])
  }

  /** The calls of one family, function by function in visit order. */
  function Collect(p: Program, family: Family, order: seq<Id>): seq<Call> {
    if order == [] then []
    else Collect(p, family, order[..|order| - 1]) + Select(p, family, p.CallsOf(order[|order| - 1]))
  }

  ghost predicate Visits(order: seq<Id>, seen: set<Id>) {
    && (forall i, j | 0 <= i < j < |order| :: order[i] != order[j])
    && (forall id :: id in seen <==> id in order)
  }

  // --- the worklist ----------------------------------------------------------------------------

  datatype Trace = Trace(seen: set<Id>, omitted: map<Id, string>, calls: seq<Call>, boundaries: seq<Call>,
                         dynamic: seq<Call>, unresolved: seq<Call>)

  /** The static callees a function adds to the pending list. */
  function Entered(p: Program, calls: seq<Call>): seq<Id> {
    if calls == [] then []
    else
      var c := calls[|calls| - 1];
      Entered(p, calls[..|calls| - 1])
      + (if !c.dynamic && c.callee.Some? && c.callee.value in p.entered then [c.callee.value] else [])
  }

  lemma {:induction false} EnteredFollows(p: Program, calls: seq<Call>, next: Id)
    ensures next in Entered(p, calls) <==>
            exists c <- calls :: !c.dynamic && c.callee == Some(next) && next in p.entered
  {
    if calls != [] {
      var front := calls[..|calls| - 1];
      EnteredFollows(p, front, next);
      assert calls == front + [calls[|calls| - 1]];
    }
  }

  /** The inner loop: sorts one function's calls into their families. */
  method SortCalls(p: Program, id: Id, before: Trace, pendingBefore: seq<Id>) returns (t: Trace, pending: seq<Id>)
    ensures pending == pendingBefore + Entered(p, p.CallsOf(id))
    ensures var calls := p.CallsOf(id);
            t == before.(calls := before.calls + Select(p, Static, calls),
                         boundaries := before.boundaries + Select(p, Boundary, calls),
                         dynamic := before.dynamic + Select(p, Dynamic, calls),
                         unresolved := before.unresolved + Select(p, Unresolved, calls))
  {
    var all := p.CallsOf(id);
    var calls, boundaries, dynamic, unresolved: seq<Call> := [], [], [], [];
    var found: seq<Id> := [];
    assert all[..0] == [];
    for i := 0 to |all|
      invariant calls == Select(p, Static, all[..i]) && boundaries == Select(p, Boundary, all[..i])
      invariant dynamic == Select(p, Dynamic, all[..i]) && unresolved == Select(p, Unresolved, all[..i])
      invariant found == Entered(p, all[..i])
    {
      var c := all[i];
      assert all[..i + 1][..i] == all[..i];
      if c.dynamic {
        dynamic := dynamic + [c];
      } else if c.callee.Some? {
        calls := calls + [c];
        if c.callee.value in p.entered {
          found := found + [c.callee.value];
        } else {
          boundaries := boundaries + [c];
        }
      } else {
        if c.project && !c.interface {
          unresolved := unresolved + [c];
        }
        boundaries := boundaries + [c];
      }
    }
    assert all[..|all|] == all;
    t := before.(calls := before.calls + calls, boundaries := before.boundaries + boundaries,
                 dynamic := before.dynamic + dynamic, unresolved := before.unresolved + unresolved);
    pending := pendingBefore + found;
  }

  ghost predicate Reached(t: Trace, pending: seq<Id>, id: Id) {
    id in t.seen || id in t.omitted || id in pending
  }

  /** What holds between two turns of the worklist. */
  ghost predicate Working(p: Program, roots: seq<Id>, t: Trace, pending: seq<Id>, order: seq<Id>) {
    && Visits(order, t.seen)
    && t.seen <= p.functions && (forall id <- pending :: id in p.functions)
    && (forall id <- t.seen :: id !in p.excluded)
    && (forall id <- t.omitted :: id in p.excluded && t.omitted[id] == p.excluded[id])
    && (forall root <- roots :: Reached(t, pending, root))
    && (forall id, next | id in t.seen && Follows(p, id, next) :: Reached(t, pending, next))
    && (forall s, id | Closed(p, roots, s) && Reached(t, pending, id) :: id in s)
  }

  ghost predicate Families(p: Program, t: Trace, order: seq<Id>) {
    && t.calls == Collect(p, Static, order) && t.boundaries == Collect(p, Boundary, order)
    && t.dynamic == Collect(p, Dynamic, order) && t.unresolved == Collect(p, Unresolved, order)
  }

  lemma Popped(pending: seq<Id>)
    requires pending != []
    ensures forall id :: id in pending <==> id in pending[..|pending| - 1] || id == pending[|pending| - 1]
  {
    assert pending == pending[..|pending| - 1] + [pending[|pending| - 1]];
  }

  lemma SkipSeen(p: Program, roots: seq<Id>, t: Trace, pending: seq<Id>, order: seq<Id>)
    requires Working(p, roots, t, pending, order) && pending != [] && pending[|pending| - 1] in t.seen
    ensures Working(p, roots, t, pending[..|pending| - 1], order)
  {
    hide Follows, Closed;
    Popped(pending);
    assert forall id :: Reached(t, pending[..|pending| - 1], id) <==> Reached(t, pending, id);
  }

  lemma OmitExcluded(p: Program, roots: seq<Id>, t: Trace, pending: seq<Id>, order: seq<Id>)
    requires Working(p, roots, t, pending, order) && pending != []
    requires var id := pending[|pending| - 1]; id !in t.seen && id in p.excluded
    ensures var id := pending[|pending| - 1];
            Working(p, roots, t.(omitted := t.omitted[id := p.excluded[id]]), pending[..|pending| - 1], order)
  {
    hide Follows, Closed;
    Popped(pending);
    var id := pending[|pending| - 1];
    var u := t.(omitted := t.omitted[id := p.excluded[id]]);
    assert forall x :: Reached(u, pending[..|pending| - 1], x) <==> Reached(t, pending, x);
  }

  lemma VisitNew(p: Program, roots: seq<Id>, t: Trace, u: Trace, pending: seq<Id>, order: seq<Id>)
    requires p.Valid() && Working(p, roots, t, pending, order) && pending != []
    requires var id := pending[|pending| - 1];
             id !in t.seen && id !in p.excluded && u.seen == t.seen + {id} && u.omitted == t.omitted
    ensures var id := pending[|pending| - 1];
            Working(p, roots, u, pending[..|pending| - 1] + Entered(p, p.CallsOf(id)), order + [id])
  {
    hide Closed;
    var id := pending[|pending| - 1];
    Popped(pending);
    var next := pending[..|pending| - 1] + Entered(p, p.CallsOf(id));
    forall x ensures x in Entered(p, p.CallsOf(id)) <==> Follows(p, id, x) {
      EnteredFollows(p, p.CallsOf(id), x);
    }
    forall s, x | Closed(p, roots, s) && Reached(u, next, x)
      ensures x in s
    {
      ClosedStep(p, roots, s, id, x);
      assert Reached(t, pending, id);
    }
  }

  lemma ClosedStep(p: Program, roots: seq<Id>, s: set<Id>, id: Id, next: Id)
    requires Closed(p, roots, s)
    ensures id in s && Follows(p, id, next) ==> next in s
  {
  }

  lemma CollectNext(p: Program, t: Trace, order: seq<Id>, id: Id)
    ensures forall family :: Collect(p, family, order + [id]) == Collect(p, family, order) + Select(p, family, p.CallsOf(id))
  {
    assert (order + [id])[..|order|] == order;
  }

  /** The worklist of one operation: terminates, and what it saw and what it
      stopped at are together the least closed set. */
  method TraceOperation(p: Program, roots: seq<Id>) returns (t: Trace, ghost order: seq<Id>)
    requires p.Valid() && forall root <- roots :: root in p.functions
    ensures LeastClosed(p, roots, t.seen + t.omitted.Keys)
    ensures forall id <- t.seen :: id !in p.excluded
    ensures forall id <- t.omitted :: id in p.excluded && t.omitted[id] == p.excluded[id]
    ensures Visits(order, t.seen) && Families(p, t, order) && t.seen <= p.functions
  {
    hide Follows, Closed, Select, Entered;
    t := Trace({}, map[], [], [], [], []);
    var pending := roots;
    order := [];
    StartWorking(p, roots);
    while pending != []
      invariant Working(p, roots, t, pending, order) && Families(p, t, order)
      decreases |p.functions - t.seen|, |pending|
    {
      var id := pending[|pending| - 1];
      var rest := pending[..|pending| - 1];
      if id in t.seen {
        SkipSeen(p, roots, t, pending, order);
        pending := rest;
      } else if id in p.excluded {
        OmitExcluded(p, roots, t, pending, order);
        t := t.(omitted := t.omitted[id := p.excluded[id]]);
        pending := rest;
      } else {
        var u, next := SortCalls(p, id, t.(seen := t.seen + {id}), rest);
        VisitNew(p, roots, t, u, pending, order);
        CollectNext(p, t, order, id);
        assert p.functions - u.seen < p.functions - t.seen by {
          assert id in p.functions - t.seen;
        }
        SmallerSet(p.functions - u.seen, p.functions - t.seen);
        t, pending, order := u, next, order + [id];
      }
    }
    FinishWorking(p, roots, t, order);
  }

  lemma SmallerSet(a: set<Id>, b: set<Id>)
    requires a < b
    ensures |a| < |b|
  {
    assert |b| == |a| + |b - a| by {
      assert b == a + (b - a);
    }
    var x :| x in b - a;
  }

  lemma StartWorking(p: Program, roots: seq<Id>)
    requires p.Valid() && forall root <- roots :: root in p.functions
    ensures Working(p, roots, Trace({}, map[], [], [], [], []), roots, [])
  {
  }

  lemma FinishWorking(p: Program, roots: seq<Id>, t: Trace, order: seq<Id>)
    requires Working(p, roots, t, [], order)
    ensures LeastClosed(p, roots, t.seen + t.omitted.Keys)
  {
    hide Closed;
    var s := t.seen + t.omitted.Keys;
    assert forall id :: id in s <==> Reached(t, [], id);
    assert Closed(p, roots, s) by {
      ClosedFrom(p, roots, s, t);
    }
  }

  lemma ClosedFrom(p: Program, roots: seq<Id>, s: set<Id>, t: Trace)
    requires s == t.seen + t.omitted.Keys && (forall id <- t.omitted :: id in p.excluded)
    requires forall root <- roots :: Reached(t, [], root)
    requires forall id, next | id in t.seen && Follows(p, id, next) :: Reached(t, [], next)
    ensures Closed(p, roots, s)
  {
  }
}
