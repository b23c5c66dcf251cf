/** The publication dependency walk and the release-order check
    (`publication_policy` and `check_release_order` in scripts/package_assets.py). */
module PackageOrder {
  import opened Results

  type Name = string

  /** Public package to the retained dependencies of its archive, in the order they are walked. */
  type Retained = map<Name, seq<Name>>

  function Deps(retained: Retained, name: Name): seq<Name> {
    if name in retained then retained[name] else []
  }

  /** A walk along dependencies. */
  predicate Chain(retained: Retained, path: seq<Name>) {
    forall i | 0 <= i < |path| - 1 :: path[i + 1] in Deps(retained, path[i])
  }

  predicate Distinct(names: seq<Name>) {
    forall i, j | 0 <= i < j < |names| :: names[i] != names[j]
  }

  /** A closed walk; one that repeats nothing but its ends is what the program reports. */
  predicate Cycle(retained: Retained, c: seq<Name>) {
    |c| >= 2 && c[0] == c[|c| - 1] && Chain(retained, c)
  }

  predicate SimpleCycle(retained: Retained, c: seq<Name>) {
    Cycle(retained, c) && Distinct(c[1..])
  }

  /** Every dependency of a listed name is listed before it. */
  predicate DepsFirst(retained: Retained, names: seq<Name>) {
    forall i | 0 <= i < |names| :: forall dep <- Deps(retained, names[i]) :: dep in names[..i]
  }

  ghost function Everything(retained: Retained): set<Name> {
    retained.Keys + set name, dep | name in retained && dep in retained[name] :: dep
  }

  lemma DepKnown(retained: Retained, name: Name, dep: Name)
    requires dep in Deps(retained, name)
    ensures dep in Everything(retained) && name in retained
  {
  }

  class Walk {
    const retained: Retained
    var done: set<Name>
    var path: seq<Name>
    ghost var finished: seq<Name>

    ghost predicate Valid()
      reads this
    {
      && Chain(retained, path) && Distinct(path)
      && (forall name <- path :: name !in done && name in Everything(retained))
      && Distinct(finished) && DepsFirst(retained, finished)
      && (forall name :: name in done <==> name in finished)
    }

    constructor (retained: Retained)
      ensures Valid() && this.retained == retained && path == [] && done == {} && finished == []
    {
      this.retained := retained;
      done, path, finished := {}, [], [];
    }

    /** `visit`: raises with the cycle it closed, or finishes the name and all it needs. */
    method Visit(name: Name) returns (cycle: Option<seq<Name>>)
      requires Valid() && name in Everything(retained)
      requires path != [] ==> name in Deps(retained, path[|path| - 1])
      modifies this
      ensures cycle.Some? ==> SimpleCycle(retained, cycle.value)
      ensures cycle.None? ==> Valid() && path == old(path) && name in done && old(done) <= done
      decreases Above(retained, path)
    {
      hide Chain, Distinct, DepsFirst, Everything, Deps, SimpleCycle;
      if name in path {
        var i := IndexOf(path, name);
        CloseCycle(retained, path, name, i);
        return Some(path[i..] + [name]);
      }
      if name !in done {
        PushPath(retained, path, name);
        path := path + [name];
        var deps := Deps(retained, name);
        for k := 0 to |deps|
          invariant Valid() && path == old(path) + [name] && old(done) <= done
          invariant forall dep <- deps[..k] :: dep in done
        {
          DepKnown(retained, name, deps[k]);
          var inner := Visit(deps[k]);
          if inner.Some? {
            return inner;
          }
          assert deps[..k + 1] == deps[..k] + [deps[k]];
        }
        assert deps[..|deps|] == deps;
        assert name in path;
        PopPath(retained, path);
        path := path[..|path| - 1];
        FinishLast(retained, finished, name);
        done, finished := done + {name}, finished + [name];
        assert path == old(path);
      }
      return None;
    }
  }

  /** The names not on the path: fewer at every level of the recursion. */
  ghost function Above(retained: Retained, path: seq<Name>): set<Name> {
    Everything(retained) - set n | n in path
  }

  lemma PushPath(retained: Retained, path: seq<Name>, name: Name)
    requires Chain(retained, path) && Distinct(path) && name !in path && name in Everything(retained)
    requires path != [] ==> name in Deps(retained, path[|path| - 1])
    ensures Chain(retained, path + [name]) && Distinct(path + [name])
    ensures Above(retained, path + [name]) < Above(retained, path)
  {
    hide Everything;
    var longer := path + [name];
    assert (set n | n in longer) == (set n | n in path) + {name};
    assert name in Above(retained, path) && name !in Above(retained, longer);
  }

  lemma PopPath(retained: Retained, path: seq<Name>)
    requires path != [] && Chain(retained, path) && Distinct(path)
    ensures Chain(retained, path[..|path| - 1]) && Distinct(path[..|path| - 1])
    ensures path[|path| - 1] !in path[..|path| - 1]
  {
  }

  lemma FinishLast(retained: Retained, finished: seq<Name>, name: Name)
    requires DepsFirst(retained, finished) && forall dep <- Deps(retained, name) :: dep in finished
    requires Distinct(finished) && name !in finished
    ensures DepsFirst(retained, finished + [name]) && Distinct(finished + [name])
  {
    var all := finished + [name];
    forall i | 0 <= i < |all| ensures forall dep <- Deps(retained, all[i]) :: dep in all[..i] {
      if i < |finished| {
        assert all[..i] == finished[..i];
      } else {
        assert all[..i] == finished;
      }
    }
  }

  method IndexOf(names: seq<Name>, name: Name) returns (i: nat)
    requires name in names
    ensures i < |names| && names[i] == name && name !in names[..i]
  {
    i := 0;
    while names[i] != name
      invariant i < |names| && name !in names[..i]
      decreases |names| - i
    {
      i := i + 1;
    }
  }

  lemma CloseCycle(retained: Retained, path: seq<Name>, name: Name, i: nat)
    requires Chain(retained, path) && Distinct(path) && i < |path| && path[i] == name
    requires name in Deps(retained, path[|path| - 1])
    ensures SimpleCycle(retained, path[i..] + [name])
  {
    var c := path[i..] + [name];
    assert c[1..] == path[i + 1..] + [name];
  }

  /** The walk over every package with dependencies: it raises exactly when the
      retained-dependency graph has a cycle, and then shows one. */
  method WalkAll(retained: Retained, names: seq<Name>) returns (cycle: Option<seq<Name>>, ghost finished: seq<Name>)
    requires forall name :: name in names <==> name in retained
    ensures cycle.Some? ==> SimpleCycle(retained, cycle.value)
    ensures cycle.None? ==> forall c :: !Cycle(retained, c)
    ensures cycle.None? ==> Distinct(finished) && DepsFirst(retained, finished) && forall name <- names :: name in finished
  {
    hide DepsFirst, Distinct, Everything;
    var walk := new Walk(retained);
    for i := 0 to |names|
      invariant walk.Valid() && walk.retained == retained && walk.path == [] && fresh(walk)
      invariant forall name <- names[..i] :: name in walk.done
    {
      assert names[..i + 1] == names[..i] + [names[i]];
      assert names[i] in Everything(retained) by { KeyKnown(retained, names[i]); }
      var inner := walk.Visit(names[i]);
      if inner.Some? {
        return inner, [];
      }
    }
    assert names[..|names|] == names;
    finished := walk.finished;
    FinishedAcyclic(retained, finished);
    return None, finished;
  }

  lemma KeyKnown(retained: Retained, name: Name)
    requires name in retained
    ensures name in Everything(retained)
  {
  }

  lemma FinishedAcyclic(retained: Retained, finished: seq<Name>)
    requires Distinct(finished) && DepsFirst(retained, finished) && forall name <- retained :: name in finished
    ensures forall c :: !Cycle(retained, c)
  {
    forall c ensures !Cycle(retained, c) {
      if Cycle(retained, c) {
        assert c[1] in Deps(retained, c[0]);
        var at :| 0 <= at < |finished| && finished[at] == c[0];
        Descends(retained, finished, c, |c| - 1, at);
        assert false;
      }
    }
  }

  /** Along a walk the positions in a dependencies-first list go down. */
  lemma {:induction false} Descends(retained: Retained, finished: seq<Name>, c: seq<Name>, k: nat, at: nat)
    requires Distinct(finished) && DepsFirst(retained, finished)
    requires Chain(retained, c) && 1 <= k < |c| && at < |finished| && finished[at] == c[0]
    ensures exists j | 0 <= j < at :: finished[j] == c[k]
  {
    if k == 1 {
      assert c[1] in Deps(retained, finished[at]);
      assert c[1] in finished[..at];
    } else {
      Descends(retained, finished, c, k - 1, at);
      var j :| 0 <= j < at && finished[j] == c[k - 1];
      assert c[k - 1 + 1] in Deps(retained, finished[j]);
      assert c[k] in finished[..j];
    }
  }

  // --- the release order -----------------------------------------------------------------------

  /** The order names every public package once and nothing else. */
  ghost predicate Lists(order: seq<Name>, public: set<Name>) {
    Distinct(order) && forall name :: name in order <==> name in public
  }

  /** No listed package comes before one of its dependencies. */
  predicate NoneLater(order: seq<Name>, retained: Retained) {
    forall i | 0 <= i < |order| :: forall dep <- Deps(retained, order[i]) :: dep in order[..i + 1]
  }

  predicate DepsPublic(retained: Retained, public: set<Name>) {
    forall name <- retained :: name in public && forall dep <- retained[name] :: dep in public
  }

  /** Where each name stands in the order, unless one is repeated. */
  method Positions(order: seq<Name>) returns (distinct: bool, position: map<Name, nat>)
    ensures distinct <==> Distinct(order)
    ensures distinct ==> forall name :: name in position <==> name in order
    ensures distinct ==> forall name <- position :: position[name] < |order| && order[position[name]] == name
  {
    position := map[];
    for i := 0 to |order|
      invariant Distinct(order[..i])
      invariant forall name :: name in position <==> name in order[..i]
      invariant forall name <- position :: position[name] < i && order[position[name]] == name
    {
      assert order[..i + 1] == order[..i] + [order[i]];
      if order[i] in position {
        return false, position;
      }
      position := position[order[i] := i];
    }
    assert order[..|order|] == order;
    return true, position;
  }

  /** The dependencies of one listed package stand before it, or at it. */
  method DepsBefore(order: seq<Name>, position: map<Name, nat>, deps: seq<Name>, i: nat) returns (ok: bool)
    requires Distinct(order) && i < |order| && forall dep <- deps :: dep in position
    requires forall name <- position :: position[name] < |order| && order[position[name]] == name
    ensures ok <==> forall dep <- deps :: dep in order[..i + 1]
  {
    for k := 0 to |deps|
      invariant forall dep <- deps[..k] :: dep in order[..i + 1]
    {
      var dep := deps[k];
      assert deps[..k + 1] == deps[..k] + [dep];
      if position[dep] > i {
        AfterNot(order, position[dep], i);
        return false;
      }
      assert order[..i + 1][position[dep]] == dep;
    }
    assert deps[..|deps|] == deps;
    return true;
  }

  /** `check_release_order`. */
  method CheckReleaseOrder(order: seq<Name>, retained: Retained, public: set<Name>) returns (ok: bool)
    requires DepsPublic(retained, public)
    ensures ok <==> Lists(order, public) && NoneLater(order, retained)
  {
    hide Distinct;
    var listed := set name | name in order;
    if public - listed != {} || listed - public != {} {
      assert exists name :: (name in public) != (name in order);
      return false;
    }
    forall name ensures name in order <==> name in public {
      assert name in order <==> name in listed;
      assert name !in public - listed && name !in listed - public;
    }
    var distinct, position := Positions(order);
    if !distinct {
      return false;
    }
    for i := 0 to |order|
      invariant forall k | 0 <= k < i :: forall dep <- Deps(retained, order[k]) :: dep in order[..k + 1]
    {
      var before := DepsBefore(order, position, Deps(retained, order[i]), i);
      if !before {
        return false;
      }
    }
    return true;
  }

  lemma AfterNot(order: seq<Name>, at: nat, i: nat)
    requires Distinct(order) && i < at < |order|
    ensures order[at] !in order[..i + 1]
  {
  }

  /** Once the walk has found no cycle, an accepted order is a strict linear
      extension: every dependency is published before its package. */
  lemma AcceptedIsLinearExtension(order: seq<Name>, retained: Retained, public: set<Name>)
    requires Lists(order, public) && NoneLater(order, retained)
    requires forall c :: !Cycle(retained, c)
    ensures DepsFirst(retained, order)
  {
    forall i, dep | 0 <= i < |order| && dep in Deps(retained, order[i]) ensures dep in order[..i] {
      assert !Cycle(retained, [order[i], order[i]]);
      assert dep in order[..i + 1];
      assert order[..i + 1] == order[..i] + [order[i]];
    }
  }

  /** The order check alone leaves only self-dependencies undetected. */
  lemma AcceptedOnlyLoops(order: seq<Name>, retained: Retained, public: set<Name>, c: seq<Name>)
    requires Lists(order, public) && NoneLater(order, retained) && DepsPublic(retained, public)
    requires Cycle(retained, c)
    ensures forall i | 0 <= i < |c| :: c[i] == c[0]
  {
    var at :| 0 <= at < |order| && order[at] == c[0] by {
      assert c[0 + 1] in Deps(retained, c[0]);
    }
    forall i | 0 < i < |c| ensures c[i] == c[0] {
      var j := NotLater(order, retained, c, 0, i, at);
      if i < |c| - 1 {
        var last := NotLater(order, retained, c, i, |c| - 1, j);
        assert order[last] == order[at];
        assert last == at;
      }
    }
  }

  lemma {:induction false} NotLater(order: seq<Name>, retained: Retained, c: seq<Name>, start: nat, k: nat, at: nat)
    returns (j: nat)
    requires Distinct(order) && NoneLater(order, retained) && Chain(retained, c)
    requires start <= k < |c| && at < |order| && order[at] == c[start]
    ensures j <= at && order[j] == c[k]
    decreases k
  {
    if k == start {
      j := at;
    } else {
      var before := NotLater(order, retained, c, start, k - 1, at);
      assert c[k - 1 + 1] in Deps(retained, order[before]);
      j :| 0 <= j < before + 1 && order[j] == c[k];
    }
  }

  // --- every acyclic graph can be published ---------------------------------------------------

  lemma ClosesCycle(retained: Retained, path: seq<Name>, k: nat, dep: Name)
    requires Chain(retained, path) && k < |path| && dep == path[k] && dep in Deps(retained, path[|path| - 1])
    ensures Cycle(retained, path[k..] + [dep])
  {
    var c := path[k..] + [dep];
    forall i | 0 <= i < |c| - 1
      ensures c[i + 1] in Deps(retained, c[i])
    {
      if i < |c| - 2 {
        assert path[k + i + 1] in Deps(retained, path[k + i]);
      }
    }
  }

  lemma NotOnPath(retained: Retained, path: seq<Name>, dep: Name)
    requires (forall c :: !Cycle(retained, c)) && Chain(retained, path) && path != []
    requires dep in Deps(retained, path[|path| - 1])
    ensures dep !in path
  {
    hide Cycle;
    forall k | 0 <= k < |path|
      ensures path[k] != dep
    {
      if path[k] == dep {
        ClosesCycle(retained, path, k, dep);
      }
    }
  }

  /** Without cycles, some unlisted name needs listed names only: any walk among the unlisted ends at one. */
  lemma {:induction false} SomeReady(retained: Retained, names: set<Name>, listed: seq<Name>, path: seq<Name>) returns (ready: Name)
    requires forall c :: !Cycle(retained, c)
    requires forall name <- names :: forall dep <- Deps(retained, name) :: dep in names
    requires Chain(retained, path) && path != [] && forall name <- path :: name in names && name !in listed
    ensures ready in names && ready !in listed && forall dep <- Deps(retained, ready) :: dep in listed
    decreases names - set name | name in path
  {
    hide Cycle;
    ready := path[|path| - 1];
    if dep :| dep in Deps(retained, ready) && dep !in listed {
      NotOnPath(retained, path, dep);
      assert dep in names - (set name | name in path);
      ready := SomeReady(retained, names, listed, path + [dep]);
    }
  }

  lemma {:induction false} ListAll(retained: Retained, names: set<Name>, listed: seq<Name>) returns (order: seq<Name>)
    requires forall c :: !Cycle(retained, c)
    requires forall name <- names :: forall dep <- Deps(retained, name) :: dep in names
    requires Distinct(listed) && DepsFirst(retained, listed) && forall name <- listed :: name in names
    ensures Lists(order, names) && DepsFirst(retained, order)
    decreases names - set name | name in listed
  {
    hide Cycle;
    order := listed;
    if name :| name in names && name !in listed {
      var ready := SomeReady(retained, names, listed, [name]);
      var more := listed + [ready];
      assert ready in names - (set name | name in listed);
      forall i | 0 <= i < |more|
        ensures forall dep <- Deps(retained, more[i]) :: dep in more[..i]
      {
        assert more[..i] == listed[..i];
      }
      order := ListAll(retained, names, more);
    }
  }

  lemma DepsFirstNoneLater(order: seq<Name>, retained: Retained)
    requires DepsFirst(retained, order)
    ensures NoneLater(order, retained)
  {
    forall i | 0 <= i < |order|
      ensures forall dep <- Deps(retained, order[i]) :: dep in order[..i + 1]
    {
      assert order[..i] <= order[..i + 1];
    }
  }

  /** A graph without cycles has an order the check accepts. */
  lemma AcyclicHasOrder(retained: Retained, public: set<Name>)
    requires DepsPublic(retained, public) && forall c :: !Cycle(retained, c)
    ensures exists order :: Lists(order, public) && NoneLater(order, retained)
  {
    hide Cycle;
    var order := ListAll(retained, public, []);
    DepsFirstNoneLater(order, retained);
  }

  /** The public packages can be published, each after everything it needs,
      exactly when the walk finds no cycle. */
  lemma PublishableIffAcyclic(retained: Retained, public: set<Name>)
    requires DepsPublic(retained, public)
    ensures (exists order :: Lists(order, public) && DepsFirst(retained, order)) <==> forall c :: !Cycle(retained, c)
  {
    hide Cycle;
    if order :| Lists(order, public) && DepsFirst(retained, order) {
      FinishedAcyclic(retained, order);
    }
    if forall c :: !Cycle(retained, c) {
      var order := ListAll(retained, public, []);
    }
  }
}
