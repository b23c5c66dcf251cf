/** The order that the ties of an accepted trace come from, and when they fail to have one. */
module OrderTies {
  import opened Results
  import opened OrderTrace
  import opened OrderTraceProperties

  // --- identities --------------------------------------------------------------------------------

  lemma AllOkPrefix(events: seq<Event>, n: nat)
    requires AllOk(events) && n <= |events|
    ensures AllOk(events[..n])
  {
    hide EventOk;
    forall k | 0 <= k < n
      ensures EventOk(events[..n][..k], events[..n][k])
    {
      assert events[..n][..k] == events[..k];
    }
  }

  /** Ids are never negative, and only born identities carry one. */
  lemma {:induction false} CarriedIsBorn(events: seq<Event>, ident: Ident)
    requires AllOk(events)
    ensures NaturalId(events, ident) >= 0
    ensures NaturalId(events, ident) != 0 ==> Born(events, ident)
  {
    hide Authentic, Closes, FallbackOk;
    if events != [] {
      var past, event := events[..|events| - 1], events[|events| - 1];
      AllOkPrefix(events, |past|);
      CarriedIsBorn(past, ident);
      assert events == past + [event];
      BornStep(past, event, ident);
      assert EventOk(past, event);
    }
  }

  /** An acquired id stays. */
  lemma {:induction false} IdNeverChanges(events: seq<Event>, n: nat, ident: Ident)
    requires AllOk(events) && n <= |events| && NaturalId(events[..n], ident) != 0
    ensures NaturalId(events, ident) == NaturalId(events[..n], ident)
    decreases |events|
  {
    hide Authentic, Closes, FallbackOk, Born;
    if n < |events| {
      var past, event := events[..|events| - 1], events[|events| - 1];
      AllOkPrefix(events, |past|);
      assert past[..n] == events[..n];
      IdNeverChanges(past, n, ident);
      CarriedIsBorn(past, ident);
      assert EventOk(past, event);
      assert !Concerns(event, ident);
    } else {
      assert events[..n] == events;
    }
  }

  /** A symbol's id is assigned at most once, and an object is born at most once. */
  lemma NamedOnce(events: seq<Event>, j: nat, k: nat, ident: Ident)
    requires AllOk(events) && j <= k < |events|
    requires Concerns(events[j], ident) && Concerns(events[k], ident)
    requires events[j].Birth? == events[k].Birth?
    ensures j == k
  {
    hide Authentic, Closes, FallbackOk, AllOk;
    AllOkAt(events, j);
    AllOkAt(events, k);
    var first, past := events[..j + 1], events[..k];
    assert first[..j] == events[..j];
    assert NaturalId(first, ident) == events[j].semanticId;
    if j < k {
      assert past[j] == events[j];
      assert events[j].Birth? ==> Born(past, ident);
      if events[j].Assignment? {
        AllOkPrefix(events, k);
        assert past[..j + 1] == first;
        IdNeverChanges(past, j + 1, ident);
      }
    }
  }

  lemma AllOkAt(events: seq<Event>, k: nat)
    requires AllOk(events) && k < |events|
    ensures EventOk(events[..k], events[k])
  {
  }

  // --- sorts nest ------------------------------------------------------------------------------------

  /** The first event after `j` that takes the depth back to what it was before it. */
  lemma ReturnsToDepth(events: seq<Event>, j: nat) returns (k: nat)
    requires j < |events| && events[j].SortBegin? && Depth(events) <= Depth(events[..j])
    ensures j < k < |events| && events[k].SortEnd? && Depth(events[..k + 1]) == Depth(events[..j])
    ensures forall m | j < m <= k :: Depth(events[..m]) > Depth(events[..j])
  {
    hide Depth;
    var d := Depth(events[..j]);
    assert events[..|events|] == events;
    DepthMoves(events, j);
    k := j + 1;
    while Depth(events[..k + 1]) > d
      invariant j < k < |events|
      invariant forall m | j < m <= k :: Depth(events[..m]) > d
      decreases |events| - k
    {
      k := k + 1;
    }
    DepthMoves(events, k);
  }

  /** In a complete trace every sort that begins ends, and its end permutes its
      operands; whatever sorts run in between are complete too. */
  lemma SortsNest(w: Witness, events: seq<Event>, j: nat) returns (k: nat)
    requires Validate(w, events).Accepted? && j < |events| && events[j].SortBegin?
    ensures j < k < |events| && events[k].SortEnd?
    ensures OpenAt(events[..k], Depth(events[..k]) - 1, j) && Depth(events[..k + 1]) == Depth(events[..j])
    ensures Permutes(FrameOf(events[j]), FrameOf(events[k]))
  {
    hide Validate, Depth, AllOk, OpenAt, Permutes, FrameOf;
    DepthNonnegative(w, events, j);
    k := ReturnsToDepth(events, j);
    DepthMoves(events, k);
    AllOkAt(events, k);
    StaysOpen(events, j, k);
    EndPermutes(events[..k], events[k], j);
  }

  lemma StaysOpen(events: seq<Event>, j: nat, k: nat)
    requires j < k < |events| && events[j].SortBegin?
    requires forall m | j < m <= k :: Depth(events[..m]) > Depth(events[..j])
    ensures OpenAt(events[..k], Depth(events[..j]), j)
  {
    hide Depth;
    var past := events[..k];
    assert past[..j] == events[..j];
    forall m | j < m <= |past|
      ensures Depth(past[..m]) > Depth(past[..j])
    {
      assert past[..m] == events[..m];
    }
  }

  /** A sort can only be ended by a permutation of the innermost open one. */
  lemma EndPermutes(past: seq<Event>, event: Event, j: nat)
    requires EventOk(past, event) && event.SortEnd? && OpenAt(past, Depth(past) - 1, j)
    ensures Permutes(FrameOf(past[j]), FrameOf(event))
  {
    hide Depth, Authentic, Permutes;
    var i :| OpenAt(past, Depth(past) - 1, i) && Permutes(FrameOf(past[i]), FrameOf(event));
    OpenUnique(past, Depth(past) - 1, i, j);
  }

  lemma DepthNonnegative(w: Witness, events: seq<Event>, j: nat)
    requires Validate(w, events).Accepted? && j <= |events|
    ensures AllOk(events) && Depth(events) == 0 <= Depth(events[..j])
  {
    hide Depth, AllOk, Labels, OperandsOk, IdsDescribe, TiesDescribe, IsOpen, Contributed;
    ValidateIff(w, events);
    hide Validate;
    RunIffAllOk(Labels(w.operands, w.kind), w, events);
    hide Run;
  }

  lemma DepthMoves(events: seq<Event>, k: nat)
    requires k < |events|
    ensures Depth(events[..k + 1]) == Depth(events[..k]) + if events[k].SortBegin? then 1 else if events[k].SortEnd? then -1 else 0
  {
    assert events[..k + 1][..k] == events[..k];
  }

  // --- ties ---------------------------------------------------------------------------------------------

  /** The sign the final ids give to a fallback's operands. */
  function FinalSign(events: seq<Event>, event: Event): int
    requires event.Fallback?
  {
    Sign(NaturalId(events, IdentOf(event.left, event.kind)) - NaturalId(events, IdentOf(event.right, event.kind)))
  }

  /** The final ids order the operands as the comparison did: at once if both ids
      were assigned, and otherwise if the ids assigned later fall on the right side. */
  predicate InOrder(events: seq<Event>, event: Event)
    requires event.Fallback?
  {
    var x, y := NaturalId(events, IdentOf(event.left, event.kind)), NaturalId(events, IdentOf(event.right, event.kind));
    var leftLate, rightLate := event.left.semanticId != x, event.right.semanticId != y;
    if leftLate && rightLate then x == y
    else if leftLate then x < y
    else if rightLate then y < x
    else true
  }

  /** A comparison made on an id that is assigned later is still that of the
      final ids exactly in these cases. */
  lemma TieAgreesIff(events: seq<Event>, k: nat)
    requires AllOk(events) && k < |events| && events[k].Fallback?
    ensures events[k].sign == FinalSign(events, events[k]) <==> InOrder(events, events[k])
  {
    var event := events[k];
    var left, right := IdentOf(event.left, event.kind), IdentOf(event.right, event.kind);
    LateIsZero(events, k, left);
    LateIsZero(events, k, right);
    AllOkAt(events, k);
    hide AllOk, NaturalId, Born;
  }

  /** An id that changes after event `k` was still missing then. */
  lemma LateIsZero(events: seq<Event>, k: nat, ident: Ident)
    requires AllOk(events) && k < |events|
    ensures NaturalId(events[..k], ident) == 0 || NaturalId(events[..k], ident) == NaturalId(events, ident)
    ensures NaturalId(events, ident) >= 0
  {
    hide AllOk;
    CarriedIsBorn(events, ident);
    if NaturalId(events[..k], ident) != 0 {
      IdNeverChanges(events, k, ident);
    }
  }

  /** Both operands already carried ids that never change. */
  predicate Settled(event: Event)
    requires event.Fallback?
  {
    event.left.semanticId != 0 && event.right.semanticId != 0
  }

  /** The final id of the operand with this label. */
  function Rank(w: Witness, events: seq<Event>, position: nat): int
    requires position < |w.operands|
  {
    NaturalId(events, IdentOf(w.operands[position], w.kind))
  }

  lemma {:induction false} LabelsName(operands: seq<Operand>, kind: Kind)
    ensures forall ident <- Labels(operands, kind) ::
              Labels(operands, kind)[ident] < |operands| && IdentOf(operands[Labels(operands, kind)[ident]], kind) == ident
  {
    if operands != [] {
      LabelsName(operands[..|operands| - 1], kind);
    }
  }

  /** A tie's place in the order of the final ids. */
  predicate Ranked(w: Witness, events: seq<Event>, tie: Tie) {
    tie.low < tie.high < |w.operands| && tie.sign == Sign(Rank(w, events, tie.low) - Rank(w, events, tie.high))
  }

  /** A fallback's tie is the comparison of two ranks exactly when its sign is that of the final ids. */
  lemma TieRanks(w: Witness, events: seq<Event>, k: nat, tie: Tie)
    requires AllOk(events) && Contributes(Labels(w.operands, w.kind), w, events, k, tie)
    ensures Ranked(w, events, tie) <==> InOrder(events, events[k])
  {
    LabelsName(w.operands, w.kind);
    TieAgreesIff(events, k);
    hide AllOk, NaturalId, Born, Labels, Authentic, FallbackOk, InOrder;
  }

  lemma SettledInOrder(events: seq<Event>, k: nat)
    requires AllOk(events) && k < |events| && events[k].Fallback? && Settled(events[k])
    ensures InOrder(events, events[k])
  {
    hide NaturalId, Born, FallbackOk;
    var event := events[k];
    LateIsZero(events, k, IdentOf(event.left, event.kind));
    LateIsZero(events, k, IdentOf(event.right, event.kind));
    AllOkAt(events, k);
  }

  /** The main result: the reported ties are one numeric order, that of the final
      ids, exactly when every witnessed comparison made on an id assigned later
      happens to fall on the right side. */
  lemma TiesEmbedIff(w: Witness, events: seq<Event>)
    requires Validate(w, events).Accepted?
    ensures (forall tie <- Validate(w, events).value.ties :: Ranked(w, events, tie)) <==>
            forall k | 0 <= k < |events| && TieOf(Labels(w.operands, w.kind), w, events[k]).Some? :: InOrder(events, events[k])
  {
    hide AllOk, Labels, Validate, Ranked, InOrder, Depth, OperandsOk;
    ValidateIff(w, events);
    var labels := Labels(w.operands, w.kind);
    var ties := Validate(w, events).value.ties;
    forall k, tie | Contributes(labels, w, events, k, tie)
      ensures tie in ties && (Ranked(w, events, tie) <==> InOrder(events, events[k]))
    {
      assert Contributed(labels, w, events, tie);
      TieRanks(w, events, k, tie);
    }
    forall tie <- ties
      ensures exists k :: Contributes(labels, w, events, k, tie)
    {
      assert Contributed(labels, w, events, tie);
    }
    forall k | 0 <= k < |events| && TieOf(labels, w, events[k]).Some?
      ensures Contributes(labels, w, events, k, TieOf(labels, w, events[k]).value)
    {
    }
  }

  /** A reported tie that some fallback showed in order. */
  ghost predicate OrderedTie(w: Witness, events: seq<Event>, tie: Tie) {
    exists k :: Contributes(Labels(w.operands, w.kind), w, events, k, tie) && events[k].Fallback? && InOrder(events, events[k])
  }

  /** A reported tie that some fallback showed between operands with assigned ids. */
  ghost predicate SettledTie(w: Witness, events: seq<Event>, tie: Tie) {
    exists k :: Contributes(Labels(w.operands, w.kind), w, events, k, tie) && events[k].Fallback? && Settled(events[k])
  }

  /** The sign with which a tie compares two operands, if it is about them. */
  function Compares(tie: Tie, u: nat, v: nat): Option<int> {
    if u == tie.low && v == tie.high then Some(tie.sign)
    else if u == tie.high && v == tie.low then Some(-tie.sign)
    else None
  }

  /** Some ordered tie puts `u` before `v`, or, unless `strict`, level with it. */
  ghost predicate Precedes(w: Witness, events: seq<Event>, u: nat, v: nat, strict: bool) {
    exists tie :: OrderedTie(w, events, tie) && Compares(tie, u, v).Some? &&
                  (Compares(tie, u, v).value < 0 || (!strict && Compares(tie, u, v).value == 0))
  }

  /** Operands of which each precedes the next or is level with it. */
  ghost predicate Chain(w: Witness, events: seq<Event>, path: seq<nat>) {
    path != [] && forall i | 0 < i < |path| :: Precedes(w, events, path[i - 1], path[i], false)
  }

  ghost predicate TieCycle(w: Witness, events: seq<Event>, path: seq<nat>) {
    && Chain(w, events, path) && path[0] == path[|path| - 1]
    && exists i :: 0 < i < |path| && Precedes(w, events, path[i - 1], path[i], true)
  }

  /** Ties shown in order, of which those between assigned ids are a part, follow the
      final ids, whatever the other ties do; so no two of them contradict and none
      form a cycle. */
  lemma TiesEmbed(w: Witness, events: seq<Event>)
    requires Validate(w, events).Accepted?
    ensures forall tie | SettledTie(w, events, tie) :: OrderedTie(w, events, tie)
    ensures forall tie | OrderedTie(w, events, tie) :: tie in Validate(w, events).value.ties && Ranked(w, events, tie)
    ensures forall s, t | OrderedTie(w, events, s) && OrderedTie(w, events, t) && s.low == t.low && s.high == t.high :: s == t
    ensures forall path :: !TieCycle(w, events, path)
  {
    hide AllOk, Labels, Validate, InOrder, Depth, OperandsOk, Settled, TieOf, NaturalId, Chain, Precedes, Compares;
    ValidateIff(w, events);
    var labels := Labels(w.operands, w.kind);
    forall tie | SettledTie(w, events, tie)
      ensures OrderedTie(w, events, tie)
    {
      var k :| Contributes(labels, w, events, k, tie) && events[k].Fallback? && Settled(events[k]);
      SettledInOrder(events, k);
    }
    forall tie | OrderedTie(w, events, tie)
      ensures Contributed(labels, w, events, tie) && Ranked(w, events, tie)
    {
      var k :| Contributes(labels, w, events, k, tie) && events[k].Fallback? && InOrder(events, events[k]);
      TieRanks(w, events, k, tie);
    }
    forall path
      ensures !TieCycle(w, events, path)
    {
      if TieCycle(w, events, path) {
        ChainAscends(w, events, path);
        assert false;
      }
    }
  }

  ghost predicate AllRanked(w: Witness, events: seq<Event>) {
    forall tie | OrderedTie(w, events, tie) :: Ranked(w, events, tie)
  }

  lemma StepAscends(w: Witness, events: seq<Event>, u: nat, v: nat, strict: bool)
    requires AllRanked(w, events) && Precedes(w, events, u, v, strict)
    ensures u < |w.operands| && v < |w.operands|
    ensures Rank(w, events, u) <= Rank(w, events, v) && (strict ==> Rank(w, events, u) < Rank(w, events, v))
  {
    hide OrderedTie, Rank;
  }

  /** Along a chain the final ids never fall, and they rise where it is strict. */
  lemma {:induction false} ChainAscends(w: Witness, events: seq<Event>, path: seq<nat>)
    requires AllRanked(w, events) && Chain(w, events, path) && |path| > 1
    ensures forall i | 0 <= i < |path| :: path[i] < |w.operands|
    ensures Rank(w, events, path[0]) <= Rank(w, events, path[|path| - 1])
    ensures (exists i :: 0 < i < |path| && Precedes(w, events, path[i - 1], path[i], true)) ==>
              Rank(w, events, path[0]) < Rank(w, events, path[|path| - 1])
  {
    hide AllRanked, Rank, Precedes;
    var n := |path| - 1;
    StepAscends(w, events, path[n - 1], path[n], false);
    if Precedes(w, events, path[n - 1], path[n], true) {
      StepAscends(w, events, path[n - 1], path[n], true);
    }
    if n > 1 {
      var before := path[..n];
      assert Chain(w, events, before);
      ChainAscends(w, events, before);
      assert path == before + [path[n]];
      assert forall i | 0 <= i < n :: before[i] == path[i];
    }
  }

  /** Types carry their ids from birth, so their ties need no condition. */
  lemma TypeTiesSettled(w: Witness, events: seq<Event>)
    requires Validate(w, events).Accepted? && w.kind == TypeKind
    ensures forall k | 0 <= k < |events| && TieOf(Labels(w.operands, w.kind), w, events[k]).Some? :: Settled(events[k])
  {
    ValidateIff(w, events);
    hide AllOk, Labels, Validate, OperandsOk, NaturalId, Born, FallbackOk;
    forall k | 0 <= k < |events| && TieOf(Labels(w.operands, w.kind), w, events[k]).Some?
      ensures Settled(events[k])
    {
      AllOkAt(events, k);
      AllOkPrefix(events, k);
      TypeIdIsToken(events[..k], IdentOf(events[k].left, TypeKind));
      TypeIdIsToken(events[..k], IdentOf(events[k].right, TypeKind));
    }
  }

  lemma {:induction false} TypeIdIsToken(events: seq<Event>, ident: Ident)
    requires AllOk(events) && ident.kind == TypeKind && Born(events, ident)
    ensures NaturalId(events, ident) == ident.token
  {
    hide Authentic, Closes, FallbackOk;
    var past, event := events[..|events| - 1], events[|events| - 1];
    assert events == past + [event] && EventOk(past, event);
    BornStep(past, event, ident);
    if !Concerns(event, ident) {
      AllOkPrefix(events, |past|);
      TypeIdIsToken(past, ident);
    }
  }

  // --- without assigned ids ---------------------------------------------------------------------------------

  function SmallOperand(token: int, id: int): Operand {
    Operand(true, 0, token, id, None, "p", Some([]), 0, 0)
  }

  function SmallBirth(token: int): Event {
    Birth(SymbolKind, 0, token, 0, [Site("a.ts", 1)])
  }

  function SmallTie(left: int, right: int, sign: int): Event {
    Fallback(SymbolKind, SmallOperand(1, left), SmallOperand(2, right), sign, "declarationless")
  }

  /** Two symbols compared before, between and after the assignment of their ids. */
  function ContradictoryTrace(): seq<Event> {
    [ SmallBirth(1), SmallBirth(2), SmallTie(0, 0, 0), Assignment(SymbolKind, 0, 1, 5), SmallTie(5, 0, 1),
      Assignment(SymbolKind, 0, 2, 7), SmallTie(5, 7, -1) ]
  }

  const SMALL := Witness(SymbolKind, [SmallOperand(1, 5), SmallOperand(2, 7)], 2, "declarationless", false)

  const FIRST := Ident(SymbolKind, 0, 1)
  const SECOND := Ident(SymbolKind, 0, 2)

  lemma SmallLabels()
    ensures Labels(SMALL.operands, SymbolKind) == map[FIRST := 0, SECOND := 1] && OperandsOk(SMALL)
  {
    var operands := SMALL.operands;
    assert operands[..1] == [operands[0]] && operands[..1][..0] == [];
    assert Labels(operands[..1], SymbolKind) == Labels([], SymbolKind)[FIRST := 0];
  }

  /** The validator's state after the first `n` events. */
  function Stage(n: nat): State
    requires n <= 7
  {
    var ids: map<Ident, int> := if n == 0 then map[] else if n == 1 then map[FIRST := 0]
               else map[FIRST := if n < 4 then 0 else 5, SECOND := if n < 6 then 0 else 7];
    var ties := if n < 3 then {} else if n < 5 then {Tie(0, 1, 0)} else if n < 7 then {Tie(0, 1, 0), Tie(0, 1, 1)}
                else {Tie(0, 1, 0), Tie(0, 1, 1), Tie(0, 1, -1)};
    State(ids.Keys, ids, if n < 3 then {} else {Family(SymbolKind, "declarationless", 0, 0, 0, 0)}, [], ties)
  }

  lemma StageStep(n: nat)
    requires n < 7
    ensures Step(map[FIRST := 0, SECOND := 1], SMALL, Stage(n), ContradictoryTrace()[n]) == Accepted(Stage(n + 1))
  {
    var s, next, event := Stage(n), Stage(n + 1), ContradictoryTrace()[n];
    if event.Birth? || event.Assignment? {
      var ident := Ident(SymbolKind, 0, event.token);
      assert s.current[ident := event.semanticId] == next.current;
      assert s.births + {ident} == next.births;
      assert s.births == s.current.Keys && next.births == next.current.Keys;
      assert s.births == if n == 0 then {} else if n == 1 then {FIRST} else {FIRST, SECOND};
      assert event.Assignment? ==> s.births == next.births;
    } else {
      assert s.births == {FIRST, SECOND} == next.births;
      assert SnapshotOk(s.births, s.current, event.left, SymbolKind) && SnapshotOk(s.births, s.current, event.right, SymbolKind);
      assert s.families + {FamilyOf(event)} == next.families;
      assert s.ties + {Tie(0, 1, event.sign)} == next.ties;
    }
  }

  lemma {:induction false} RunStages(n: nat)
    requires n <= 7
    ensures Run(map[FIRST := 0, SECOND := 1], SMALL, ContradictoryTrace()[..n]) == Accepted(Stage(n))
  {
    hide Step;
    assert Stage(0) == EMPTY;
    if n > 0 {
      RunStages(n - 1);
      StageStep(n - 1);
      assert ContradictoryTrace()[..n][..n - 1] == ContradictoryTrace()[..n - 1];
    }
  }

  /** Every sign is reported for one pair of operands. */
  lemma UnassignedTiesContradict()
    ensures var r := Validate(SMALL, ContradictoryTrace());
            r.Accepted? && r.value.ties == {Tie(0, 1, 0), Tie(0, 1, 1), Tie(0, 1, -1)}
  {
    hide Labels, Run, OperandsOk;
    SmallLabels();
    RunStages(7);
    assert ContradictoryTrace()[..7] == ContradictoryTrace();
    assert Tie(0, 1, 0) in Stage(7).ties;
  }
}
