/** What an accepted creation trace guarantees, stated over the history of events alone. */
module OrderTraceProperties {
  import opened Results
  import opened OrderTrace

  // --- the history ---------------------------------------------------------------------------------

  predicate Concerns(event: Event, ident: Ident) {
    (event.Birth? || event.Assignment?) && Ident(event.kind, event.owner, event.token) == ident
  }

  ghost predicate Born(past: seq<Event>, ident: Ident) {
    exists j :: 0 <= j < |past| && past[j].Birth? && Concerns(past[j], ident)
  }

  /** The id an identity has acquired: that of its last birth or assignment. */
  function NaturalId(past: seq<Event>, ident: Ident): int {
    if past == [] then 0
    else
      var last := past[|past| - 1];
      if Concerns(last, ident) then last.semanticId else NaturalId(past[..|past| - 1], ident)
  }

  function Depth(past: seq<Event>): int {
    if past == [] then 0
    else
      var last := past[|past| - 1];
      Depth(past[..|past| - 1]) + if last.SortBegin? then 1 else if last.SortEnd? then -1 else 0
  }

  /** Event `j` begins the sort that is still open at nesting level `d`. */
  ghost predicate OpenAt(past: seq<Event>, d: int, j: int) {
    && 0 <= j < |past| && past[j].SortBegin? && Depth(past[..j]) == d
    && forall m | j < m <= |past| :: Depth(past[..m]) > d
  }

  ghost predicate OpenFrame(past: seq<Event>, d: int, j: int, frame: Frame) {
    OpenAt(past, d, j) && FrameOf(past[j]) == frame
  }

  ghost predicate IsOpen(past: seq<Event>, d: int, frame: Frame) {
    exists j :: OpenFrame(past, d, j, frame)
  }

  /** An operand that was born earlier and shows the id it has now. */
  ghost predicate Authentic(past: seq<Event>, value: Operand, kind: Kind) {
    var ident := IdentOf(value, kind);
    && value.observed
    && value.token > 0
    && Born(past, ident)
    && value.semanticId >= 0
    && value.semanticId == NaturalId(past, ident)
    && (kind == TypeKind && value.symbol.Some? ==> Authentic(past, value.symbol.value, SymbolKind))
    && (kind == SymbolKind ==> value.declarations.Some?)
  }

  /** A sort's end permutes the operands of the innermost sort still open. */
  ghost predicate Closes(past: seq<Event>, event: Event)
    requires event.SortEnd?
  {
    exists j :: OpenAt(past, Depth(past) - 1, j) && Permutes(FrameOf(past[j]), FrameOf(event))
  }

  ghost predicate EventOk(past: seq<Event>, event: Event) {
    match event
    case Birth(kind, owner, token, _, _) => !Born(past, Ident(kind, owner, token)) && BirthOk(event)
    case Assignment(kind, owner, token, id) =>
      var ident := Ident(kind, owner, token);
      token > 0 && kind == SymbolKind && Born(past, ident) && NaturalId(past, ident) == 0 && id > 0
    case SortBegin(kind, _, values) => forall v <- values :: Authentic(past, v, kind)
    case SortEnd(kind, _, values) => (forall v <- values :: Authentic(past, v, kind)) && Closes(past, event)
    case Fallback(kind, left, right, _, _) => Authentic(past, left, kind) && Authentic(past, right, kind) && FallbackOk(event)
    case Malformed => false
  }

  ghost predicate AllOk(events: seq<Event>) {
    forall k | 0 <= k < |events| :: EventOk(events[..k], events[k])
  }

  // --- the state describes the history -----------------------------------------------------------------

  ghost predicate IdsDescribe(s: State, past: seq<Event>) {
    && (forall ident :: ident in s.births <==> Born(past, ident))
    && s.current.Keys == s.births
    && forall ident :: Carried(s.current, ident) == NaturalId(past, ident)
  }

  ghost predicate SortsDescribe(s: State, past: seq<Event>) {
    && |s.sorts| == Depth(past)
    && (forall m | 0 <= m <= |past| :: Depth(past[..m]) >= 0)
    && forall d | 0 <= d < |s.sorts| :: IsOpen(past, d, s.sorts[d])
  }

  ghost predicate Contributes(labels: map<Ident, nat>, w: Witness, past: seq<Event>, k: int, tie: Tie) {
    0 <= k < |past| && TieOf(labels, w, past[k]) == Some(tie)
  }

  /** Some fallback of the history is a witnessed tie. */
  ghost predicate Contributed(labels: map<Ident, nat>, w: Witness, past: seq<Event>, tie: Tie) {
    exists k :: Contributes(labels, w, past, k, tie)
  }

  ghost predicate TiesDescribe(labels: map<Ident, nat>, w: Witness, s: State, past: seq<Event>) {
    forall tie :: tie in s.ties <==> Contributed(labels, w, past, tie)
  }

  lemma {:induction false} SnapshotIffAuthentic(s: State, past: seq<Event>, value: Operand, kind: Kind)
    requires IdsDescribe(s, past)
    ensures SnapshotOk(s.births, s.current, value, kind) <==> Authentic(past, value, kind)
    decreases value
  {
    hide NaturalId, Born;
    if kind == TypeKind && value.symbol.Some? {
      SnapshotIffAuthentic(s, past, value.symbol.value, SymbolKind);
    }
  }

  lemma SnapshotsIffAuthentic(s: State, past: seq<Event>, values: seq<Operand>, kind: Kind)
    requires IdsDescribe(s, past)
    ensures (exists v <- values :: !SnapshotOk(s.births, s.current, v, kind)) <==> !forall v <- values :: Authentic(past, v, kind)
  {
    hide IdsDescribe, SnapshotOk, Authentic;
    forall v <- values
      ensures SnapshotOk(s.births, s.current, v, kind) <==> Authentic(past, v, kind)
    {
      SnapshotIffAuthentic(s, past, v, kind);
    }
  }

  lemma OpenUnique(past: seq<Event>, d: int, i: int, j: int)
    requires OpenAt(past, d, i) && OpenAt(past, d, j)
    ensures i == j
  {
    hide Depth;
    var beforeI, beforeJ := Depth(past[..i]), Depth(past[..j]);
  }

  /** The top of the stack is the innermost open sort. */
  lemma TopCloses(s: State, past: seq<Event>, event: Event)
    requires SortsDescribe(s, past) && event.SortEnd?
    ensures s.sorts != [] && Permutes(s.sorts[|s.sorts| - 1], FrameOf(event)) <==> Closes(past, event)
  {
    hide Permutes, FrameOf, Depth;
    var d := |s.sorts| - 1;
    if s.sorts != [] {
      var j :| OpenFrame(past, d, j, s.sorts[d]);
      forall i | OpenAt(past, d, i)
        ensures i == j
      {
        OpenUnique(past, d, i, j);
      }
    }
  }

  lemma StepIff(labels: map<Ident, nat>, w: Witness, s: State, past: seq<Event>, event: Event)
    requires IdsDescribe(s, past) && SortsDescribe(s, past)
    ensures Step(labels, w, s, event).Accepted? <==> EventOk(past, event)
  {
    hide IdsDescribe, SortsDescribe, SnapshotOk, Authentic, BirthOk, FallbackOk, Permutes, NaturalId, Born, TieOf, Closes;
    match event {
      case Birth(kind, owner, token, _, _) => IdFacts(s, past, Ident(kind, owner, token));
      case Assignment(kind, owner, token, _) => IdFacts(s, past, Ident(kind, owner, token));
      case SortBegin(kind, _, values) => SnapshotsIffAuthentic(s, past, values, kind);
      case SortEnd(kind, _, values) =>
        SnapshotsIffAuthentic(s, past, values, kind);
        TopCloses(s, past, event);
      case Fallback(kind, left, right, _, _) =>
        SnapshotIffAuthentic(s, past, left, kind);
        SnapshotIffAuthentic(s, past, right, kind);
      case Malformed =>
    }
  }

  lemma IdFacts(s: State, past: seq<Event>, ident: Ident)
    requires IdsDescribe(s, past)
    ensures ident in s.births <==> Born(past, ident)
    ensures Carried(s.current, ident) == NaturalId(past, ident)
  {
  }

  // --- every run is described ------------------------------------------------------------------------------

  lemma IdsStep(labels: map<Ident, nat>, w: Witness, s: State, past: seq<Event>, event: Event)
    requires IdsDescribe(s, past) && Step(labels, w, s, event).Accepted?
    ensures IdsDescribe(Step(labels, w, s, event).value, past + [event])
  {
    hide SnapshotOk, TieOf, FrameOf, Permutes, FallbackOk, FamilyOf;
    var next, all := Step(labels, w, s, event).value, past + [event];
    assert all[..|past|] == past;
    forall ident
      ensures Born(all, ident) <==> Born(past, ident) || (event.Birth? && Concerns(event, ident))
      ensures ident in next.births <==> Born(all, ident)
      ensures Carried(next.current, ident) == NaturalId(all, ident)
    {
      IdFacts(s, past, ident);
      BornStep(past, event, ident);
    }
  }

  lemma BornStep(past: seq<Event>, event: Event, ident: Ident)
    ensures Born(past + [event], ident) <==> Born(past, ident) || (event.Birth? && Concerns(event, ident))
  {
    var all := past + [event];
    if Born(past, ident) {
      var j :| 0 <= j < |past| && past[j].Birth? && Concerns(past[j], ident);
      assert all[j] == past[j];
    }
    if event.Birth? && Concerns(event, ident) {
      assert all[|past|] == event;
    }
    if Born(all, ident) {
      var j :| 0 <= j < |all| && all[j].Birth? && Concerns(all[j], ident);
      assert j < |past| ==> past[j] == all[j];
    }
  }

  /** Sorts that stay open as one more event is seen. */
  lemma OpenStays(past: seq<Event>, event: Event, d: int, j: int)
    requires OpenAt(past, d, j) && Depth(past + [event]) > d
    ensures OpenAt(past + [event], d, j)
  {
    hide Depth;
    var all := past + [event];
    assert all[..|past|] == past && all[..|all|] == all;
    assert all[..j] == past[..j];
    forall m | j < m <= |all|
      ensures Depth(all[..m]) > d
    {
      if m <= |past| {
        assert all[..m] == past[..m];
      }
    }
  }

  lemma SortsStep(labels: map<Ident, nat>, w: Witness, s: State, past: seq<Event>, event: Event)
    requires SortsDescribe(s, past) && Step(labels, w, s, event).Accepted?
    ensures SortsDescribe(Step(labels, w, s, event).value, past + [event])
  {
    hide SnapshotOk, TieOf, FrameOf, Permutes, FallbackOk, FamilyOf, BirthOk, Carried;
    var next, all := Step(labels, w, s, event).value, past + [event];
    assert all[..|past|] == past && all[..|all|] == all;
    assert Depth(all) == Depth(past) + if event.SortBegin? then 1 else if event.SortEnd? then -1 else 0;
    hide Depth;
    forall m | 0 <= m <= |all|
      ensures Depth(all[..m]) >= 0
    {
      if m <= |past| {
        assert all[..m] == past[..m];
      }
    }
    forall d | 0 <= d < |next.sorts|
      ensures IsOpen(all, d, next.sorts[d])
    {
      if d < |s.sorts| {
        var j :| OpenFrame(past, d, j, s.sorts[d]);
        OpenStays(past, event, d, j);
        assert all[j] == past[j] && OpenFrame(all, d, j, next.sorts[d]);
      } else {
        OpensHere(past, event);
        assert all[|past|] == event && OpenFrame(all, d, |past|, next.sorts[d]);
      }
    }
  }

  lemma OpensHere(past: seq<Event>, event: Event)
    requires event.SortBegin?
    ensures OpenAt(past + [event], Depth(past), |past|)
  {
    var all := past + [event];
    assert all[..|past|] == past && all[..|all|] == all;
  }

  lemma TiesStep(labels: map<Ident, nat>, w: Witness, s: State, past: seq<Event>, event: Event)
    requires TiesDescribe(labels, w, s, past) && Step(labels, w, s, event).Accepted?
    ensures TiesDescribe(labels, w, Step(labels, w, s, event).value, past + [event])
  {
    var next, all := Step(labels, w, s, event).value, past + [event];
    assert next.ties == (if TieOf(labels, w, event).Some? then s.ties + {TieOf(labels, w, event).value} else s.ties);
    hide Step, TieOf;
    forall tie
      ensures tie in next.ties <==> Contributed(labels, w, all, tie)
    {
      if tie in s.ties {
        var k :| Contributes(labels, w, past, k, tie);
        assert Contributes(labels, w, all, k, tie);
      } else if TieOf(labels, w, event) == Some(tie) {
        assert Contributes(labels, w, all, |past|, tie);
      }
      forall k | Contributes(labels, w, all, k, tie)
        ensures tie in next.ties
      {
        if k < |past| {
          assert Contributes(labels, w, past, k, tie);
        }
      }
    }
  }

  /** The loop accepts exactly the traces whose every event fits what came before it. */
  lemma {:induction false} RunIffAllOk(labels: map<Ident, nat>, w: Witness, events: seq<Event>)
    ensures Run(labels, w, events).Accepted? <==> AllOk(events)
    ensures Run(labels, w, events).Accepted? ==>
              var s := Run(labels, w, events).value;
              IdsDescribe(s, events) && SortsDescribe(s, events) && TiesDescribe(labels, w, s, events)
  {
    hide Step, EventOk, NaturalId, Born;
    if events == [] {
      EmptyDescribes(labels, w);
      return;
    }
    hide IdsDescribe, SortsDescribe, TiesDescribe;
    var past, event := events[..|events| - 1], events[|events| - 1];
    assert events == past + [event];
    RunIffAllOk(labels, w, past);
    AllOkStep(past, event);
    if Run(labels, w, past).Accepted? {
      var s := Run(labels, w, past).value;
      StepIff(labels, w, s, past, event);
      if Step(labels, w, s, event).Accepted? {
        IdsStep(labels, w, s, past, event);
        SortsStep(labels, w, s, past, event);
        TiesStep(labels, w, s, past, event);
      }
    }
  }

  lemma EmptyDescribes(labels: map<Ident, nat>, w: Witness)
    ensures IdsDescribe(EMPTY, []) && SortsDescribe(EMPTY, []) && TiesDescribe(labels, w, EMPTY, [])
  {
    var none: seq<Event> := [];
    assert none[..0] == none;
  }

  lemma AllOkStep(past: seq<Event>, event: Event)
    ensures AllOk(past + [event]) <==> AllOk(past) && EventOk(past, event)
  {
    hide EventOk;
    var all := past + [event];
    assert all[..|past|] == past && all[|past|] == event;
    assert forall k | 0 <= k < |past| :: all[..k] == past[..k] && all[k] == past[k];
    if AllOk(all) {
      forall k | 0 <= k < |past|
        ensures EventOk(past[..k], past[k])
      {
        assert EventOk(all[..k], all[k]);
      }
      assert EventOk(all[..|past|], all[|past|]);
    }
  }

  ghost predicate Witnessed(w: Witness, events: seq<Event>) {
    exists tie :: Contributed(Labels(w.operands, w.kind), w, events, tie)
  }

  predicate MappedOk(w: Witness) {
    w.reverseMapped ==> forall v <- w.operands :: ReverseMapped(v)
  }

  lemma TiesWitness(w: Witness, events: seq<Event>, s: State)
    requires TiesDescribe(Labels(w.operands, w.kind), w, s, events)
    ensures s.ties != {} <==> Witnessed(w, events)
  {
    hide Contributed;
    assert s.ties != {} ==> exists tie :: tie in s.ties;
  }

  /** The main result: validation accepts exactly the complete traces, and
      reports exactly the witnessed ties of their fallbacks. */
  lemma ValidateIff(w: Witness, events: seq<Event>)
    ensures Validate(w, events).Accepted? <==>
              events != [] && OperandsOk(w) && AllOk(events) && Depth(events) == 0 && Witnessed(w, events) && MappedOk(w)
    ensures Validate(w, events).Accepted? ==>
              TiesDescribe(Labels(w.operands, w.kind), w, EMPTY.(ties := Validate(w, events).value.ties), events)
  {
    hide Run, AllOk, Depth, Labels, OperandsOk, TieOf, IdsDescribe, ReverseMapped, Contributed, Witnessed;
    var labels := Labels(w.operands, w.kind);
    RunIffAllOk(labels, w, events);
    if Run(labels, w, events).Accepted? {
      TiesWitness(w, events, Run(labels, w, events).value);
    }
  }
}
