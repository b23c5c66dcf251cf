/** The accepted creation traces event by event, and the whole report on one
    (`validate_trace` in scripts/phase2_order_trace.py), without the tables of the loop. */
module OrderLegal {
  import opened Results
  import opened OrderTrace
  import opened OrderTraceProperties

  predicate About(event: Event, kind: Kind, owner: int, token: int) {
    (event.Birth? || event.Assignment?) && event.kind == kind && event.owner == owner && event.token == token
  }

  ghost predicate BornAs(past: seq<Event>, kind: Kind, owner: int, token: int) {
    exists event <- past :: event.Birth? && About(event, kind, owner, token)
  }

  /** The id that the last event about the object gave it. */
  ghost predicate HasId(past: seq<Event>, kind: Kind, owner: int, token: int, id: int) {
    exists j | 0 <= j < |past| :: LastAbout(past, kind, owner, token, j) && past[j].semanticId == id
  }

  predicate LastAbout(past: seq<Event>, kind: Kind, owner: int, token: int, j: nat) {
    && j < |past| && About(past[j], kind, owner, token)
    && forall k | j < k < |past| :: !About(past[k], kind, owner, token)
  }

  /** An observed operand that exists and shows its current id; a type shows its symbol
      likewise, a symbol its declarations. */
  ghost predicate Shown(past: seq<Event>, v: Operand, kind: Kind) {
    && v.observed && v.token > 0 && v.semanticId >= 0
    && BornAs(past, kind, v.owner, v.token) && HasId(past, kind, v.owner, v.token, v.semanticId)
    && match kind
       case TypeKind => v.symbol.None? || Shown(past, v.symbol.value, SymbolKind)
       case SymbolKind => v.declarations.Some?
  }

  ghost predicate AllShown(past: seq<Event>, values: seq<Operand>, kind: Kind) {
    forall v <- values :: Shown(past, v, kind)
  }

  /** The values without their ids and flags. */
  function Objects(values: seq<Operand>): multiset<(int, int)> {
    if values == [] then multiset{}
    else Objects(values[..|values| - 1]) + multiset{(values[|values| - 1].owner, values[|values| - 1].token)}
  }

  ghost predicate Ends(past: seq<Event>, kind: Kind, operation: string, values: seq<Operand>) {
    exists j ::
      && OpenAt(past, Depth(past) - 1, j)
      && past[j].kind == kind && past[j].operation == operation && Objects(past[j].values) == Objects(values)
  }

  /** Two symbols that the comparison cannot tell apart, for the reason reported. */
  predicate Alike(a: Operand, b: Operand, branch: string)
    requires a.declarations.Some? && b.declarations.Some?
  {
    var x, y := a.declarations.value, b.declarations.value;
    && a.name == b.name
    && (branch == "declarationless" ==> |x| == 0 && |y| == 0)
    && (branch == "equal_first_declaration" ==> |x| > 0 && |y| > 0 && x[0] == y[0])
  }

  ghost predicate Legal(past: seq<Event>, event: Event) {
    match event
    case Birth(kind, owner, token, id, sites) =>
      && token > 0 && !BornAs(past, kind, owner, token)
      && |sites| > 0 && (forall site <- sites :: |site.file| > 0 && site.line >= 1)
      && id == (match kind case TypeKind => token case SymbolKind => 0)
    case Assignment(kind, owner, token, id) =>
      && token > 0 && kind == SymbolKind && id > 0
      && BornAs(past, kind, owner, token) && HasId(past, kind, owner, token, 0)
    case SortBegin(kind, _, values) => AllShown(past, values, kind)
    case SortEnd(kind, operation, values) => AllShown(past, values, kind) && Ends(past, kind, operation, values)
    case Fallback(kind, left, right, sign, branch) =>
      && Shown(past, left, kind) && Shown(past, right, kind)
      && (left.semanticId < right.semanticId ==> sign == -1)
      && (left.semanticId == right.semanticId ==> sign == 0)
      && (left.semanticId > right.semanticId ==> sign == 1)
      && (branch == "final_type_id" || branch == "declarationless" || branch == "equal_first_declaration")
      && (kind == SymbolKind ==> Alike(left, right, branch))
    case Malformed => false
  }

  // --- the report ---------------------------------------------------------------------------------------

  /** The last operand of the request that is this object. */
  predicate LabelAt(w: Witness, v: Operand, a: nat) {
    && a < |w.operands| && w.operands[a].owner == v.owner && w.operands[a].token == v.token
    && forall k | a < k < |w.operands| :: w.operands[k].owner != v.owner || w.operands[k].token != v.token
  }

  /** A fallback between two operands of the request, by the branch asked for. */
  ghost predicate Witnesses(w: Witness, event: Event, tie: Tie) {
    && event.Fallback? && event.kind == w.kind && event.branch == w.requiredBranch
    && (event.left.owner != event.right.owner || event.left.token != event.right.token)
    && exists a, b ::
         && LabelAt(w, event.left, a) && LabelAt(w, event.right, b)
         && tie == if a < b then Tie(a, b, event.sign) else Tie(b, a, -event.sign)
  }

  predicate ShowsFamily(event: Event, f: Family) {
    event.Fallback? && f == Family(event.kind, event.branch, event.left.flags, event.right.flags,
                                   event.left.objectFlags, event.right.objectFlags)
  }

  function BirthCount(events: seq<Event>): nat {
    if events == [] then 0 else BirthCount(events[1..]) + if events[0].Birth? then 1 else 0
  }

  function Named(operands: seq<Operand>): set<(int, int)> {
    set v | v in operands :: (v.owner, v.token)
  }

  /** Ten bits up, the flag of a reverse-mapped object. */
  ghost predicate Bit10(flags: int) {
    exists q, r :: Splits(flags, q, r) && r >= 1024
  }

  predicate Splits(flags: int, q: int, r: int) {
    flags == 2048 * q + r && 0 <= r < 2048
  }

  ghost predicate Reports(w: Witness, events: seq<Event>, s: Summary) {
    && (forall tie :: tie in s.ties <==> exists event <- events :: Witnesses(w, event, tie))
    && (forall f :: f in s.families <==> exists event <- events :: ShowsFamily(event, f))
    && s.births == BirthCount(events) && s.events == |events|
  }

  ghost predicate Complete(w: Witness, events: seq<Event>) {
    && events != [] && (forall k | 0 <= k < |events| :: Legal(events[..k], events[k])) && Depth(events) == 0
    && (forall v <- w.operands :: v.token > 0) && |Named(w.operands)| == w.queries
    && (w.reverseMapped ==> forall v <- w.operands :: Bit10(v.objectFlags))
  }

  // --- both descriptions agree ----------------------------------------------------------------------------

  lemma BornIff(past: seq<Event>, kind: Kind, owner: int, token: int)
    ensures BornAs(past, kind, owner, token) <==> Born(past, Ident(kind, owner, token))
  {
    if event :| event in past && event.Birth? && About(event, kind, owner, token) {
      var j :| 0 <= j < |past| && past[j] == event;
      assert Concerns(past[j], Ident(kind, owner, token));
    }
  }

  lemma {:induction false} HasIdIff(past: seq<Event>, kind: Kind, owner: int, token: int, id: int)
    requires BornAs(past, kind, owner, token)
    ensures HasId(past, kind, owner, token, id) <==> NaturalId(past, Ident(kind, owner, token)) == id
  {
    var n := |past| - 1;
    if About(past[n], kind, owner, token) {
      assert LastAbout(past, kind, owner, token, n);
    } else {
      assert past == past[..n] + [past[n]];
      HasIdIff(past[..n], kind, owner, token, id);
      LastBefore(past, kind, owner, token);
    }
  }

  lemma LastBefore(past: seq<Event>, kind: Kind, owner: int, token: int)
    requires past != [] && !About(past[|past| - 1], kind, owner, token)
    ensures forall j: nat | j < |past| - 1 ::
              LastAbout(past[..|past| - 1], kind, owner, token, j) <==> LastAbout(past, kind, owner, token, j)
  {
  }

  lemma {:induction false} ShownIff(past: seq<Event>, v: Operand, kind: Kind)
    ensures Shown(past, v, kind) <==> Authentic(past, v, kind)
    decreases v
  {
    hide BornAs, Born, NaturalId, HasId;
    BornIff(past, kind, v.owner, v.token);
    if BornAs(past, kind, v.owner, v.token) {
      HasIdIff(past, kind, v.owner, v.token, v.semanticId);
    }
    if kind == TypeKind && v.symbol.Some? {
      ShownIff(past, v.symbol.value, SymbolKind);
    }
  }

  lemma AllShownIff(past: seq<Event>, values: seq<Operand>, kind: Kind)
    ensures AllShown(past, values, kind) <==> forall v <- values :: Authentic(past, v, kind)
  {
    hide Shown, Authentic;
    forall v <- values
      ensures Shown(past, v, kind) <==> Authentic(past, v, kind)
    {
      ShownIff(past, v, kind);
    }
  }

  lemma {:induction false} ObjectsCount(values: seq<Operand>, kind: Kind, ident: Ident)
    ensures multiset(Idents(values, kind))[ident] == if ident.kind == kind then Objects(values)[(ident.owner, ident.token)] else 0
  {
    if values == [] {
      assert Idents(values, kind) == [];
    } else {
      var n := |values| - 1;
      ObjectsCount(values[..n], kind, ident);
      assert Idents(values, kind) == Idents(values[..n], kind) + [IdentOf(values[n], kind)];
    }
  }

  lemma ObjectsIff(a: seq<Operand>, b: seq<Operand>, kind: Kind)
    ensures Objects(a) == Objects(b) <==> multiset(Idents(a, kind)) == multiset(Idents(b, kind))
  {
    hide Objects;
    forall ident
      ensures multiset(Idents(a, kind))[ident] == if ident.kind == kind then Objects(a)[(ident.owner, ident.token)] else 0
      ensures multiset(Idents(b, kind))[ident] == if ident.kind == kind then Objects(b)[(ident.owner, ident.token)] else 0
    {
      ObjectsCount(a, kind, ident);
      ObjectsCount(b, kind, ident);
    }
    if multiset(Idents(a, kind)) == multiset(Idents(b, kind)) {
      forall o: (int, int) ensures Objects(a)[o] == Objects(b)[o] {
        assert multiset(Idents(a, kind))[Ident(kind, o.0, o.1)] == multiset(Idents(b, kind))[Ident(kind, o.0, o.1)];
      }
    }
  }

  lemma EndsIff(past: seq<Event>, event: Event)
    requires event.SortEnd?
    ensures Ends(past, event.kind, event.operation, event.values) <==> Closes(past, event)
  {
    hide Depth, Objects;
    forall j | OpenAt(past, Depth(past) - 1, j)
      ensures Permutes(FrameOf(past[j]), FrameOf(event)) <==>
              past[j].kind == event.kind && past[j].operation == event.operation && Objects(past[j].values) == Objects(event.values)
    {
      ObjectsIff(past[j].values, event.values, event.kind);
    }
    hide OpenAt;
  }

  lemma LegalIff(past: seq<Event>, event: Event)
    ensures Legal(past, event) <==> EventOk(past, event)
  {
    hide BornAs, Born, HasId, NaturalId, Shown, Authentic, Closes, Ends;
    match event {
      case Birth(kind, owner, token, id, sites) =>
        BornIff(past, kind, owner, token);
      case Assignment(kind, owner, token, id) =>
        BornIff(past, kind, owner, token);
        if BornAs(past, kind, owner, token) {
          HasIdIff(past, kind, owner, token, 0);
        }
      case SortBegin(kind, _, values) =>
        AllShownIff(past, values, kind);
      case SortEnd(kind, operation, values) =>
        AllShownIff(past, values, kind);
        EndsIff(past, event);
      case Fallback(kind, left, right, sign, branch) =>
        ShownIff(past, left, kind);
        ShownIff(past, right, kind);
        ShownDeclares(past, left, kind);
        ShownDeclares(past, right, kind);
      case Malformed =>
    }
  }

  lemma ShownDeclares(past: seq<Event>, v: Operand, kind: Kind)
    ensures Shown(past, v, kind) && kind == SymbolKind ==> v.declarations.Some?
  {
  }

  // --- labels, ties and families ----------------------------------------------------------------------------

  lemma {:induction false} LabelIff(operands: seq<Operand>, w: Witness, v: Operand, a: nat)
    requires operands == w.operands
    ensures LabelAt(w, v, a) <==>
            IdentOf(v, w.kind) in Labels(operands, w.kind) && Labels(operands, w.kind)[IdentOf(v, w.kind)] == a
  {
    LabelsLast(operands, w.kind, IdentOf(v, w.kind));
    if LabelAt(w, v, a) {
      assert IdentOf(w.operands[a], w.kind) == IdentOf(v, w.kind);
    }
    if IdentOf(v, w.kind) in Labels(operands, w.kind) {
      var b := Labels(operands, w.kind)[IdentOf(v, w.kind)];
      assert IdentOf(operands[b], w.kind) == IdentOf(v, w.kind);
    }
  }

  lemma {:induction false} LabelsLast(operands: seq<Operand>, kind: Kind, ident: Ident)
    ensures ident in Labels(operands, kind) <==> exists k :: 0 <= k < |operands| && IdentOf(operands[k], kind) == ident
    ensures ident in Labels(operands, kind) ==>
              var a := Labels(operands, kind)[ident];
              a < |operands| && IdentOf(operands[a], kind) == ident
              && forall k | a < k < |operands| :: IdentOf(operands[k], kind) != ident
  {
    if operands != [] {
      LabelsLast(operands[..|operands| - 1], kind, ident);
    }
  }

  lemma WitnessesIff(w: Witness, event: Event, tie: Tie)
    ensures Witnesses(w, event, tie) <==> TieOf(Labels(w.operands, w.kind), w, event) == Some(tie)
  {
    hide Labels, LabelAt;
    if event.Fallback? {
      forall a: nat
        ensures LabelAt(w, event.left, a) <==>
                IdentOf(event.left, w.kind) in Labels(w.operands, w.kind) && Labels(w.operands, w.kind)[IdentOf(event.left, w.kind)] == a
        ensures LabelAt(w, event.right, a) <==>
                IdentOf(event.right, w.kind) in Labels(w.operands, w.kind) && Labels(w.operands, w.kind)[IdentOf(event.right, w.kind)] == a
      {
        LabelIff(w.operands, w, event.left, a);
        LabelIff(w.operands, w, event.right, a);
      }
      var labels := Labels(w.operands, w.kind);
      if TieOf(labels, w, event) == Some(tie) {
        var a, b := labels[IdentOf(event.left, w.kind)], labels[IdentOf(event.right, w.kind)];
        assert LabelAt(w, event.left, a) && LabelAt(w, event.right, b);
      }
    }
  }

  lemma ContributedIff(w: Witness, events: seq<Event>, tie: Tie)
    ensures Contributed(Labels(w.operands, w.kind), w, events, tie) <==> exists event <- events :: Witnesses(w, event, tie)
  {
    hide TieOf, Witnesses, Labels;
    forall event
      ensures Witnesses(w, event, tie) <==> TieOf(Labels(w.operands, w.kind), w, event) == Some(tie)
    {
      WitnessesIff(w, event, tie);
    }
    if event :| event in events && Witnesses(w, event, tie) {
      var k :| 0 <= k < |events| && events[k] == event;
      assert Contributes(Labels(w.operands, w.kind), w, events, k, tie);
    }
  }

  ghost predicate Tallies(s: State, events: seq<Event>) {
    && (forall f :: f in s.families <==> exists event <- events :: ShowsFamily(event, f))
    && |s.births| == BirthCount(events)
  }

  lemma {:induction false} BirthSnoc(events: seq<Event>, event: Event)
    ensures BirthCount(events + [event]) == BirthCount(events) + if event.Birth? then 1 else 0
  {
    if events == [] {
      assert [event][1..] == [];
    } else {
      BirthSnoc(events[1..], event);
      assert (events + [event])[1..] == events[1..] + [event];
    }
  }

  lemma {:induction false} RunTallies(labels: map<Ident, nat>, w: Witness, events: seq<Event>)
    requires Run(labels, w, events).Accepted?
    ensures Tallies(Run(labels, w, events).value, events)
  {
    if events != [] {
      var past, event := events[..|events| - 1], events[|events| - 1];
      assert events == past + [event];
      RunTallies(labels, w, past);
      BirthSnoc(past, event);
      TallyStep(labels, w, Run(labels, w, past).value, past, event);
    }
  }

  lemma TallyStep(labels: map<Ident, nat>, w: Witness, s: State, past: seq<Event>, event: Event)
    requires Tallies(s, past) && Step(labels, w, s, event).Accepted?
    requires BirthCount(past + [event]) == BirthCount(past) + if event.Birth? then 1 else 0
    ensures Tallies(Step(labels, w, s, event).value, past + [event])
  {
    hide TieOf, SnapshotOk, BirthOk, FallbackOk, Permutes, FrameOf, BirthCount;
    var next, all := Step(labels, w, s, event).value, past + [event];
    assert next.families == if event.Fallback? then s.families + {FamilyOf(event)} else s.families;
    forall f
      ensures f in next.families <==> exists e <- all :: ShowsFamily(e, f)
    {
      assert ShowsFamily(event, f) <==> event.Fallback? && f == FamilyOf(event);
      assert event in all;
      if f in s.families {
        var e :| e in past && ShowsFamily(e, f);
        assert e in all;
      }
    }
  }

  // --- the request ------------------------------------------------------------------------------------------

  lemma {:induction false} NamedSize(operands: seq<Operand>, kind: Kind)
    ensures |Labels(operands, kind)| == |Named(operands)|
    ensures forall o, t :: Ident(kind, o, t) in Labels(operands, kind) <==> (o, t) in Named(operands)
  {
    if operands == [] {
      assert Named(operands) == {};
    } else {
      var n := |operands| - 1;
      var before, last := operands[..n], operands[n];
      NamedSize(before, kind);
      assert operands == before + [last];
      var smaller, all := Labels(before, kind), Labels(operands, kind);
      assert Named(operands) == Named(before) + {(last.owner, last.token)};
      var ident := IdentOf(last, kind);
      if ident in smaller {
        assert all.Keys == smaller.Keys;
      } else {
        assert all.Keys == smaller.Keys + {ident};
      }
      assert |all| == |all.Keys| && |smaller| == |smaller.Keys|;
    }
  }

  lemma Bit10Iff(v: Operand)
    ensures Bit10(v.objectFlags) <==> ReverseMapped(v)
  {
    var flags := v.objectFlags;
    var q, r := flags / 2048, flags % 2048;
    assert Splits(flags, q, r);
    BitOf(q, r);
    if Bit10(flags) {
      var p, t :| Splits(flags, p, t) && t >= 1024;
      BitOf(p, t);
    }
  }

  lemma BitOf(q: int, r: int)
    requires 0 <= r < 2048
    ensures (2048 * q + r) / 1024 % 2 == if r < 1024 then 0 else 1
  {
    if r < 1024 {
      assert (2048 * q + r) / 1024 == 2 * q;
    } else {
      assert (2048 * q + r) / 1024 == 2 * q + 1;
    }
  }

  /** The main result. Validation accepts exactly the complete traces of legal events with
      a witnessed tie, and reports their ties, families and numbers. */
  lemma ValidatesIff(w: Witness, events: seq<Event>, s: Summary)
    ensures Validate(w, events) == Accepted(s) <==>
            Complete(w, events) && Reports(w, events, s) && s.ties != {}
  {
    hide Run, EventOk, Legal, Labels, TieOf, ReverseMapped, Bit10, Depth, Contributed, Witnesses, BirthCount, Named;
    ValidateIff(w, events);
    NamedSize(w.operands, w.kind);
    forall k | 0 <= k < |events|
      ensures Legal(events[..k], events[k]) <==> EventOk(events[..k], events[k])
    {
      LegalIff(events[..k], events[k]);
    }
    forall v <- w.operands
      ensures Bit10(v.objectFlags) <==> ReverseMapped(v)
    {
      Bit10Iff(v);
    }
    if Reports(w, events, s) && s.ties != {} {
      var tie :| tie in s.ties;
      ContributedIff(w, events, tie);
    }
    if Validate(w, events).Accepted? {
      RunTallies(Labels(w.operands, w.kind), w, events);
      var t := Validate(w, events).value;
      Reported(w, events, t);
      OneReport(w, events, s, t);
    }
  }

  lemma Reported(w: Witness, events: seq<Event>, t: Summary)
    requires Validate(w, events) == Accepted(t)
    requires Tallies(Run(Labels(w.operands, w.kind), w, events).value, events)
    ensures Reports(w, events, t) && t.ties != {}
  {
    hide Run, Labels, Witnesses, Contributed, BirthCount;
    ValidateIff(w, events);
    forall tie
      ensures Contributed(Labels(w.operands, w.kind), w, events, tie) <==> exists event <- events :: Witnesses(w, event, tie)
    {
      ContributedIff(w, events, tie);
    }
  }

  lemma OneReport(w: Witness, events: seq<Event>, s: Summary, t: Summary)
    requires Reports(w, events, t)
    ensures Reports(w, events, s) <==> s == t
  {
    hide Witnesses, ShowsFamily, BirthCount;
    if Reports(w, events, s) {
      assert forall tie :: tie in s.ties <==> tie in t.ties;
      assert forall f :: f in s.families <==> f in t.families;
      assert s.ties == t.ties && s.families == t.families;
    }
  }
}
