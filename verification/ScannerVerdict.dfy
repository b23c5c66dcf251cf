/** Complete scanner streams observation by observation, and the verdict on two of them
    (`StreamCase` and `compare_case` in scripts/s05_protocol.py). */
module ScannerVerdict {
  import opened Results
  import opened ScannerStream
  import opened ScannerProperties
  import opened ScannerComparison

  // --- one action ---------------------------------------------------------------------------

  predicate Good(op: Op, seen: Seen, request: Request) {
    seen.status.Done? && request.valueOk(op, seen.status.value)
  }

  predicate GoodPanic(op: Op, seen: Seen, source: seq<Byte>, request: Request) {
    && seen.status.Panic? && |seen.status.message| > 0
    && seen.status.claimed == request.classify(op, seen.status.message, source)
  }

  /** Whole scans: tokens up to the first end of file, at most two more than the source has
      bytes. Other actions: one value. A panic may stand for the last value. */
  predicate GroupFits(group: seq<Seen>, op: Op, source: seq<Byte>, request: Request) {
    && group != []
    && var last := |group| - 1;
       && (GoodPanic(op, group[last], source, request) || (Good(op, group[last], request) && (op == ScanAll ==> group[last].status.value.kind == 1)))
       && (forall k | 0 <= k < last :: Good(op, group[k], request) && group[k].status.value.kind != 1)
       && if op == ScanAll then last <= |source| + 1 else last == 0
  }

  predicate Sets(op: Op) {
    op.SetText? || op.Reset?
  }

  /** Action `j` was the last before `i` to set the source, and set it to this. */
  predicate SetBy(request: Request, i: nat, j: int, source: seq<Byte>)
    requires i <= |request.actions|
  {
    && 0 <= j < i && Sets(request.actions[j]) && (forall k | j < k < i :: !Sets(request.actions[k]))
    && source == match request.actions[j] case SetText(text) => text case _ => []
  }

  /** The text set last before action `i`, nothing after a reset, or else the request's own. */
  ghost predicate IsSource(request: Request, i: nat, source: seq<Byte>)
    requires i <= |request.actions|
  {
    || (exists j :: SetBy(request, i, j, source))
    || (NoneSets(request, i) && source == request.source)
  }

  predicate NoneSets(request: Request, i: nat)
    requires i <= |request.actions|
  {
    forall k | 0 <= k < i :: !Sets(request.actions[k])
  }

  /** One group per action, the last of which may be the one that panicked. */
  ghost predicate StreamFits(groups: seq<seq<Seen>>, request: Request) {
    && |groups| <= |request.actions|
    && (forall i, source | 0 <= i < |groups| && IsSource(request, i, source) :: GroupFits(groups[i], request.actions[i], source, request))
    && (forall i | 0 <= i < |groups| - 1 :: !Panics(groups[i]))
    && (|groups| < |request.actions| ==> groups != [] && Panics(groups[|groups| - 1]))
  }

  lemma LastSets(request: Request, i: nat, source: seq<Byte>)
    requires 0 < i <= |request.actions| && Sets(request.actions[i - 1])
    ensures IsSource(request, i, source) <==> source == SourceAfter(request.actions[i - 1], SourceAt(request, i - 1))
  {
    var last := request.actions[i - 1];
    assert SetBy(request, i, i - 1, source) <==> source == SourceAfter(last, SourceAt(request, i - 1));
    assert forall j :: SetBy(request, i, j, source) ==> j == i - 1;
  }

  lemma OthersSet(request: Request, i: nat, source: seq<Byte>)
    requires 0 < i <= |request.actions| && !Sets(request.actions[i - 1])
    ensures IsSource(request, i, source) <==> IsSource(request, i - 1, source)
  {
    var before: nat := i - 1;
    assert NoneSets(request, i) <==> NoneSets(request, before);
    if j :| SetBy(request, i, j, source) {
      assert SetBy(request, before, j, source);
    }
    if j :| SetBy(request, before, j, source) {
      assert SetBy(request, i, j, source);
    }
  }

  lemma {:induction false} SourceIs(request: Request, i: nat, source: seq<Byte>)
    requires i <= |request.actions|
    ensures IsSource(request, i, source) <==> source == SourceAt(request, i)
  {
    if i > 0 {
      SourceIs(request, i - 1, source);
      var op := request.actions[i - 1];
      if Sets(op) {
        LastSets(request, i, source);
      } else {
        OthersSet(request, i, source);
      }
    }
  }

  lemma SeenIff(op: Op, seen: Seen, source: seq<Byte>, request: Request)
    ensures StatusOk(op, seen.status, source, request) <==> Good(op, seen, request) || GoodPanic(op, seen, source, request)
    ensures Closes(op, seen.status) <==> seen.status.Panic? || op != ScanAll || (seen.status.Done? && seen.status.value.kind == 1)
  {
  }

  lemma GroupIff(group: seq<Seen>, request: Request, i: nat)
    requires i < |request.actions|
    ensures GroupOk(group, request, i) <==> GroupFits(group, request.actions[i], SourceAt(request, i), request)
  {
    hide StatusOk, Closes, SourceAt;
    var op, source := request.actions[i], SourceAt(request, i);
    forall k | 0 <= k < |group|
      ensures StatusOk(op, group[k].status, source, request) <==> Good(op, group[k], request) || GoodPanic(op, group[k], source, request)
      ensures Closes(op, group[k].status) <==>
              group[k].status.Panic? || op != ScanAll || (group[k].status.Done? && group[k].status.value.kind == 1)
    {
      SeenIff(op, group[k], source, request);
    }
    if group != [] {
      var last := |group| - 1;
      assert Closes(op, group[last].status) || !Closes(op, group[last].status);
      assert op != ScanAll ==> Closes(op, group[0].status);
    }
  }

  /** A stream is complete exactly when it is one fitting group of observations per action,
      up to the end or a panic, between a begin and an end with true counts. */
  lemma CompleteIffFits(frames: seq<Frame>, request: Request)
    ensures Complete(frames, request) <==>
            exists groups :: StreamFits(groups, request)
              && frames == [Begin(request.id, 1)] + Frames(request, Flat(groups)) + [End(request.id, |Flat(groups)|, |groups|)]
  {
    hide Complete, GroupOk, GroupFits, IsSource, SourceAt, Flat;
    CompleteIffSpells(frames, request);
    forall groups
      ensures GroupsOk(groups, request) && (|groups| == |request.actions| || Stopped(groups)) <==> StreamFits(groups, request)
    {
      StreamIff(groups, request);
    }
    if Complete(frames, request) {
      var groups :| Spells(frames, groups, request);
    }
    if groups :| StreamFits(groups, request)
                 && frames == [Begin(request.id, 1)] + Frames(request, Flat(groups)) + [End(request.id, |Flat(groups)|, |groups|)] {
      assert Spells(frames, groups, request);
    }
  }

  lemma StreamIff(groups: seq<seq<Seen>>, request: Request)
    ensures GroupsOk(groups, request) && (|groups| == |request.actions| || Stopped(groups)) <==> StreamFits(groups, request)
  {
    hide GroupOk, GroupFits, IsSource, SourceAt;
    if |groups| <= |request.actions| {
      forall i | 0 <= i < |groups|
        ensures GroupOk(groups[i], request, i) <==> GroupFits(groups[i], request.actions[i], SourceAt(request, i), request)
        ensures forall source :: IsSource(request, i, source) <==> source == SourceAt(request, i)
      {
        GroupIff(groups[i], request, i);
        forall source ensures IsSource(request, i, source) <==> source == SourceAt(request, i) {
          SourceIs(request, i, source);
        }
      }
      if StreamFits(groups, request) {
        forall i | 0 <= i < |groups| ensures GroupOk(groups[i], request, i) {
          assert IsSource(request, i, SourceAt(request, i));
        }
      }
    }
  }

  // --- the verdict -----------------------------------------------------------------------------------------

  /** The panic the case expects: its action and class and, unless it is about bounds, the
      text it names, which for a bad literal is the literal. */
  predicate Expects(e: ExpectedPanic, o: Observation) {
    match o.seen.status
    case Panic(message, PanicClass(name, input)) =>
      && o.action == e.action && name == e.name
      && (name == "invalid_bigint" ==> input == e.input)
      && (name != "invalid_bigint" && name != "bounds" ==> message == e.message)
    case _ => false
  }

  predicate IsExpected(item: Item, o: Observation) {
    item.expected.Some? && Expects(item.expected.value, o)
  }

  lemma ExpectedIff(item: Item, o: Observation)
    ensures IsPanic(o) ==> (ExpectedMatches(item, o) <==> IsExpected(item, o))
    ensures IsExpected(item, o) ==> IsPanic(o)
  {
  }

  /** The diagnostics of a stream with their actions, in order. */
  function Diagnostics(obs: seq<Observation>): seq<(int, Diagnostic)> {
    if obs == [] then []
    else
      var ds := obs[0].seen.diagnostics;
      seq(|ds|, k requires 0 <= k < |ds| => (obs[0].action, ds[k])) + Diagnostics(obs[1..])
  }

  /** The tokens of a stream with their actions, text and value, in order. */
  function Tokens(item: Item, obs: seq<Observation>): seq<(int, seq<Byte>, seq<Byte>)> {
    if obs == [] then []
    else
      (match obs[0].seen.status
       case Done(value) => if item.token(obs[0].action) then [(obs[0].action, value.text, value.value)] else []
       case _ => []) + Tokens(item, obs[1..])
  }

  /** The codes shown in one action. */
  function CodesIn(obs: seq<Observation>, action: int): seq<int> {
    if obs == [] then []
    else
      var ds := obs[0].seen.diagnostics;
      (if obs[0].action == action then seq(|ds|, k requires 0 <= k < |ds| => ds[k].code) else []) + CodesIn(obs[1..], action)
  }

  lemma {:induction false} DiagnosticsSnoc(obs: seq<Observation>, o: Observation)
    ensures Diagnostics(obs + [o]) == Diagnostics(obs) + Diagnostics([o])
  {
    if obs == [] {
      assert obs + [o] == [o];
    } else {
      DiagnosticsSnoc(obs[1..], o);
      assert (obs + [o])[1..] == obs[1..] + [o];
    }
  }

  lemma {:induction false} TokensSnoc(item: Item, obs: seq<Observation>, o: Observation)
    ensures Tokens(item, obs + [o]) == Tokens(item, obs) + Tokens(item, [o])
  {
    if obs == [] {
      assert obs + [o] == [o];
    } else {
      TokensSnoc(item, obs[1..], o);
      assert (obs + [o])[1..] == obs[1..] + [o];
    }
  }

  lemma {:induction false} CodesSnoc(obs: seq<Observation>, o: Observation, action: int)
    ensures CodesIn(obs + [o], action) == CodesIn(obs, action) + CodesIn([o], action)
  {
    if obs == [] {
      assert obs + [o] == [o];
    } else {
      CodesSnoc(obs[1..], o, action);
      assert (obs + [o])[1..] == obs[1..] + [o];
    }
  }

  lemma Single(item: Item, o: Observation, action: int)
    ensures Diagnostics([o]) == Tag(o.action, o.seen.diagnostics)
    ensures Tokens(item, [o]) == if o.seen.status.Done? && item.token(o.action) then [(o.action, o.seen.status.value.text, o.seen.status.value.value)] else []
    ensures CodesIn([o], action) == if o.action == action then Codes(o.seen.diagnostics) else []
  {
    assert [o][1..] == [];
  }

  lemma {:induction false} GatheredIs(item: Item, obs: seq<Observation>)
    ensures GatherAll(item, obs).diagnostics == Diagnostics(obs)
    ensures GatherAll(item, obs).values == Tokens(item, obs)
    ensures item.wanted.Some? ==> GatherAll(item, obs).codes == CodesIn(obs, item.wanted.value.action)
  {
    if obs != [] {
      var n := |obs| - 1;
      var action := if item.wanted.Some? then item.wanted.value.action else 0;
      GatheredIs(item, obs[..n]);
      assert obs == obs[..n] + [obs[n]];
      DiagnosticsSnoc(obs[..n], obs[n]);
      TokensSnoc(item, obs[..n], obs[n]);
      CodesSnoc(obs[..n], obs[n], action);
      Single(item, obs[n], action);
      hide Diagnostics, Tokens, CodesIn;
    }
  }

  predicate Shown(item: Item, obs: seq<Observation>) {
    item.wanted.Some? ==> CodesIn(obs, item.wanted.value.action) == item.wanted.value.codes
  }

  predicate PanicsExpected(item: Item, obs: seq<Observation>) {
    && (forall o <- obs :: IsPanic(o) ==> IsExpected(item, o))
    && (item.expected.Some? ==> exists o <- obs :: IsPanic(o))
  }

  /** The narrower verdicts: every panic was expected and the expected one happened on both
      sides, and the diagnostics, or the tokens, are the same. */
  lemma DigestsIff(item: Item, oracle: seq<Observation>, rust: seq<Observation>)
    ensures var r := Judge(item, oracle, rust);
            var sound := PanicsExpected(item, oracle) && PanicsExpected(item, rust);
            && (r.diagnostics <==> sound && Shown(item, oracle) && Shown(item, rust) && Diagnostics(oracle) == Diagnostics(rust))
            && (r.values <==> sound && Tokens(item, oracle) == Tokens(item, rust))
            && r.oracleCount == |oracle| && r.rustCount == |rust|
  {
    GatheredIs(item, oracle);
    GatheredIs(item, rust);
    GatherFlags(item, oracle);
    GatherFlags(item, rust);
    hide GatherAll, ExpectedMatches, IsExpected, Diagnostics, Tokens, CodesIn, PairsOk;
    forall o: Observation
      ensures IsPanic(o) ==> (ExpectedMatches(item, o) <==> IsExpected(item, o))
    {
      ExpectedIff(item, o);
    }
  }

  /** The main result. Two complete streams pass exactly when both show the codes wanted and
      either are the same without a panic, when none is expected, or are the same up to a last
      panic each, both the expected one, with the same diagnostics. */
  lemma PassIff(item: Item, left: Request, right: Request, a: seq<seq<Seen>>, b: seq<seq<Seen>>)
    requires GroupsOk(a, left) && GroupsOk(b, right)
    ensures var oracle, rust := Flat(a), Flat(b);
            var m, n := |oracle| - 1, |rust| - 1;
            Judge(item, oracle, rust).pass <==>
              && Shown(item, oracle) && Shown(item, rust)
              && if item.expected.None? then oracle == rust && forall o <- oracle :: !o.seen.status.Panic?
                 else m == n >= 0 && oracle[..m] == rust[..n] && Expects(item.expected.value, oracle[m])
                      && Expects(item.expected.value, rust[n]) && oracle[m].seen.diagnostics == rust[n].seen.diagnostics
  {
    hide GroupsOk, Flat, GatherAll, ExpectedMatches, CodesIn, Judge;
    var oracle, rust := Flat(a), Flat(b);
    PassIffSame(item, left, right, a, b);
    GatheredIs(item, oracle);
    GatheredIs(item, rust);
    if oracle != [] && rust != [] {
      ExpectedIff(item, oracle[|oracle| - 1]);
      ExpectedIff(item, rust[|rust| - 1]);
    }
  }
}
