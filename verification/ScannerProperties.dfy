/** The complete scanner streams are exactly the spelled groups. */
module ScannerProperties {
  import opened Results
  import opened ScannerStream

  /** Groups that are finished, and the observations so far of the one under way. */
  datatype Partial = Partial(groups: seq<seq<Seen>>, started: seq<Seen>)

  predicate PartialOk(p: Partial, request: Request) {
    && GroupsOk(p.groups, request)
    && (p.started != [] ==>
          && |p.groups| < |request.actions| && !Stopped(p.groups)
          && request.actions[|p.groups|].ScanAll? && |p.started| <= |SourceAt(request, |p.groups|)| + 2
          && forall k | 0 <= k < |p.started| ::
               && StatusOk(ScanAll, p.started[k].status, SourceAt(request, |p.groups|), request)
               && !Closes(ScanAll, p.started[k].status))
  }

  /** The source the next action works on; a panic leaves the source of its own action. */
  function SourceOf(groups: seq<seq<Seen>>, request: Request): seq<Byte>
    requires |groups| <= |request.actions|
  {
    if Stopped(groups) then SourceAt(request, |groups| - 1) else SourceAt(request, |groups|)
  }

  function StateOf(p: Partial, request: Request): CaseState
    requires |p.groups| <= |request.actions|
  {
    var source := SourceOf(p.groups, request);
    CaseState(true, false, |p.groups|, |Flat(p.groups)| + |p.started|, |p.started|, Stopped(p.groups), source, |source| + 2)
  }

  function Add(p: Partial, seen: Seen, request: Request): Partial {
    if |p.groups| < |request.actions| && !Closes(request.actions[|p.groups|], seen.status) then Partial(p.groups, p.started + [seen])
    else Partial(p.groups + [p.started + [seen]], [])
  }

  function Sent(p: Partial): seq<Observation> {
    Flat(p.groups) + Tagged(p.started, |p.groups|, |Flat(p.groups)|)
  }

  function NextOf(p: Partial, seen: Seen): Observation {
    Observation(|p.groups|, |Flat(p.groups)| + |p.started|, seen)
  }

  // --- one observation -------------------------------------------------------------------------------------

  lemma SentGrows(p: Partial, seen: Seen, request: Request)
    ensures Sent(Add(p, seen, request)) == Sent(p) + [NextOf(p, seen)]
  {
    var q := Add(p, seen, request);
    var n := |Flat(p.groups)|;
    assert Tagged(p.started + [seen], |p.groups|, n) == Tagged(p.started, |p.groups|, n) + [NextOf(p, seen)];
    if q.started == [] {
      assert q.groups[..|p.groups|] == p.groups;
    }
  }

  /** The groups stay in order when the one under way is closed. */
  lemma GroupCloses(p: Partial, seen: Seen, request: Request)
    requires PartialOk(p, request) && !Stopped(p.groups) && |p.groups| < |request.actions|
    requires Closes(request.actions[|p.groups|], seen.status)
    ensures var op, source := request.actions[|p.groups|], SourceAt(request, |p.groups|);
            GroupsOk(p.groups + [p.started + [seen]], request) <==>
            StatusOk(op, seen.status, source, request) && (op.ScanAll? ==> |p.started| + 1 <= |source| + 2)
  {
    hide StatusOk, Closes, SourceAt;
    var group, all := p.started + [seen], p.groups + [p.started + [seen]];
    var op, source := request.actions[|p.groups|], SourceAt(request, |p.groups|);
    assert all[|p.groups|] == group && forall i | 0 <= i < |p.groups| :: all[i] == p.groups[i];
    assert group[|p.started|] == seen && forall k | 0 <= k < |p.started| :: group[k] == p.started[k];
    if StatusOk(op, seen.status, source, request) && (op.ScanAll? ==> |p.started| + 1 <= |source| + 2) {
      assert GroupOk(group, request, |p.groups|);
    }
    if GroupsOk(all, request) {
      assert GroupOk(all[|p.groups|], request, |p.groups|);
    }
  }

  /** Only the expected next observation is accepted, and then the transcript grows by it. */
  lemma ObserveStep(p: Partial, o: Observation, request: Request)
    requires PartialOk(p, request)
    ensures var r := Observe(StateOf(p, request), o, request);
            if o == NextOf(p, o.seen) && !Stopped(p.groups) && |p.groups| < |request.actions| && PartialOk(Add(p, o.seen, request), request)
            then r == Accepted(StateOf(Add(p, o.seen, request), request))
            else r.Rejected?
  {
    if o == NextOf(p, o.seen) && !Stopped(p.groups) && |p.groups| < |request.actions| {
      var op := request.actions[|p.groups|];
      SentGrows(p, o.seen, request);
      SentLength(p);
      SentLength(Add(p, o.seen, request));
      if Closes(op, o.seen.status) {
        GroupCloses(p, o.seen, request);
        LastGroup(p, o.seen);
      } else {
        StartedGrows(p, o.seen, request);
      }
      hide Flat, Sent, GroupsOk;
    }
  }

  lemma SentLength(p: Partial)
    ensures |Sent(p)| == |Flat(p.groups)| + |p.started|
  {
  }

  lemma LastGroup(p: Partial, seen: Seen)
    ensures var all := p.groups + [p.started + [seen]]; all[|all| - 1][|p.started|] == seen && (Stopped(all) <==> seen.status.Panic?)
  {
  }

  lemma StartedGrows(p: Partial, seen: Seen, request: Request)
    requires PartialOk(p, request) && !Stopped(p.groups) && |p.groups| < |request.actions|
    requires !Closes(request.actions[|p.groups|], seen.status)
    ensures var source := SourceAt(request, |p.groups|);
            PartialOk(Partial(p.groups, p.started + [seen]), request) <==>
            StatusOk(ScanAll, seen.status, source, request) && |p.started| + 1 <= |source| + 2
  {
    hide StatusOk, SourceAt, GroupsOk;
    var more := p.started + [seen];
    assert more[|p.started|] == seen && forall k | 0 <= k < |p.started| :: more[k] == p.started[k];
  }

  // --- whole streams ---------------------------------------------------------------------------------------

  function Text(p: Partial, request: Request): seq<Frame> {
    [Begin(request.id, 1)] + Frames(request, Sent(p))
  }

  const NOTHING := Partial([], [])

  lemma RunSnoc(frames: seq<Frame>, f: Frame, request: Request)
    ensures Run(frames + [f], request) ==
            if Run(frames, request).Rejected? then Rejected else AcceptFrame(Run(frames, request).value, f, request)
  {
    hide AcceptFrame;
    assert (frames + [f])[..|frames|] == frames;
  }

  lemma TextGrows(p: Partial, seen: Seen, request: Request)
    ensures Text(Add(p, seen, request), request) == Text(p, request) + [Observed(request.id, NextOf(p, seen))]
  {
    hide Sent, Add;
    SentGrows(p, seen, request);
  }

  lemma BeginState(request: Request)
    ensures PartialOk(NOTHING, request) && Text(NOTHING, request) == [Begin(request.id, 1)]
    ensures Run(Text(NOTHING, request), request) == Accepted(StateOf(NOTHING, request))
  {
    assert [Begin(request.id, 1)] == [] + [Begin(request.id, 1)];
    RunSnoc([], Begin(request.id, 1), request);
  }

  /** Soundness: an accepted, unfinished stream spells groups and the start of one. */
  lemma {:induction false} ReadRun(frames: seq<Frame>, request: Request) returns (p: Partial)
    requires frames != [] && Run(frames, request).Accepted? && !Run(frames, request).value.ended
    ensures PartialOk(p, request) && frames == Text(p, request) && Run(frames, request) == Accepted(StateOf(p, request))
  {
    hide PartialOk, Observe, StateOf, Sent, Add, Text;
    var before, f := frames[..|frames| - 1], frames[|frames| - 1];
    assert frames == before + [f];
    if before == [] {
      BeginState(request);
      FirstFrame(f, request);
      return NOTHING;
    }
    NotEnded(before, f, request);
    var q := ReadRun(before, request);
    ObservedNext(q, f, request);
    ObserveStep(q, f.o, request);
    TextGrows(q, f.o.seen, request);
    p := Add(q, f.o.seen, request);
  }

  lemma FirstFrame(f: Frame, request: Request)
    requires Run([f], request).Accepted?
    ensures f == Begin(request.id, 1)
  {
    assert [f] == [] + [f];
    RunSnoc([], f, request);
  }

  lemma NotEnded(frames: seq<Frame>, f: Frame, request: Request)
    requires Run(frames + [f], request).Accepted?
    ensures Run(frames, request).Accepted? && !Run(frames, request).value.ended
  {
    RunSnoc(frames, f, request);
  }

  lemma ObservedNext(q: Partial, f: Frame, request: Request)
    requires PartialOk(q, request) && AcceptFrame(StateOf(q, request), f, request).Accepted?
    requires !AcceptFrame(StateOf(q, request), f, request).value.ended
    ensures f.Observed? && f.id == request.id
    ensures AcceptFrame(StateOf(q, request), f, request) == Observe(StateOf(q, request), f.o, request)
  {
    hide Observe;
  }

  /** Reopening the last group. */
  lemma Reopened(p: Partial, request: Request)
    requires PartialOk(p, request) && p.started == [] && p.groups != []
    ensures var m := |p.groups| - 1;
            var group := p.groups[m];
            var q := Partial(p.groups[..m], group[..|group| - 1]);
            && group != [] && PartialOk(q, request) && !Stopped(q.groups) && p == Add(q, group[|group| - 1], request)
  {
    hide StatusOk, SourceAt;
    var m := |p.groups| - 1;
    var group := p.groups[m];
    assert GroupOk(group, request, m);
    var last := |group| - 1;
    var q := Partial(p.groups[..m], group[..last]);
    assert q.started + [group[last]] == group && q.groups + [group] == p.groups;
    assert forall i | 0 <= i < m :: GroupOk(p.groups[i], request, i);
    assert GroupsOk(q.groups, request);
    if m > 0 {
      assert !Panics(p.groups[m - 1]);
    }
    if last > 0 {
      assert !Closes(request.actions[m], group[0].status);
    }
    assert Closes(request.actions[m], group[last].status);
    assert forall k | 0 <= k < last :: q.started[k] == group[k];
  }

  /** The observation a transcript ends with, and the transcript before it. */
  lemma StepBack(p: Partial, request: Request) returns (q: Partial, seen: Seen)
    requires PartialOk(p, request) && p != NOTHING
    ensures PartialOk(q, request) && !Stopped(q.groups) && |q.groups| < |request.actions| && p == Add(q, seen, request)
  {
    hide StatusOk, SourceAt;
    if p.started != [] {
      var n := |p.started| - 1;
      seen := p.started[n];
      q := Partial(p.groups, p.started[..n]);
      assert q.started + [seen] == p.started;
    } else {
      Reopened(p, request);
      var m := |p.groups| - 1;
      var group := p.groups[m];
      seen := group[|group| - 1];
      q := Partial(p.groups[..m], group[..|group| - 1]);
    }
  }

  /** Completeness: every transcript in good order is accepted. */
  lemma {:induction false} WriteRun(p: Partial, request: Request)
    requires PartialOk(p, request)
    ensures Run(Text(p, request), request) == Accepted(StateOf(p, request))
    decreases |Sent(p)|
  {
    hide PartialOk, Observe, StateOf, Sent, Add, Text, Stopped;
    if p == NOTHING {
      BeginState(request);
      return;
    }
    var q, seen := StepBack(p, request);
    SentGrows(q, seen, request);
    WriteRun(q, request);
    TextGrows(q, seen, request);
    var f := Observed(request.id, NextOf(q, seen));
    RunSnoc(Text(q, request), f, request);
    ObserveStep(q, f.o, request);
    WorkingFrame(q, f, request);
  }

  lemma WorkingFrame(q: Partial, f: Frame, request: Request)
    requires PartialOk(q, request) && f.Observed? && f.id == request.id
    ensures AcceptFrame(StateOf(q, request), f, request) == Observe(StateOf(q, request), f.o, request)
  {
    hide Observe;
  }

  /** The main result: a stream is complete exactly when it spells one group per
      action, in order, up to the first panic. */
  lemma CompleteIffSpells(frames: seq<Frame>, request: Request)
    ensures Complete(frames, request) <==> exists groups :: Spells(frames, groups, request)
  {
    hide Run, AcceptFrame;
    if Complete(frames, request) {
      var groups := ReadComplete(frames, request);
      assert Spells(frames, groups, request);
    }
    forall groups | Spells(frames, groups, request)
      ensures Complete(frames, request)
    {
      SpelledIsComplete(frames, groups, request);
    }
  }

  lemma ReadComplete(frames: seq<Frame>, request: Request) returns (groups: seq<seq<Seen>>)
    requires Complete(frames, request)
    ensures Spells(frames, groups, request)
  {
    hide GroupsOk, Observe;
    var before, f := frames[..|frames| - 1], frames[|frames| - 1];
    assert frames == before + [f];
    RunSnoc(before, f, request);
    NotEnded(before, f, request);
    assert before != [] by {
      FirstNotEnd(f, request);
    }
    var p := ReadRun(before, request);
    InRange(p, request);
    hide Run, Flat, StateOf;
    EndFits(p, f, request);
    groups := p.groups;
  }

  lemma InRange(p: Partial, request: Request)
    requires PartialOk(p, request)
    ensures |p.groups| <= |request.actions| && GroupsOk(p.groups, request)
  {
  }

  lemma FirstNotEnd(f: Frame, request: Request)
    ensures AcceptFrame(Fresh(request), f, request).Accepted? ==> !AcceptFrame(Fresh(request), f, request).value.ended
  {
  }

  lemma EndFits(p: Partial, f: Frame, request: Request)
    requires |p.groups| <= |request.actions|
    ensures var r := AcceptFrame(StateOf(p, request), f, request);
            r.Accepted? && r.value.ended <==>
              p.started == [] && (|p.groups| == |request.actions| || Stopped(p.groups))
              && f == End(request.id, |Flat(p.groups)|, |p.groups|)
    ensures p.started == [] ==> Sent(p) == Flat(p.groups)
  {
    hide GroupsOk, Flat;
    if f.Observed? {
      ObservingNeverEnds(StateOf(p, request), f.o, request);
    }
  }

  lemma ObservingNeverEnds(s: CaseState, o: Observation, request: Request)
    requires !s.ended
    ensures Observe(s, o, request).Accepted? ==> !Observe(s, o, request).value.ended
  {
  }

  lemma SpelledIsComplete(frames: seq<Frame>, groups: seq<seq<Seen>>, request: Request)
    requires Spells(frames, groups, request)
    ensures Complete(frames, request)
  {
    hide GroupsOk, AcceptFrame, StateOf;
    var p := Partial(groups, []);
    var f := End(request.id, |Flat(groups)|, |groups|);
    InRange(p, request);
    WriteRun(p, request);
    EndFits(p, f, request);
    assert frames == Text(p, request) + [f];
    RunSnoc(Text(p, request), f, request);
  }
}
