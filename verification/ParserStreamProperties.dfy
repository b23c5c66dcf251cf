/** `StreamCase` accepts exactly the streams that spell the stages of one request. */
module ParserStreamProperties {
  import opened Results
  import opened PreorderTrees
  import opened ParserStream

  /** A stream in progress: finished stages and the values of the current one. */
  datatype Partial = Partial(blocks: seq<Block>, values: seq<Value>)

  const BEGUN: Partial := Partial([], [])

  function StageAt(i: nat, request: Request): Stage {
    if i < |StagesFor(request)| then StagesFor(request)[i] else UnknownStage
  }

  predicate PartialOk(p: Partial, request: Request) {
    && StagesOk(p.blocks, request)
    && (p.values != [] ==> !Terminated(p.blocks, request))
    && OwedAfter(p.blocks).Accepted?
    && ValuesOk(p.values, StageAt(|p.blocks|, request), request, OwedAfter(p.blocks).value)
  }

  /** The state a partial stream leaves, field by field. */
  ghost predicate Summarises(s: CaseState, p: Partial, request: Request)
    requires PartialOk(p, request)
  {
    && s.started && !s.ended
    && (s.stopped <==> p.blocks != [] && !p.blocks[|p.blocks| - 1].outcome.Ok?)
    && s.stageIndex == |p.blocks|
    && s.ordinal == ValueCount(p.blocks) + |p.values|
    && (s.counts == map[] <==> p.values == [])
    && (forall k :: Seen(s.counts, k) == CountKind(k, p.values))
    && s.tableLength == TableLength(p.values)
    && s.byteLength == ByteLength(p.values)
    && s.bytesReceived == |Bytes(p.values)|
    && (forall c :: NextIndex(s.diagnostics, c) == CountCollection(c, p.values))
    && Pending(OwedAfter(p.blocks).value, p.values) == Accepted(s.treePending)
  }

  function SentSoFar(p: Partial, request: Request): seq<Frame>
    requires |p.blocks| <= |StagesFor(request)|
  {
    Sent(p.blocks, request) + Framed(p.values, StageAt(|p.blocks|, request), ValueCount(p.blocks), request)
  }

  function AddValue(p: Partial, v: Value): Partial {
    p.(values := p.values + [v])
  }

  function AddBlock(p: Partial, outcome: Outcome, message: seq<Byte>): Partial {
    Partial(p.blocks + [Block(p.values, outcome, message)], [])
  }

  function NextFrame(p: Partial, v: Value, request: Request): Frame {
    Observation(request.id, ValueCount(p.blocks) + |p.values|, StageAt(|p.blocks|, request), v)
  }

  lemma ValueSent(p: Partial, v: Value, request: Request)
    requires |p.blocks| <= |StagesFor(request)|
    ensures SentSoFar(AddValue(p, v), request) == SentSoFar(p, request) + [NextFrame(p, v, request)]
  {
  }

  lemma BlockSent(p: Partial, outcome: Outcome, message: seq<Byte>, request: Request)
    requires |p.blocks| < |StagesFor(request)|
    ensures var q := AddBlock(p, outcome, message);
            && SentSoFar(q, request)
               == SentSoFar(p, request) + [StageEnd(request.id, StageAt(|p.blocks|, request), outcome, message)]
            && ValueCount(q.blocks) == ValueCount(p.blocks) + |p.values|
  {
    assert AddBlock(p, outcome, message).blocks[..|p.blocks|] == p.blocks;
  }

  /** What one more value does to each summary. */
  lemma AddedValue(values: seq<Value>, v: Value, owed: nat)
    ensures var all := values + [v];
            && (forall k :: CountKind(k, all) == CountKind(k, values) + (if KindOf(v) == k then 1 else 0))
            && (forall c :: CountCollection(c, all) == CountCollection(c, values) + (if v.Diagnostic? && v.collection == c then 1 else 0))
            && TableLength(all) == (if v.Table? then Some(v.length) else TableLength(values))
            && ByteLength(all) == (if v.ByteHeader? then Some(v.length) else ByteLength(values))
            && Bytes(all) == Bytes(values) + (if v.Chunk? then v.data else [])
            && Arities(all) == Arities(values) + (if v.TreeNode? then [v.children] else [])
            && (Pending(owed, values).Accepted? ==>
                  Pending(owed, all) == if v.Root? then Accepted(if v.node.Some? then 1 else 0)
                                        else if v.TreeNode? then Owe(Pending(owed, values).value, v.children)
                                        else Pending(owed, values))
            && (Pending(owed, values).Rejected? ==> Pending(owed, all).Rejected?)
  {
    assert (values + [v])[..|values|] == values;
  }

  lemma ValuesExtend(values: seq<Value>, v: Value, stage: Stage, request: Request, owed: nat)
    ensures ValuesOk(values + [v], stage, request, owed) <==>
              ValuesOk(values, stage, request, owed) && Placed(v, values, stage, request)
              && Pending(owed, values + [v]).Accepted?
  {
    hide Placed, Owe;
    var all := values + [v];
    AddedValue(values, v, owed);
    assert forall i | 0 <= i < |values| :: all[i] == values[i] && all[..i] == values[..i];
    assert all[..|values|] == values && all[|values|] == v;
  }

  ghost predicate Working(s: CaseState, p: Partial, request: Request) {
    PartialOk(p, request) && Summarises(s, p, request) && !Terminated(p.blocks, request)
  }

  lemma WorkingBound(s: CaseState, p: Partial, request: Request)
    requires Working(s, p, request)
    ensures |p.blocks| < |StagesFor(request)| && StageAt(|p.blocks|, request) == StagesFor(request)[s.stageIndex]
    ensures !s.stopped && s.started && !s.ended && s.stageIndex == |p.blocks|
  {
    hide BlockOk, ValuesOk;
  }

  lemma FitsIffPlaced(s: CaseState, p: Partial, v: Value, request: Request)
    requires Working(s, p, request)
    ensures Allowed(StageAt(|p.blocks|, request), KindOf(v)) && ObservationFits(s, request, v) <==>
              Placed(v, p.values, StageAt(|p.blocks|, request), request)
              && Pending(OwedAfter(p.blocks).value, p.values + [v]).Accepted?
  {
    hide BlockOk, StagesOk, ValuesOk, Allowed, Terminated, OwedAfter, StageAt;
    AddedValue(p.values, v, OwedAfter(p.blocks).value);
  }

  lemma ObservedSummary(s: CaseState, p: Partial, v: Value, request: Request)
    requires Working(s, p, request) && PartialOk(AddValue(p, v), request)
    requires Placed(v, p.values, StageAt(|p.blocks|, request), request)
    requires Pending(OwedAfter(p.blocks).value, p.values + [v]).Accepted?
    ensures Summarises(Observed(s, v), AddValue(p, v), request)
  {
    hide BlockOk, StagesOk, ValuesOk, Allowed, Terminated, OwedAfter, StageAt, ValueCount;
    AddedValue(p.values, v, OwedAfter(p.blocks).value);
    var t := Observed(s, v);
    assert KindOf(v) in t.counts;
    assert t.counts != map[];
    CollectionsSummary(s, p, v);
  }

  lemma CollectionsSummary(s: CaseState, p: Partial, v: Value)
    requires forall c :: NextIndex(s.diagnostics, c) == CountCollection(c, p.values)
    requires v.Diagnostic? ==> v.index == CountCollection(v.collection, p.values)
    ensures forall c :: NextIndex(Observed(s, v).diagnostics, c) == CountCollection(c, p.values + [v])
  {
    assert (p.values + [v])[..|p.values|] == p.values;
  }

  lemma ValueStep(s: CaseState, p: Partial, v: Value, request: Request)
    requires Working(s, p, request)
    ensures var r := AcceptFrame(s, NextFrame(p, v, request), request);
            && (r.Accepted? <==> PartialOk(AddValue(p, v), request))
            && (r.Accepted? ==> Summarises(r.value, AddValue(p, v), request))
  {
    hide BlockOk, StagesOk, ValuesOk, Allowed, OwedAfter, ValueCount, Placed, Observed, ObservationFits, StagesFor, StageAt, Terminated;
    WorkingBound(s, p, request);
    FitsIffPlaced(s, p, v, request);
    ValuesExtend(p.values, v, StageAt(|p.blocks|, request), request, OwedAfter(p.blocks).value);
    if PartialOk(AddValue(p, v), request) {
      ObservedSummary(s, p, v, request);
    }
  }

  lemma OwedSnoc(blocks: seq<Block>, block: Block)
    ensures OwedAfter(blocks + [block]) ==
              if OwedAfter(blocks).Rejected? then Rejected else Pending(OwedAfter(blocks).value, block.values)
  {
    hide Pending;
    assert (blocks + [block])[..|blocks|] == blocks;
  }

  /** Each stage is judged on itself and the stages before it. */
  lemma StagesSame(blocks: seq<Block>, block: Block, i: nat, request: Request)
    requires i <= |blocks| < |StagesFor(request)|
    ensures StageOk(blocks + [block], i, request) ==
            if i < |blocks| then StageOk(blocks, i, request)
            else OwedAfter(blocks).Accepted? && BlockOk(block, StagesFor(request)[i], request, OwedAfter(blocks).value)
  {
    hide BlockOk, StagesFor, OwedAfter;
    assert (blocks + [block])[..i] == blocks[..i];
    assert i == |blocks| ==> blocks[..i] == blocks;
  }

  lemma StagesExtend(blocks: seq<Block>, block: Block, request: Request)
    requires |blocks| < |StagesFor(request)|
    ensures StagesOk(blocks + [block], request) <==>
              && StagesOk(blocks, request) && !Terminated(blocks, request)
              && OwedAfter(blocks).Accepted?
              && BlockOk(block, StagesFor(request)[|blocks|], request, OwedAfter(blocks).value)
    ensures OwedAfter(blocks + [block]) ==
              if OwedAfter(blocks).Rejected? then Rejected else Pending(OwedAfter(blocks).value, block.values)
  {
    hide BlockOk, StagesFor, OwedAfter, Pending, StageOk;
    OwedSnoc(blocks, block);
    var all := blocks + [block];
    forall i | 0 <= i <= |blocks|
      ensures StageOk(all, i, request) ==
              if i < |blocks| then StageOk(blocks, i, request)
              else OwedAfter(blocks).Accepted? && BlockOk(block, StagesFor(request)[i], request, OwedAfter(blocks).value)
    {
      StagesSame(blocks, block, i, request);
    }
    OutcomesExtend(blocks, block);
    if StagesOk(all, request) {
      assert StageOk(all, |blocks|, request);
      assert forall i | 0 <= i < |blocks| :: StageOk(all, i, request);
      assert StagesOk(blocks, request);
      assert !Terminated(blocks, request);
    }
  }

  lemma OutcomesExtend(blocks: seq<Block>, block: Block)
    ensures (forall i | 0 <= i < |blocks + [block]| - 1 :: (blocks + [block])[i].outcome.Ok?) <==>
            (forall i | 0 <= i < |blocks| - 1 :: blocks[i].outcome.Ok?) && (blocks != [] ==> blocks[|blocks| - 1].outcome.Ok?)
  {
    var all := blocks + [block];
    assert forall i | 0 <= i < |blocks| :: all[i] == blocks[i];
    assert (forall i | 0 <= i < |all| - 1 :: all[i].outcome.Ok?) <==> (forall i | 0 <= i < |blocks| :: blocks[i].outcome.Ok?);
  }

  lemma BlockStep(s: CaseState, p: Partial, outcome: Outcome, message: seq<Byte>, request: Request)
    requires Working(s, p, request)
    ensures var q := AddBlock(p, outcome, message);
            var r := AcceptFrame(s, StageEnd(request.id, StageAt(|p.blocks|, request), outcome, message), request);
            && (r.Accepted? <==> PartialOk(q, request))
            && (r.Accepted? ==> Summarises(r.value, q, request))
  {
    hide StagesOk, ValuesOk, OwedAfter, ValueCount, Placed, StagesFor, Terminated, Shows, StageComplete, Bytes, ByteLength,
         TableLength, CountKind, CountCollection, Pending;
    WorkingBound(s, p, request);
    StagesExtend(p.blocks, Block(p.values, outcome, message), request);
    var q := AddBlock(p, outcome, message);
    EmptyValues(StageAt(|q.blocks|, request), request);
    CompleteIffShows(s, p, request);
    BlockSent(p, outcome, message, request);
  }

  lemma EmptyValues(stage: Stage, request: Request)
    ensures forall owed: nat :: ValuesOk([], stage, request, owed) && Pending(owed, []) == Accepted(owed)
    ensures TableLength([]).None? && ByteLength([]).None? && Bytes([]) == []
    ensures forall k :: CountKind(k, []) == 0
    ensures forall c :: CountCollection(c, []) == 0
  {
  }

  lemma CompleteIffShows(s: CaseState, p: Partial, request: Request)
    requires Working(s, p, request)
    ensures StageComplete(s, request, StageAt(|p.blocks|, request)) <==>
            Shows(p.values, StageAt(|p.blocks|, request), request, OwedAfter(p.blocks).value)
  {
    hide StagesOk, ValuesOk, OwedAfter, ValueCount, StagesFor, StageAt, Terminated, Bytes, ByteLength, TableLength, CountKind, Pending;
  }

  // --- whole streams -------------------------------------------------------------------

  lemma RunSnoc(frames: seq<Frame>, f: Frame, request: Request)
    ensures RunFrames(frames + [f], request) ==
            if RunFrames(frames, request).Rejected? then Rejected
            else AcceptFrame(RunFrames(frames, request).value, f, request)
  {
    hide AcceptFrame;
    assert (frames + [f])[..|frames|] == frames;
  }

  ghost predicate Reached(frames: seq<Frame>, p: Partial, request: Request) {
    && PartialOk(p, request)
    && frames == SentSoFar(p, request)
    && RunFrames(frames, request).Accepted?
    && Summarises(RunFrames(frames, request).value, p, request)
  }

  lemma ReachedBegin(request: Request)
    ensures Reached([Begin(request.id, request.op)], BEGUN, request)
  {
    var begin := Begin(request.id, request.op);
    RunSnoc([], begin, request);
    assert [] + [begin] == [begin];
    assert SentSoFar(BEGUN, request) == [begin];
  }

  lemma ReachedValue(frames: seq<Frame>, p: Partial, v: Value, request: Request)
    requires Reached(frames, p, request) && !Terminated(p.blocks, request)
    ensures var f := NextFrame(p, v, request);
            if PartialOk(AddValue(p, v), request) then Reached(frames + [f], AddValue(p, v), request)
            else RunFrames(frames + [f], request).Rejected?
  {
    hide PartialOk, Summarises, AcceptFrame, SentSoFar, NextFrame;
    WorkingBound(RunFrames(frames, request).value, p, request);
    RunSnoc(frames, NextFrame(p, v, request), request);
    ValueStep(RunFrames(frames, request).value, p, v, request);
    ValueSent(p, v, request);
  }

  lemma ReachedBlock(frames: seq<Frame>, p: Partial, outcome: Outcome, message: seq<Byte>, request: Request)
    requires Reached(frames, p, request) && !Terminated(p.blocks, request)
    ensures var q := AddBlock(p, outcome, message);
            var f := StageEnd(request.id, StageAt(|p.blocks|, request), outcome, message);
            if PartialOk(q, request) then Reached(frames + [f], q, request) else RunFrames(frames + [f], request).Rejected?
  {
    hide PartialOk, Summarises, AcceptFrame, SentSoFar, ValueCount, StageAt;
    WorkingBound(RunFrames(frames, request).value, p, request);
    RunSnoc(frames, StageEnd(request.id, StageAt(|p.blocks|, request), outcome, message), request);
    BlockStep(RunFrames(frames, request).value, p, outcome, message, request);
    BlockSent(p, outcome, message, request);
  }

  lemma Finished(s: CaseState, p: Partial, request: Request)
    requires PartialOk(p, request) && Summarises(s, p, request) && Terminated(p.blocks, request)
    ensures (s.stopped || s.stageIndex == |StagesFor(request)|) && s.started && !s.ended && p.values == []
    ensures s.counts == map[] && s.ordinal == ValueCount(p.blocks) && s.stageIndex == |p.blocks|
  {
    hide StagesOk, ValuesOk;
  }

  lemma Unfinished(s: CaseState, p: Partial, f: Frame, request: Request)
    requires Working(s, p, request) && f.End?
    ensures AcceptFrame(s, f, request).Rejected?
  {
    hide ValuesOk, BlockOk;
    WorkingBound(s, p, request);
  }

  /** Soundness: an accepted, unfinished stream spells a partial transcript. */
  lemma {:induction false} ReadStream(frames: seq<Frame>, request: Request) returns (p: Partial)
    requires frames != [] && RunFrames(frames, request).Accepted? && !RunFrames(frames, request).value.ended
    ensures Reached(frames, p, request)
  {
    hide PartialOk, Summarises, SentSoFar, ValueCount, Observed, ObservationFits, StageAllowed, StageClosed, StageAt, StagesFor;
    var earlier, last := frames[..|frames| - 1], frames[|frames| - 1];
    assert frames == earlier + [last];
    RunSnoc(earlier, last, request);
    if earlier == [] {
      assert frames == [Begin(request.id, request.op)];
      ReachedBegin(request);
      p := BEGUN;
    } else {
      var q := ReadStream(earlier, request);
      var s := RunFrames(earlier, request).value;
      if Terminated(q.blocks, request) {
        Finished(s, q, request);
        assert false;
      } else {
        WorkingBound(s, q, request);
        if last.StageEnd? {
          ReachedBlock(earlier, q, last.outcome, last.message, request);
          p := AddBlock(q, last.outcome, last.message);
        } else {
          WorkingOrdinal(s, q, request);
          assert last == NextFrame(q, last.value, request);
          ReachedValue(earlier, q, last.value, request);
          p := AddValue(q, last.value);
        }
      }
    }
  }

  lemma WorkingOrdinal(s: CaseState, p: Partial, request: Request)
    requires Working(s, p, request)
    ensures s.ordinal == ValueCount(p.blocks) + |p.values|
  {
    hide StagesOk, ValuesOk;
  }

  /** The transcript before its last frame. */
  function Before(p: Partial): Partial
    requires p != BEGUN
  {
    if p.values != [] then p.(values := p.values[..|p.values| - 1])
    else
      var i := |p.blocks| - 1;
      Partial(p.blocks[..i], p.blocks[i].values)
  }

  lemma BeforeOk(p: Partial, request: Request)
    requires PartialOk(p, request) && p != BEGUN
    ensures PartialOk(Before(p), request) && !Terminated(Before(p).blocks, request)
    ensures |Before(p).blocks| < |StagesFor(request)|
  {
    hide Placed, Shows, StagesFor;
    if p.values != [] {
      var n := |p.values| - 1;
      assert p.values == p.values[..n] + [p.values[n]];
      ValuesExtend(p.values[..n], p.values[n], StageAt(|p.blocks|, request), request, OwedAfter(p.blocks).value);
    } else {
      var i := |p.blocks| - 1;
      assert p.blocks == p.blocks[..i] + [p.blocks[i]];
      StagesExtend(p.blocks[..i], p.blocks[i], request);
    }
  }

  /** Completeness: every transcript in good order is accepted, frame by frame. */
  lemma {:induction false} WriteStream(p: Partial, request: Request)
    requires PartialOk(p, request)
    ensures |p.blocks| <= |StagesFor(request)|
    ensures Reached(SentSoFar(p, request), p, request)
    decreases |p.blocks|, |p.values|
  {
    hide AcceptFrame, RunFrames, ValueCount, Framed, Sent, ValuesOk, BlockOk, OwedAfter, Terminated, StagesFor, Summarises;
    if p == BEGUN {
      ReachedBegin(request);
    } else {
      var q := Before(p);
      BeforeOk(p, request);
      WriteStream(q, request);
      if p.values != [] {
        var v := p.values[|p.values| - 1];
        assert AddValue(q, v) == p;
        ValueSent(q, v, request);
        ReachedValue(SentSoFar(q, request), q, v, request);
      } else {
        var last := p.blocks[|p.blocks| - 1];
        assert AddBlock(q, last.outcome, last.message) == p;
        BlockSent(q, last.outcome, last.message, request);
        ReachedBlock(SentSoFar(q, request), q, last.outcome, last.message, request);
      }
    }
  }

  lemma StagesOwe(blocks: seq<Block>, request: Request)
    requires StagesOk(blocks, request)
    ensures PartialOk(Partial(blocks, []), request)
    ensures SentSoFar(Partial(blocks, []), request) == Sent(blocks, request)
  {
    hide Placed, Shows, Sent, StagesFor;
    if blocks != [] {
      var i := |blocks| - 1;
      assert blocks == blocks[..i] + [blocks[i]];
      StagesExtend(blocks[..i], blocks[i], request);
    }
  }

  lemma OnlyEndEnds(s: CaseState, f: Frame, request: Request)
    requires AcceptFrame(s, f, request).Accepted?
    ensures AcceptFrame(s, f, request).value.ended <==> f.End?
  {
    hide ObservationFits, StageComplete, Allowed;
  }

  /** The main result: the complete streams are exactly the spelled requests. */
  lemma CompleteIffSpells(frames: seq<Frame>, request: Request)
    ensures Complete(frames, request) <==> exists blocks :: Spells(frames, blocks, request)
  {
    if Complete(frames, request) {
      var blocks := ReadComplete(frames, request);
    }
    if blocks :| Spells(frames, blocks, request) {
      SpelledIsComplete(frames, blocks, request);
    }
  }

  lemma ReadComplete(frames: seq<Frame>, request: Request) returns (blocks: seq<Block>)
    requires Complete(frames, request)
    ensures Spells(frames, blocks, request)
  {
    hide Sent, ValueCount, BlockOk, ValuesOk, ObservationFits, StageAllowed, Observed, StageClosed, Terminated, StagesFor, Summarises;
    var earlier, last := frames[..|frames| - 1], frames[|frames| - 1];
    assert frames == earlier + [last];
    RunSnoc(earlier, last, request);
    var s := RunFrames(earlier, request).value;
    OnlyEndEnds(s, last, request);
    var p := ReadStream(earlier, request);
    if !Terminated(p.blocks, request) {
      Unfinished(s, p, last, request);
      assert false;
    }
    Finished(s, p, request);
    StagesOwe(p.blocks, request);
    blocks := p.blocks;
  }

  lemma SpelledIsComplete(frames: seq<Frame>, blocks: seq<Block>, request: Request)
    requires Spells(frames, blocks, request)
    ensures Complete(frames, request)
  {
    hide Sent, ValueCount, BlockOk, ValuesOk, ObservationFits, Terminated, StagesFor, Summarises;
    var p := Partial(blocks, []);
    StagesOwe(blocks, request);
    WriteStream(p, request);
    Finished(RunFrames(Sent(blocks, request), request).value, p, request);
    RunSnoc(Sent(blocks, request), End(request.id, ValueCount(blocks), |blocks|), request);
  }
}
