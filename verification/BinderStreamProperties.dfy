/** A run of `Stream` is complete exactly when it spells the stages of one binder
    request, and what it forwards is those stages with whole, renumbered records. */
module BinderStreamProperties {
  import opened Results
  import opened BinderNames
  import opened BinderGraph
  import opened BinderGraphProperties
  import opened BinderStream

  // --- a run in progress: finished stages, records of the current one, and an open cut ---

  datatype Partial = Partial(blocks: seq<Block>, pieces: seq<Piece>, cut: Option<Pending>)

  const BEGUN: Partial := Partial([], [], None)

  function StageAt(i: nat): Stage {
    if i < |OPERATIONS| then OPERATIONS[i] else UnknownStage
  }

  function CutBodies(cut: Option<Pending>): seq<Body> {
    if cut.Some? then Fragments(cut.value.kind, cut.value.parts, cut.value.chunks) else []
  }

  predicate CutOk(p: Pending) {
    && !p.kind.UnknownRecord?
    && 2 <= p.parts <= MAX_PARTS
    && 0 < |p.chunks| < p.parts
    && forall chunk <- p.chunks :: |chunk| == CHUNK
  }

  predicate Idle(p: Partial) {
    p.pieces == [] && p.cut.None?
  }

  ghost predicate PartialOk(p: Partial, c: Context) {
    && StagesOk(p.blocks, c)
    && (Idle(p) || (!Terminated(p.blocks) && GraphStage(StageAt(|p.blocks|))))
    && (forall piece <- p.pieces :: PieceOk(piece))
    && (p.cut.Some? ==> CutOk(p.cut.value))
    && Run(Records(p.pieces, c), c.schema).Accepted?
  }

  function Digests(blocks: seq<Block>, c: Context): map<Stage, seq<Record>>
    requires |blocks| <= |OPERATIONS|
  {
    if blocks == [] then map[]
    else
      var i := |blocks| - 1;
      var earlier := Digests(blocks[..i], c);
      if GraphStage(OPERATIONS[i]) then earlier[OPERATIONS[i] := Records(blocks[i].pieces, c)] else earlier
  }

  function Outcomes(blocks: seq<Block>): seq<(Stage, Outcome, seq<Byte>)>
    requires |blocks| <= |OPERATIONS|
  {
    if blocks == [] then []
    else
      var i := |blocks| - 1;
      Outcomes(blocks[..i]) + [(OPERATIONS[i], blocks[i].outcome, blocks[i].message)]
  }

  ghost function StateOf(p: Partial, c: Context): StreamState
    requires PartialOk(p, c)
  {
    StreamState(
      true, false,
      p.blocks != [] && !p.blocks[|p.blocks| - 1].outcome.Ok?,
      FrameCount(p.blocks) + |Bodies(p.pieces)| + |CutBodies(p.cut)|,
      |p.blocks|,
      if Idle(p) then None else Some(Run(Records(p.pieces, c), c.schema).value),
      Digests(p.blocks, c),
      Outcomes(p.blocks),
      p.cut,
      RecordCount(p.blocks) + |p.pieces|)
  }

  function ReceivedSoFar(p: Partial, c: Context): seq<Frame>
    requires |p.blocks| <= |OPERATIONS|
  {
    Received(p.blocks, c)
    + Framed(Bodies(p.pieces) + CutBodies(p.cut), StageAt(|p.blocks|), FrameCount(p.blocks), c)
  }

  function ForwardedSoFar(p: Partial, c: Context): seq<Frame>
    requires |p.blocks| <= |OPERATIONS|
  {
    Forwarded(p.blocks, c)
    + Framed(Wholes(Records(p.pieces, c)), StageAt(|p.blocks|), RecordCount(p.blocks), c)
  }

  // --- the four ways a run grows -------------------------------------------------

  function AddRecord(p: Partial, record: Record): Partial {
    p.(pieces := p.pieces + [One(record)])
  }

  function AddChunk(p: Partial, f: Body): Partial
    requires f.Fragment?
  {
    var pending := AddFragment(f, p.cut);
    if |pending.chunks| != f.parts then p.(cut := Some(pending))
    else Partial(p.blocks, p.pieces + [Cut(pending.kind, pending.chunks)], None)
  }

  function AddBlock(p: Partial, outcome: Outcome, message: seq<Byte>): Partial {
    Partial(p.blocks + [Block(p.pieces, outcome, message)], [], None)
  }

  function NextFrame(p: Partial, body: Body, c: Context): Frame {
    Observation(c.id, FrameCount(p.blocks) + |Bodies(p.pieces)| + |CutBodies(p.cut)|, StageAt(|p.blocks|), body)
  }

  lemma FramedConcat(a: seq<Body>, b: seq<Body>, stage: Stage, n: nat, c: Context)
    ensures Framed(a + b, stage, n, c) == Framed(a, stage, n, c) + Framed(b, stage, n + |a|, c)
  {
  }

  lemma AddPiece(pieces: seq<Piece>, piece: Piece, c: Context)
    ensures Bodies(pieces + [piece]) == Bodies(pieces) + PieceBodies(piece)
    ensures Records(pieces + [piece], c) == Records(pieces, c) + [RecordOf(piece, c)]
    ensures Wholes(Records(pieces + [piece], c)) == Wholes(Records(pieces, c)) + [Whole(RecordOf(piece, c))]
  {
    assert (pieces + [piece])[..|pieces|] == pieces;
  }

  lemma RunAppend(records: seq<Record>, r: Record, schema: Schema)
    ensures Run(records + [r], schema) ==
            if Run(records, schema).Rejected? then Rejected else Step(Run(records, schema).value, r, schema)
  {
    hide Step;
    assert (records + [r])[..|records|] == records;
  }

  /** Adding a complete piece to the text of a run: what was received grows by
      the piece's last frame, what was forwarded by its whole record. */
  lemma PieceForwarded(p: Partial, piece: Piece, c: Context)
    requires |p.blocks| <= |OPERATIONS|
    ensures var q := Partial(p.blocks, p.pieces + [piece], None);
            ForwardedSoFar(q, c) == ForwardedSoFar(p, c)
              + [Observation(c.id, RecordCount(p.blocks) + |p.pieces|, StageAt(|p.blocks|), Whole(RecordOf(piece, c)))]
  {
    hide Records, RecordOf, Bodies, RecordCount;
    AddPiece(p.pieces, piece, c);
    FramedConcat(Wholes(Records(p.pieces, c)), [Whole(RecordOf(piece, c))], StageAt(|p.blocks|), RecordCount(p.blocks), c);
  }

  lemma RecordReceived(p: Partial, record: Record, c: Context)
    requires |p.blocks| <= |OPERATIONS| && p.cut.None?
    ensures ReceivedSoFar(AddRecord(p, record), c) == ReceivedSoFar(p, c) + [NextFrame(p, Whole(record), c)]
  {
    hide Bodies, Records, FrameCount;
    AddPiece(p.pieces, One(record), c);
    FramedConcat(Bodies(p.pieces), [Whole(record)], StageAt(|p.blocks|), FrameCount(p.blocks), c);
    assert Bodies(p.pieces) + CutBodies(p.cut) == Bodies(p.pieces);
  }

  lemma CutGrows(f: Body, cut: Option<Pending>)
    requires f.Fragment? && FragmentOk(f, cut)
    ensures var pending := AddFragment(f, cut);
            && pending.kind == f.kind && pending.parts == f.parts && |pending.chunks| == f.part + 1
            && Fragments(pending.kind, pending.parts, pending.chunks) == CutBodies(cut) + [f]
  {
  }

  lemma ChunkReceived(p: Partial, f: Body, c: Context)
    requires |p.blocks| <= |OPERATIONS| && f.Fragment? && FragmentOk(f, p.cut)
    ensures ReceivedSoFar(AddChunk(p, f), c) == ReceivedSoFar(p, c) + [NextFrame(p, f, c)]
  {
    hide FragmentOk, AddFragment, Fragments, Framed, Received, Bodies;
    var pending := AddFragment(f, p.cut);
    CutGrows(f, p.cut);
    var before := Bodies(p.pieces) + CutBodies(p.cut);
    var q := AddChunk(p, f);
    var stage, n := StageAt(|p.blocks|), FrameCount(p.blocks);
    assert Bodies(q.pieces) + CutBodies(q.cut) == before + [f] by {
      if |pending.chunks| == f.parts {
        AddPiece(p.pieces, Cut(pending.kind, pending.chunks), c);
      }
    }
    FramedConcat(before, [f], stage, n, c);
    assert Framed([f], stage, n + |before|, c) == [NextFrame(p, f, c)] by {
      FramedOne(f, stage, n + |before|, c);
    }
    assert Received(p.blocks, c) + (Framed(before, stage, n, c) + [NextFrame(p, f, c)]) == ReceivedSoFar(p, c) + [NextFrame(p, f, c)];
  }

  lemma FramedOne(body: Body, stage: Stage, n: nat, c: Context)
    ensures Framed([body], stage, n, c) == [Observation(c.id, n, stage, body)]
  {
  }

  lemma BlockReceived(p: Partial, outcome: Outcome, message: seq<Byte>, c: Context)
    requires |p.blocks| < |OPERATIONS| && p.cut.None?
    ensures var q := AddBlock(p, outcome, message);
            var end := StageEnd(c.id, OPERATIONS[|p.blocks|], outcome, message);
            && ReceivedSoFar(q, c) == ReceivedSoFar(p, c) + [end]
            && ForwardedSoFar(q, c) == ForwardedSoFar(p, c) + [end]
            && FrameCount(q.blocks) == FrameCount(p.blocks) + |Bodies(p.pieces)|
            && RecordCount(q.blocks) == RecordCount(p.blocks) + |p.pieces|
  {
    var q := AddBlock(p, outcome, message);
    assert q.blocks[..|p.blocks|] == p.blocks;
    assert Bodies(p.pieces) + CutBodies(p.cut) == Bodies(p.pieces);
  }

  // --- what the stream does with each of them --------------------------------------

  ghost predicate Working(p: Partial, c: Context) {
    PartialOk(p, c) && !Terminated(p.blocks)
  }

  lemma WorkingState(p: Partial, c: Context)
    requires Working(p, c)
    ensures var s := StateOf(p, c);
            && !s.failed && s.stageIndex == |p.blocks| < |OPERATIONS|
            && s.seqno == FrameCount(p.blocks) + |Bodies(p.pieces)| + |CutBodies(p.cut)|
            && s.fragment == p.cut && s.begun && !s.ended
            && (if s.graph.None? then EMPTY else s.graph.value) == Run(Records(p.pieces, c), c.schema).value
            && (s.graph.None? <==> Idle(p))
            && s.logical == RecordCount(p.blocks) + |p.pieces|
  {
    hide BlockOk, Bodies, Step, FrameCount, RecordCount;
  }

  function ForwardedRecord(p: Partial, record: Record, c: Context): Frame {
    Observation(c.id, RecordCount(p.blocks) + |p.pieces|, StageAt(|p.blocks|), Whole(record))
  }

  /** A complete record reaching the current graph. */
  lemma Delivered(p: Partial, piece: Piece, s: StreamState, c: Context)
    requires Working(p, c) && GraphStage(StageAt(|p.blocks|)) && PieceOk(piece)
    requires s.graph == Some(Run(Records(p.pieces, c), c.schema).value)
    requires s == StateOf(p, c).(graph := s.graph, seqno := s.seqno)
    requires s.seqno == FrameCount(p.blocks) + |Bodies(p.pieces + [piece])|
    ensures var q := Partial(p.blocks, p.pieces + [piece], None);
            var d := Deliver(s, StageAt(|p.blocks|), RecordOf(piece, c), c);
            if PartialOk(q, c) then d == Accepted((StateOf(q, c), Some(ForwardedRecord(p, RecordOf(piece, c), c))))
            else d.Rejected?
  {
    hide StagesOk, Bodies, Step, FrameCount, RecordCount, EMPTY, PieceOk, Records, RecordOf, Run, Digests, Outcomes;
    hide CutOk, Terminated, Wholes;
    var q := Partial(p.blocks, p.pieces + [piece], None);
    assert q.pieces != [];
    RunAppend(Records(p.pieces, c), RecordOf(piece, c), c.schema);
    AddPiece(p.pieces, piece, c);
  }

  /** An observation of the running stage goes to the stage. */
  lemma AcceptsObservation(s: StreamState, f: Frame, c: Context)
    requires f.Observation? && f.id == c.id && s.begun && !s.ended && !s.failed
    requires s.stageIndex < |OPERATIONS| && f.stage == OPERATIONS[s.stageIndex]
    ensures AcceptFrame(s, f, c) == Observe(s, f, c)
  {
    hide Observe;
  }

  lemma RecordStep(p: Partial, record: Record, c: Context)
    requires Working(p, c) && GraphStage(StageAt(|p.blocks|))
    ensures var q := AddRecord(p, record);
            var r := AcceptFrame(StateOf(p, c), NextFrame(p, Whole(record), c), c);
            if p.cut.None? && PartialOk(q, c) then r == Accepted((StateOf(q, c), Some(ForwardedRecord(p, record, c))))
            else r.Rejected?
  {
    hide StagesOk, Bodies, Step, FrameCount, RecordCount, Deliver, AcceptFrame, StateOf, Run, Records;
    WorkingState(p, c);
    AcceptsObservation(StateOf(p, c), NextFrame(p, Whole(record), c), c);
    if p.cut.None? {
      var s := StateOf(p, c);
      var t := s.(seqno := s.seqno + 1, graph := Some(Run(Records(p.pieces, c), c.schema).value));
      AddPiece(p.pieces, One(record), c);
      assert |Bodies(p.pieces + [One(record)])| == |Bodies(p.pieces)| + 1;
      Delivered(p, One(record), t, c);
    }
  }

  lemma ChunkStep(p: Partial, f: Body, c: Context)
    requires Working(p, c) && GraphStage(StageAt(|p.blocks|)) && f.Fragment?
    ensures var q := AddChunk(p, f);
            var r := AcceptFrame(StateOf(p, c), NextFrame(p, f, c), c);
            if FragmentOk(f, p.cut) && PartialOk(q, c) then
              r == Accepted((StateOf(q, c),
                             if q.cut.Some? then None
                             else Some(ForwardedRecord(p, RecordOf(q.pieces[|p.pieces|], c), c))))
            else r.Rejected?
  {
    hide StagesOk, Bodies, Step, FrameCount, RecordCount, Deliver, FragmentOk, AddFragment, Fragments, AcceptFrame, Run, Records;
    WorkingState(p, c);
    AcceptsObservation(StateOf(p, c), NextFrame(p, f, c), c);
    if FragmentOk(f, p.cut) {
      var s := StateOf(p, c);
      var t := s.(seqno := s.seqno + 1, graph := Some(Run(Records(p.pieces, c), c.schema).value));
      var pending := AddFragment(f, p.cut);
      CutGrows(f, p.cut);
      if |pending.chunks| == f.parts {
        var piece := Cut(pending.kind, pending.chunks);
        FinishedCut(p, f, c);
        AddPiece(p.pieces, piece, c);
        Delivered(p, piece, t, c);
      } else {
        UnfinishedCut(p, f, c);
      }
    }
  }

  lemma FinishedCut(p: Partial, f: Body, c: Context)
    requires PartialOk(p, c) && f.Fragment? && FragmentOk(f, p.cut)
    requires f.part + 1 == f.parts
    ensures var pending := AddFragment(f, p.cut); PieceOk(Cut(pending.kind, pending.chunks))
  {
    hide StagesOk, Bodies, Step, Run;
    var pending := AddFragment(f, p.cut);
    assert pending.chunks[|pending.chunks| - 1] == f.payload;
    forall i | 0 <= i < |pending.chunks| - 1 ensures |pending.chunks[i]| == CHUNK {
      assert pending.chunks[i] == p.cut.value.chunks[i] && p.cut.value.chunks[i] in p.cut.value.chunks;
    }
  }

  lemma UnfinishedCut(p: Partial, f: Body, c: Context)
    requires Working(p, c) && GraphStage(StageAt(|p.blocks|)) && f.Fragment? && FragmentOk(f, p.cut)
    requires f.part + 1 != f.parts
    ensures PartialOk(AddChunk(p, f), c)
  {
    hide StagesOk, Bodies, Step, Run;
    var pending := AddFragment(f, p.cut);
    forall chunk <- pending.chunks ensures |chunk| == CHUNK {
    }
  }

  lemma DigestKept(blocks: seq<Block>, c: Context)
    requires 4 <= |blocks| <= 5
    ensures BoundGraph in Digests(blocks, c) && Digests(blocks, c)[BoundGraph] == Records(blocks[3].pieces, c)
  {
    hide Records;
    assert OPERATIONS[3] == BoundGraph && OPERATIONS[4] == RepeatBind;
    if |blocks| == 5 {
      assert Digests(blocks, c) == Digests(blocks[..4], c);
      assert blocks[..4][3] == blocks[3];
    }
  }

  lemma StagesExtend(blocks: seq<Block>, block: Block, c: Context)
    requires |blocks| < |OPERATIONS|
    ensures StagesOk(blocks + [block], c) <==>
              && StagesOk(blocks, c) && !Terminated(blocks)
              && BlockOk(|blocks|, block, c)
              && (|blocks| == 5 ==> Records(block.pieces, c) == Records(blocks[3].pieces, c))
  {
    hide BlockOk, Records;
    var all := blocks + [block];
    assert all[|blocks|] == block && forall i | 0 <= i < |blocks| :: all[i] == blocks[i];
    if StagesOk(all, c) && blocks != [] {
      assert all[|blocks| - 1].outcome.Ok?;
    }
  }

  /** The state after a stage that is allowed to close. */
  lemma ClosedState(p: Partial, outcome: Outcome, message: seq<Byte>, c: Context)
    requires Working(p, c) && p.cut.None? && PartialOk(AddBlock(p, outcome, message), c)
    ensures var s, q, stage := StateOf(p, c), AddBlock(p, outcome, message), StageAt(|p.blocks|);
            StateOf(q, c) == s.(failed := !outcome.Ok?, outcomes := s.outcomes + [(stage, outcome, message)],
                                stageIndex := s.stageIndex + 1, graph := None,
                                digests := if GraphStage(stage) then s.digests[stage := Records(p.pieces, c)] else s.digests)
  {
    hide StagesOk, Bodies, Step, FrameCount, RecordCount, Records, Run;
    WorkingState(p, c);
    BlockReceived(p, outcome, message, c);
    assert AddBlock(p, outcome, message).blocks[..|p.blocks|] == p.blocks;
    assert Bodies([]) == [] by { EmptyBodies(); }
  }

  lemma EmptyBodies()
    ensures Bodies([]) == []
  {
  }

  lemma IdleAfterBlock(p: Partial, outcome: Outcome, message: seq<Byte>, c: Context)
    ensures var q := AddBlock(p, outcome, message); PartialOk(q, c) <==> StagesOk(q.blocks, c)
  {
    hide StagesOk, Step;
  }

  lemma NativeBlock(p: Partial, outcome: Outcome, message: seq<Byte>, c: Context)
    requires Working(p, c) && !GraphStage(StageAt(|p.blocks|))
    ensures p.pieces == [] && p.cut.None? && StateOf(p, c).graph.None?
    ensures PartialOk(AddBlock(p, outcome, message), c) <==>
            !outcome.OtherOutcome? && (outcome.Ok? ==> message == [])
  {
    hide StagesOk, Step, Run, Bodies, FrameCount, RecordCount;
    WorkingState(p, c);
    StagesExtend(p.blocks, Block(p.pieces, outcome, message), c);
    IdleAfterBlock(p, outcome, message, c);
  }

  lemma GraphBlock(p: Partial, outcome: Outcome, message: seq<Byte>, c: Context)
    requires Working(p, c) && GraphStage(StageAt(|p.blocks|)) && p.cut.None?
    ensures var s := StateOf(p, c);
            PartialOk(AddBlock(p, outcome, message), c) <==>
              && outcome.Ok? && message == []
              && s.graph.Some? && s.graph.value.closed
              && (|p.blocks| == 5 ==> BoundGraph in s.digests && s.digests[BoundGraph] == s.graph.value.digested)
    ensures PartialOk(AddBlock(p, outcome, message), c) ==> StateOf(p, c).graph.value.digested == Records(p.pieces, c)
  {
    hide StagesOk, Step, Run, Bodies, FrameCount, RecordCount, ClosedGraph, Records;
    WorkingState(p, c);
    StagesExtend(p.blocks, Block(p.pieces, outcome, message), c);
    IdleAfterBlock(p, outcome, message, c);
    AcceptsIffClosed(Records(p.pieces, c), c.schema);
    if Idle(p) {
      EmptyNotClosed(c.schema);
      assert Records(p.pieces, c) == [];
    }
    if |p.blocks| == 5 {
      DigestKept(p.blocks, c);
    }
  }

  lemma BlockStep(p: Partial, outcome: Outcome, message: seq<Byte>, c: Context)
    requires Working(p, c)
    ensures var q := AddBlock(p, outcome, message);
            var f := StageEnd(c.id, StageAt(|p.blocks|), outcome, message);
            var r := AcceptFrame(StateOf(p, c), f, c);
            if p.cut.None? && PartialOk(q, c) then r == Accepted((StateOf(q, c), Some(f))) else r.Rejected?
  {
    hide PartialOk, StateOf, StagesOk, Bodies, Step, FrameCount, RecordCount, ClosedGraph, Records, Run, EMPTY;
    WorkingState(p, c);
    StageOrder(|p.blocks|);
    if p.cut.None? {
      if GraphStage(StageAt(|p.blocks|)) {
        GraphBlock(p, outcome, message, c);
      } else {
        NativeBlock(p, outcome, message, c);
      }
      if PartialOk(AddBlock(p, outcome, message), c) {
        ClosedState(p, outcome, message, c);
      }
    }
  }

  lemma StageOrder(i: nat)
    requires i < |OPERATIONS|
    ensures StageAt(i) == OPERATIONS[i] && (StageAt(i) == RepeatedGraph <==> i == 5)
  {
  }

  // --- whole runs ---------------------------------------------------------------------

  lemma RunSnoc(frames: seq<Frame>, f: Frame, c: Context)
    ensures RunFrames(frames + [f], c) ==
            if RunFrames(frames, c).Rejected? then Rejected
            else
              var before := RunFrames(frames, c).value;
              var r := AcceptFrame(before.0, f, c);
              if r.Rejected? then Rejected
              else Accepted((r.value.0, before.1 + (if r.value.1.Some? then [r.value.1.value] else [])))
  {
    hide AcceptFrame;
    assert (frames + [f])[..|frames|] == frames;
  }

  ghost predicate Reached(frames: seq<Frame>, p: Partial, c: Context) {
    && PartialOk(p, c)
    && frames == ReceivedSoFar(p, c)
    && RunFrames(frames, c) == Accepted((StateOf(p, c), ForwardedSoFar(p, c)))
  }

  lemma ReachedBegin(c: Context)
    ensures Reached([Begin(c.id, "bind")], BEGUN, c)
  {
    hide Step;
    var begin := Begin(c.id, "bind");
    RunSnoc([], begin, c);
    assert [] + [begin] == [begin];
    BegunReceived(c);
    assert Records([], c) == [];
    assert PartialOk(BEGUN, c);
    assert StateOf(BEGUN, c) == FRESH.(begun := true);
  }

  lemma ReachedRecord(frames: seq<Frame>, p: Partial, record: Record, c: Context)
    requires Reached(frames, p, c) && Working(p, c) && GraphStage(StageAt(|p.blocks|))
    ensures var f := NextFrame(p, Whole(record), c);
            if p.cut.None? && PartialOk(AddRecord(p, record), c) then Reached(frames + [f], AddRecord(p, record), c)
            else RunFrames(frames + [f], c).Rejected?
  {
    hide PartialOk, StateOf, AcceptFrame, ReceivedSoFar, ForwardedSoFar, NextFrame;
    WorkingBound(p, c);
    RunSnoc(frames, NextFrame(p, Whole(record), c), c);
    RecordStep(p, record, c);
    if p.cut.None? {
      RecordReceived(p, record, c);
      PieceForwarded(p, One(record), c);
    }
  }

  lemma WorkingBound(p: Partial, c: Context)
    requires Working(p, c)
    ensures |p.blocks| < |OPERATIONS|
  {
    hide Step, BlockOk;
  }

  lemma ReachedChunk(frames: seq<Frame>, p: Partial, f: Body, c: Context)
    requires Reached(frames, p, c) && Working(p, c) && GraphStage(StageAt(|p.blocks|)) && f.Fragment?
    ensures var g := NextFrame(p, f, c);
            if FragmentOk(f, p.cut) && PartialOk(AddChunk(p, f), c) then Reached(frames + [g], AddChunk(p, f), c)
            else RunFrames(frames + [g], c).Rejected?
  {
    hide PartialOk, StateOf, AcceptFrame, ReceivedSoFar, NextFrame, FragmentOk, AddFragment, Framed, Forwarded, RecordOf;
    WorkingBound(p, c);
    RunSnoc(frames, NextFrame(p, f, c), c);
    ChunkStep(p, f, c);
    if FragmentOk(f, p.cut) && PartialOk(AddChunk(p, f), c) {
      ChunkReceived(p, f, c);
      var pending := AddFragment(f, p.cut);
      if |pending.chunks| == f.parts {
        PieceForwarded(p, Cut(pending.kind, pending.chunks), c);
      } else {
        assert ForwardedSoFar(AddChunk(p, f), c) == ForwardedSoFar(p, c) + [];
      }
    }
  }

  lemma ReachedBlock(frames: seq<Frame>, p: Partial, outcome: Outcome, message: seq<Byte>, c: Context)
    requires Reached(frames, p, c) && Working(p, c)
    ensures var f := StageEnd(c.id, StageAt(|p.blocks|), outcome, message);
            var q := AddBlock(p, outcome, message);
            if p.cut.None? && PartialOk(q, c) then Reached(frames + [f], q, c) else RunFrames(frames + [f], c).Rejected?
  {
    hide PartialOk, StateOf, AcceptFrame, ReceivedSoFar, ForwardedSoFar, FrameCount, RecordCount;
    WorkingBound(p, c);
    RunSnoc(frames, StageEnd(c.id, StageAt(|p.blocks|), outcome, message), c);
    BlockStep(p, outcome, message, c);
    if p.cut.None? {
      BlockReceived(p, outcome, message, c);
    }
  }

  lemma Finished(p: Partial, c: Context)
    requires PartialOk(p, c) && Terminated(p.blocks)
    ensures var s := StateOf(p, c); (s.failed || s.stageIndex == |OPERATIONS|) && s.begun && !s.ended
    ensures Idle(p)
  {
    hide BlockOk, Step;
  }

  /** Soundness: an accepted, unfinished run spells a partial transcript. */
  lemma {:induction false} ReadRun(frames: seq<Frame>, c: Context) returns (p: Partial)
    requires frames != [] && RunFrames(frames, c).Accepted? && !RunFrames(frames, c).value.0.ended
    ensures Reached(frames, p, c)
  {
    hide PartialOk, StateOf, ReceivedSoFar, ForwardedSoFar, Observe, CloseStage, FrameCount, Bodies;
    var earlier, last := frames[..|frames| - 1], frames[|frames| - 1];
    assert frames == earlier + [last];
    RunSnoc(earlier, last, c);
    if earlier == [] {
      assert frames == [Begin(c.id, "bind")];
      ReachedBegin(c);
      p := BEGUN;
    } else {
      var q := ReadRun(earlier, c);
      if Terminated(q.blocks) {
        Finished(q, c);
        assert false;
      } else {
        p := ReadNext(earlier, q, last, c);
      }
    }
  }

  lemma ReadNext(earlier: seq<Frame>, q: Partial, last: Frame, c: Context) returns (p: Partial)
    requires Reached(earlier, q, c) && Working(q, c)
    requires var r := RunFrames(earlier + [last], c); r.Accepted? && !r.value.0.ended
    ensures Reached(earlier + [last], p, c)
  {
    hide PartialOk, StateOf, ReceivedSoFar, ForwardedSoFar, FrameCount, Bodies, RunFrames, AcceptFrame;
    RunSnoc(earlier, last, c);
    GoesOn(q, last, c);
    if last.StageEnd? {
      ReachedBlock(earlier, q, last.outcome, last.message, c);
      p := AddBlock(q, last.outcome, last.message);
    } else {
      ObservedNext(q, last, c);
      match last.body {
        case Whole(record) =>
          ReachedRecord(earlier, q, record, c);
          p := AddRecord(q, record);
        case Fragment(_, _, _, _) =>
          ReachedChunk(earlier, q, last.body, c);
          p := AddChunk(q, last.body);
      }
    }
  }

  /** What a run that still works can be continued with. */
  lemma GoesOn(q: Partial, f: Frame, c: Context)
    requires Working(q, c) && AcceptFrame(StateOf(q, c), f, c).Accepted?
    requires !AcceptFrame(StateOf(q, c), f, c).value.0.ended
    ensures f.Observation? || f == StageEnd(c.id, StageAt(|q.blocks|), f.outcome, f.message)
  {
    hide PartialOk, StateOf, Observe, CloseStage, FrameCount, Bodies;
    WorkingState(q, c);
    StageOrder(|q.blocks|);
  }

  lemma ObservedNext(p: Partial, f: Frame, c: Context)
    requires Working(p, c) && f.Observation? && AcceptFrame(StateOf(p, c), f, c).Accepted?
    ensures f == NextFrame(p, f.body, c) && GraphStage(StageAt(|p.blocks|))
  {
    hide PartialOk, StateOf, Deliver, FragmentOk, FrameCount, Bodies;
    WorkingState(p, c);
    StageOrder(|p.blocks|);
  }

  /** The transcript before its last frame. */
  function Before(p: Partial): Partial
    requires p != BEGUN && (p.cut.Some? ==> p.cut.value.chunks != [])
    requires forall piece <- p.pieces :: PieceOk(piece)
  {
    if p.cut.Some? then
      var pending := p.cut.value;
      var n := |pending.chunks| - 1;
      p.(cut := if n == 0 then None else Some(pending.(chunks := pending.chunks[..n])))
    else if p.pieces != [] then
      var i := |p.pieces| - 1;
      match p.pieces[i]
      case One(_) => p.(pieces := p.pieces[..i])
      case Cut(kind, chunks) =>
        assert PieceOk(p.pieces[i]);
        Partial(p.blocks, p.pieces[..i], Some(Pending(kind, |chunks|, chunks[..|chunks| - 1])))
    else
      var i := |p.blocks| - 1;
      Partial(p.blocks[..i], p.blocks[i].pieces, None)
  }

  lemma BeforePieces(p: Partial, c: Context)
    requires PartialOk(p, c) && p.pieces != []
    ensures var i := |p.pieces| - 1;
            && Run(Records(p.pieces[..i], c), c.schema).Accepted?
            && forall piece <- p.pieces[..i] :: PieceOk(piece)
  {
    hide StagesOk, Step;
    var i := |p.pieces| - 1;
    assert p.pieces == p.pieces[..i] + [p.pieces[i]];
    AddPiece(p.pieces[..i], p.pieces[i], c);
    RunAppend(Records(p.pieces[..i], c), RecordOf(p.pieces[i], c), c.schema);
  }

  lemma BeforeBlock(p: Partial, c: Context)
    requires PartialOk(p, c) && Idle(p) && p.blocks != []
    ensures Working(Before(p), c)
  {
    hide Step, ClosedGraph;
    var i := |p.blocks| - 1;
    var block := p.blocks[i];
    assert p.blocks == p.blocks[..i] + [block];
    StagesExtend(p.blocks[..i], block, c);
    AcceptsIffClosed(Records(block.pieces, c), c.schema);
    StageOrder(i);
  }

  lemma BeforeOk(p: Partial, c: Context)
    requires PartialOk(p, c) && p != BEGUN
    ensures Working(Before(p), c)
    ensures Idle(p) || GraphStage(StageAt(|Before(p).blocks|))
  {
    if Idle(p) {
      BeforeBlock(p, c);
    } else {
      hide StagesOk, Step;
      if p.cut.None? {
        BeforePieces(p, c);
        assert p.pieces[|p.pieces| - 1] in p.pieces;
      }
    }
  }

  /** Completeness: every transcript in good order is accepted, frame by frame. */
  lemma {:induction false} WriteRun(p: Partial, c: Context)
    requires PartialOk(p, c)
    ensures Reached(ReceivedSoFar(p, c), p, c)
    decreases |ReceivedSoFar(p, c)|
  {
    hide PartialOk, StateOf, AcceptFrame, RunFrames, FrameCount, Framed, Bodies, Received, Forwarded, FragmentOk;
    if p == BEGUN {
      ReachedBegin(c);
      BegunReceived(c);
    } else {
      WriteShape(p, c);
      var q := Before(p);
      BeforeOk(p, c);
      WorkingBound(q, c);
      if p.cut.Some? {
        var pending := p.cut.value;
        var n := |pending.chunks| - 1;
        var f := Fragment(pending.kind, n, pending.parts, pending.chunks[n]);
        CutBack(q.cut, f, pending);
        ChunkReceived(q, f, c);
        WriteRun(q, c);
        ReachedChunk(ReceivedSoFar(q, c), q, f, c);
      } else if p.pieces != [] {
        var last := p.pieces[|p.pieces| - 1];
        assert p.pieces == p.pieces[..|p.pieces| - 1] + [last];
        match last {
          case One(record) =>
            RecordReceived(q, record, c);
            WriteRun(q, c);
            ReachedRecord(ReceivedSoFar(q, c), q, record, c);
          case Cut(kind, chunks) =>
            var n := |chunks| - 1;
            var f := Fragment(kind, n, n + 1, chunks[n]);
            CutBack(q.cut, f, Pending(kind, n + 1, chunks));
            ChunkReceived(q, f, c);
            WriteRun(q, c);
            ReachedChunk(ReceivedSoFar(q, c), q, f, c);
        }
      } else {
        var last := p.blocks[|p.blocks| - 1];
        assert AddBlock(q, last.outcome, last.message) == p;
        BlockReceived(q, last.outcome, last.message, c);
        StageOrder(|q.blocks|);
        WriteRun(q, c);
        ReachedBlock(ReceivedSoFar(q, c), q, last.outcome, last.message, c);
      }
    }
  }

  lemma BegunReceived(c: Context)
    ensures ReceivedSoFar(BEGUN, c) == [Begin(c.id, "bind")]
    ensures ForwardedSoFar(BEGUN, c) == [Begin(c.id, "bind")]
  {
  }

  /** What `PartialOk` says about the shape of the last element. */
  lemma WriteShape(p: Partial, c: Context)
    requires PartialOk(p, c)
    ensures |p.blocks| <= |OPERATIONS|
    ensures p.cut.Some? ==> CutOk(p.cut.value)
    ensures forall piece <- p.pieces :: PieceOk(piece)
    ensures p.pieces != [] ==> PieceOk(p.pieces[|p.pieces| - 1])
  {
    hide Step, BlockOk, CutOk;
  }

  lemma CutBack(earlier: Option<Pending>, f: Body, pending: Pending)
    requires f.Fragment? && pending.chunks != []
    requires CutOk(pending) || (PieceOk(Cut(pending.kind, pending.chunks)) && pending.parts == |pending.chunks|)
    requires var n := |pending.chunks| - 1;
             && f == Fragment(pending.kind, n, pending.parts, pending.chunks[n])
             && earlier == if n == 0 then None else Some(pending.(chunks := pending.chunks[..n]))
    ensures FragmentOk(f, earlier) && AddFragment(f, earlier) == pending
  {
    var n := |pending.chunks| - 1;
    assert pending.chunks == pending.chunks[..n] + [pending.chunks[n]];
    assert pending.chunks[n] in pending.chunks;
  }

  /** The received frames of a finished request. */
  ghost predicate Spells(frames: seq<Frame>, blocks: seq<Block>, c: Context) {
    && StagesOk(blocks, c) && Terminated(blocks)
    && frames == Received(blocks, c) + [End(c.id, FrameCount(blocks), |blocks|)]
  }

  lemma IdleOk(blocks: seq<Block>, c: Context)
    requires StagesOk(blocks, c)
    ensures var p := Partial(blocks, [], None);
            && PartialOk(p, c)
            && ReceivedSoFar(p, c) == Received(blocks, c) && ForwardedSoFar(p, c) == Forwarded(blocks, c)
            && StateOf(p, c).seqno == FrameCount(blocks) && StateOf(p, c).logical == RecordCount(blocks)
  {
    hide StagesOk, Step, Received, Forwarded, FrameCount, RecordCount;
  }

  /** The main result. A run is complete exactly when its frames are the stages of
      one request in order, each stage well formed, ending at the first panic or
      after all six, with exact frame counts. */
  lemma CompleteIffSpells(frames: seq<Frame>, c: Context)
    ensures Complete(frames, c) <==> exists blocks :: Spells(frames, blocks, c)
  {
    hide StagesOk, Received, Forwarded, ReceivedSoFar, ForwardedSoFar, FrameCount, RecordCount, StateOf, PartialOk;
    if Complete(frames, c) {
      var blocks := ReadComplete(frames, c);
      assert Spells(frames, blocks, c);
    }
    if blocks :| Spells(frames, blocks, c) {
      ForwardsWholeRecords(frames, blocks, c);
    }
  }

  lemma OnlyEndEnds(s: StreamState, f: Frame, c: Context)
    requires AcceptFrame(s, f, c).Accepted?
    ensures AcceptFrame(s, f, c).value.0.ended <==> f.End?
  {
    hide Step, FragmentOk, AddFragment;
  }

  lemma ReadComplete(frames: seq<Frame>, c: Context) returns (blocks: seq<Block>)
    requires Complete(frames, c)
    ensures Spells(frames, blocks, c)
  {
    hide Received, Forwarded, FrameCount, RecordCount, BlockOk, Observe, CloseStage, Bodies, Step;
    var earlier, last := frames[..|frames| - 1], frames[|frames| - 1];
    assert frames == earlier + [last];
    RunSnoc(earlier, last, c);
    OnlyEndEnds(RunFrames(earlier, c).value.0, last, c);
    var p := ReadRun(earlier, c);
    if Terminated(p.blocks) {
      Finished(p, c);
    } else {
      WorkingState(p, c);
    }
    IdleOk(p.blocks, c);
    blocks := p.blocks;
  }

  /** What a complete run forwards: every record whole, numbered 0, 1, 2, ... over
      the request, and an end record that counts exactly those. */
  lemma ForwardsWholeRecords(frames: seq<Frame>, blocks: seq<Block>, c: Context)
    requires Spells(frames, blocks, c)
    ensures Complete(frames, c)
    ensures RunFrames(frames, c).value.1 == Forwarded(blocks, c) + [End(c.id, RecordCount(blocks), |blocks|)]
  {
    hide Received, Forwarded, FrameCount, RecordCount, BlockOk, Observe, CloseStage, Bodies, Step;
    var p := Partial(blocks, [], None);
    IdleOk(blocks, c);
    WriteRun(p, c);
    Finished(p, c);
    RunSnoc(Received(blocks, c), End(c.id, FrameCount(blocks), |blocks|), c);
  }

  /** Either all six operations ran, with three closed graphs of which the bound
      and the repeated are equal, or the run stopped at its first panic, in one
      of the three native operations, after closing every graph it reached. */
  lemma CompleteCases(frames: seq<Frame>, blocks: seq<Block>, c: Context)
    requires Spells(frames, blocks, c)
    ensures forall i | 0 <= i < |blocks| && i % 2 == 1 ::
              blocks[i].outcome.Ok? && ClosedGraph(Records(blocks[i].pieces, c), c.schema)
    ensures (|blocks| == 6 && (forall block <- blocks[..5] :: block.outcome.Ok?)
             && Records(blocks[5].pieces, c) == Records(blocks[3].pieces, c))
            || (|blocks| in {1, 3, 5} && blocks[|blocks| - 1].outcome.Panic?
                && forall block <- blocks[..|blocks| - 1] :: block.outcome.Ok?)
  {
    hide ClosedGraph, Received, FrameCount;
    forall i | 0 <= i < |blocks|
      ensures BlockOk(i, blocks[i], c) && (i % 2 == 1 <==> GraphStage(OPERATIONS[i]))
    {
      assert OPERATIONS[i] == StageAt(i);
    }
  }

  // --- fragments --------------------------------------------------------------------------

  /** The size of the last chunk: whatever the full ones leave. */
  function LastSize(n: nat): (last: nat)
    requires n > CHUNK
    ensures 0 < last <= CHUNK && (n - last) % CHUNK == 0 && n - last >= CHUNK
  {
    if n % CHUNK == 0 then CHUNK else n % CHUNK
  }

  /** The canonical cut of a payload. */
  function Chunks(payload: seq<Byte>): seq<seq<Byte>>
    requires payload != []
    decreases |payload|
  {
    if |payload| <= CHUNK then [payload]
    else
      var cut := |payload| - LastSize(|payload|);
      Chunks(payload[..cut]) + [payload[cut..]]
  }

  lemma {:induction false} ChunksFull(payload: seq<Byte>)
    requires payload != [] && |payload| % CHUNK == 0
    ensures forall chunk <- Chunks(payload) :: |chunk| == CHUNK
    decreases |payload|
  {
    if |payload| > CHUNK {
      assert LastSize(|payload|) == CHUNK;
      ChunksFull(payload[..|payload| - CHUNK]);
    }
  }

  lemma JoinSnoc(chunks: seq<seq<Byte>>, chunk: seq<Byte>)
    ensures Join(chunks + [chunk]) == Join(chunks) + chunk
  {
    assert (chunks + [chunk])[..|chunks|] == chunks;
  }

  lemma JoinOne(chunk: seq<Byte>)
    ensures Join([chunk]) == chunk
  {
    JoinSnoc([], chunk);
    assert [] + [chunk] == [chunk];
  }

  lemma {:induction false} ChunksJoin(payload: seq<Byte>)
    requires payload != []
    ensures Chunked(Chunks(payload)) && Join(Chunks(payload)) == payload
    decreases |payload|
  {
    hide Join, LastSize;
    if |payload| <= CHUNK {
      JoinOne(payload);
    } else {
      var cut := |payload| - LastSize(|payload|);
      var front, last := payload[..cut], payload[cut..];
      ChunksJoin(front);
      ChunksFull(front);
      JoinSnoc(Chunks(front), last);
      assert payload == front + last;
      forall i | 0 <= i < |Chunks(front)| ensures |Chunks(front)[i]| == CHUNK {
        assert Chunks(front)[i] in Chunks(front);
      }
    }
  }

  lemma {:induction false} JoinLength(chunks: seq<seq<Byte>>)
    requires forall chunk <- chunks :: |chunk| == CHUNK
    ensures |Join(chunks)| == CHUNK * |chunks|
  {
    if chunks != [] {
      JoinLength(chunks[..|chunks| - 1]);
      assert chunks[|chunks| - 1] in chunks;
    }
  }

  lemma LastSizeIs(n: nat, last: nat)
    requires n >= 1 && 0 < last <= CHUNK
    ensures LastSize(CHUNK * n + last) == last
  {
    if last == CHUNK {
      assert CHUNK * n + last == CHUNK * (n + 1);
    }
  }

  lemma FrontChunked(chunks: seq<seq<Byte>>)
    requires Chunked(chunks) && |chunks| > 1
    ensures var front := chunks[..|chunks| - 1]; Chunked(front) && forall chunk <- front :: |chunk| == CHUNK
  {
    var front := chunks[..|chunks| - 1];
    forall chunk <- front ensures |chunk| == CHUNK {
      var i :| 0 <= i < |front| && front[i] == chunk;
      assert |chunks[i]| == CHUNK;
    }
    assert front[|front| - 1] in front;
  }

  /** The fragments of a record are the one canonical cut of its payload: two
      accepted cuts with the same bytes are the same cut. */
  lemma {:induction false} ChunkedIsCanonical(chunks: seq<seq<Byte>>)
    requires Chunked(chunks)
    ensures Join(chunks) != [] && chunks == Chunks(Join(chunks))
    ensures CHUNK * (|chunks| - 1) < |Join(chunks)| <= CHUNK * |chunks|
  {
    hide Join, LastSize;
    var n := |chunks| - 1;
    var payload, last := Join(chunks), chunks[n];
    if n == 0 {
      assert chunks == [last];
      JoinOne(last);
    } else {
      var front := chunks[..n];
      FrontChunked(chunks);
      JoinLength(front);
      ChunkedIsCanonical(front);
      assert chunks == front + [last];
      JoinSnoc(front, last);
      LastSizeIs(n, |last|);
      assert payload[..|payload| - |last|] == Join(front) && payload[|payload| - |last|..] == last;
    }
  }
}
