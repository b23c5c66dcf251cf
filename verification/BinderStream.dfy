/** The framed record stream of one binder request (`Stream` in scripts/s07_binder.py):
    stage order, fragment reassembly, renumbering and terminal failure. */
module BinderStream {
  import opened Results
  import opened BinderNames
  import opened BinderGraph

  datatype Stage = ParseStage | ParsedGraph | BindStage | BoundGraph | RepeatBind | RepeatedGraph | UnknownStage

  const OPERATIONS: seq<Stage> := [ParseStage, ParsedGraph, BindStage, BoundGraph, RepeatBind, RepeatedGraph]

  predicate GraphStage(stage: Stage) {
    stage.ParsedGraph? || stage.BoundGraph? || stage.RepeatedGraph?
  }

  const CHUNK := 128 * 1024
  const MAX_PARTS := 1024

  datatype Outcome = Ok | Panic | OtherOutcome

  datatype RecordKind = SourceRecord | CountsRecord | KindRecord(kind: Domain) | UnknownRecord

  /** The payload of an observation frame. */
  datatype Body =
    | Whole(record: Record)
    | Fragment(kind: RecordKind, part: int, parts: int, payload: seq<Byte>)

  /** A received frame; `BadFrame` has a wrong version, key set, JSON type or tag. */
  datatype Frame =
    | Begin(id: string, op: string)
    | End(id: string, observations: int, stages: int)
    | Observation(id: string, seqno: int, stage: Stage, body: Body)
    | StageEnd(id: string, stage: Stage, outcome: Outcome, message: seq<Byte>)
    | BadFrame

  /** Parsing the JSON text of a reassembled record; text that does not parse, or
      does not fit its kind, gives `Malformed`, which every graph rejects. */
  type Decoder = (RecordKind, seq<Byte>) -> Record

  /** A request as the stream sees it: its identity, and the two fixed tables. */
  datatype Context = Context(id: string, schema: Schema, decode: Decoder)

  datatype Pending = Pending(kind: RecordKind, parts: int, chunks: seq<seq<Byte>>)

  datatype StreamState = StreamState(
    begun: bool,
    ended: bool,
    failed: bool,
    seqno: nat,
    stageIndex: nat,
    graph: Option<GraphState>,
    digests: map<Stage, seq<Record>>,
    outcomes: seq<(Stage, Outcome, seq<Byte>)>,
    fragment: Option<Pending>,
    logical: nat)

  const FRESH: StreamState := StreamState(false, false, false, 0, 0, None, map[], [], None, 0)

  function Join(chunks: seq<seq<Byte>>): seq<Byte> {
    if chunks == [] then [] else Join(chunks[..|chunks| - 1]) + chunks[|chunks| - 1]
  }

  /** The size and numbering rules of one fragment. */
  predicate FragmentOk(f: Body, pending: Option<Pending>)
    requires f.Fragment?
  {
    && !f.kind.UnknownRecord?
    && 2 <= f.parts <= MAX_PARTS && 0 <= f.part < f.parts
    && 0 < |f.payload| <= CHUNK
    && (f.part < f.parts - 1 ==> |f.payload| == CHUNK)
    && match pending
       case None => f.part == 0
       case Some(p) => f.kind == p.kind && f.parts == p.parts && f.part == |p.chunks|
  }

  function AddFragment(f: Body, pending: Option<Pending>): Pending
    requires f.Fragment?
  {
    match pending
    case None => Pending(f.kind, f.parts, [f.payload])
    case Some(p) => p.(chunks := p.chunks + [f.payload])
  }

  /** Handing one complete record to the stage's graph, and forwarding it renumbered. */
  ghost function Deliver(s: StreamState, stage: Stage, record: Record, c: Context): Verdict<(StreamState, Option<Frame>)>
    requires s.graph.Some?
  {
    var graph :- Step(s.graph.value, record, c.schema);
    Accepted((s.(graph := Some(graph), fragment := None, logical := s.logical + 1),
              Some(Observation(c.id, s.logical, stage, Whole(record)))))
  }

  ghost function Observe(s: StreamState, f: Frame, c: Context): Verdict<(StreamState, Option<Frame>)>
    requires f.Observation?
  {
    if f.seqno != s.seqno || !GraphStage(f.stage) then Rejected
    else
      var graph := if s.graph.None? then EMPTY else s.graph.value;
      var t := s.(seqno := s.seqno + 1, graph := Some(graph));
      match f.body
      case Whole(record) =>
        if s.fragment.Some? then Rejected else Deliver(t, f.stage, record, c)
      case Fragment(kind, _, parts, _) =>
        if !FragmentOk(f.body, s.fragment) then Rejected
        else
          var pending := AddFragment(f.body, s.fragment);
          if |pending.chunks| != parts then Accepted((t.(fragment := Some(pending)), None))
          else Deliver(t, f.stage, c.decode(kind, Join(pending.chunks)), c)
  }

  ghost function CloseStage(s: StreamState, f: Frame): Verdict<(StreamState, Option<Frame>)>
    requires f.StageEnd?
  {
    if s.fragment.Some? || f.outcome.OtherOutcome? || (f.outcome.Ok? && f.message != []) then Rejected
    else
      var closed := s.(failed := !f.outcome.Ok?, outcomes := s.outcomes + [(f.stage, f.outcome, f.message)],
                       stageIndex := s.stageIndex + 1);
      if !GraphStage(f.stage) then Accepted((closed, Some(f)))
      else if !f.outcome.Ok? || s.graph.None? || !s.graph.value.closed then Rejected
      else
        var digested := s.graph.value.digested;
        if f.stage.RepeatedGraph? && !(BoundGraph in s.digests && s.digests[BoundGraph] == digested) then Rejected
        else Accepted((closed.(graph := None, digests := s.digests[f.stage := digested]), Some(f)))
  }

  /** `Stream.accept`: the new state and the record it forwards, if any. */
  ghost function AcceptFrame(s: StreamState, f: Frame, c: Context): Verdict<(StreamState, Option<Frame>)> {
    if s.ended || f.BadFrame? || f.id != c.id then Rejected
    else if f.Begin? then
      if s.begun || f.op != "bind" then Rejected else Accepted((s.(begun := true), Some(f)))
    else if !s.begun then Rejected
    else if f.End? then
      if f.observations != s.seqno || f.stages != s.stageIndex || !(s.failed || s.stageIndex == |OPERATIONS|) then Rejected
      else Accepted((s.(ended := true), Some(f.(observations := s.logical))))
    else if s.failed || s.stageIndex >= |OPERATIONS| || f.stage != OPERATIONS[s.stageIndex] then Rejected
    else if f.Observation? then Observe(s, f, c)
    else CloseStage(s, f)
  }

  /** A whole run: the last state and everything forwarded. */
  ghost function RunFrames(frames: seq<Frame>, c: Context): Verdict<(StreamState, seq<Frame>)> {
    if frames == [] then Accepted((FRESH, []))
    else
      var before :- RunFrames(frames[..|frames| - 1], c);
      var after :- AcceptFrame(before.0, frames[|frames| - 1], c);
      Accepted((after.0, before.1 + (if after.1.Some? then [after.1.value] else [])))
  }

  ghost predicate Complete(frames: seq<Frame>, c: Context) {
    RunFrames(frames, c).Accepted? && RunFrames(frames, c).value.0.ended
  }

  // --- what a complete run says, without the state ---------------------------------

  /** One graph record as it travelled: in one frame, or cut into chunks. */
  datatype Piece = One(record: Record) | Cut(kind: RecordKind, chunks: seq<seq<Byte>>)

  datatype Block = Block(pieces: seq<Piece>, outcome: Outcome, message: seq<Byte>)

  /** Every chunk but the last is full, and the last is neither empty nor overfull. */
  predicate Chunked(chunks: seq<seq<Byte>>) {
    && |chunks| > 0
    && (forall i | 0 <= i < |chunks| - 1 :: |chunks[i]| == CHUNK)
    && 0 < |chunks[|chunks| - 1]| <= CHUNK
  }

  predicate PieceOk(piece: Piece) {
    match piece
    case One(_) => true
    case Cut(kind, chunks) => !kind.UnknownRecord? && 2 <= |chunks| <= MAX_PARTS && Chunked(chunks)
  }

  function RecordOf(piece: Piece, c: Context): Record {
    match piece
    case One(record) => record
    case Cut(kind, chunks) => c.decode(kind, Join(chunks))
  }

  function Records(pieces: seq<Piece>, c: Context): (records: seq<Record>)
    ensures |records| == |pieces|
  {
    seq(|pieces|, i requires 0 <= i < |pieces| => RecordOf(pieces[i], c))
  }

  /** The frames of a chunk sequence that announces `parts` parts. */
  function Fragments(kind: RecordKind, parts: int, chunks: seq<seq<Byte>>): (bodies: seq<Body>)
    ensures |bodies| == |chunks|
  {
    seq(|chunks|, i requires 0 <= i < |chunks| => Fragment(kind, i, parts, chunks[i]))
  }

  function PieceBodies(piece: Piece): seq<Body> {
    match piece
    case One(record) => [Whole(record)]
    case Cut(kind, chunks) => Fragments(kind, |chunks|, chunks)
  }

  function Bodies(pieces: seq<Piece>): seq<Body> {
    if pieces == [] then [] else Bodies(pieces[..|pieces| - 1]) + PieceBodies(pieces[|pieces| - 1])
  }

  function Framed(bodies: seq<Body>, stage: Stage, from_: nat, c: Context): (frames: seq<Frame>)
    ensures |frames| == |bodies|
  {
    seq(|bodies|, i requires 0 <= i < |bodies| => Observation(c.id, from_ + i, stage, bodies[i]))
  }

  /** Observation frames, and records, in a list of stages. */
  function FrameCount(blocks: seq<Block>): nat {
    if blocks == [] then 0 else FrameCount(blocks[..|blocks| - 1]) + |Bodies(blocks[|blocks| - 1].pieces)|
  }

  function RecordCount(blocks: seq<Block>): nat {
    if blocks == [] then 0 else RecordCount(blocks[..|blocks| - 1]) + |blocks[|blocks| - 1].pieces|
  }

  /** The frames of the begin record and the stages so far, as received. */
  function Received(blocks: seq<Block>, c: Context): seq<Frame>
    requires |blocks| <= |OPERATIONS|
  {
    if blocks == [] then [Begin(c.id, "bind")]
    else
      var i := |blocks| - 1;
      var earlier := blocks[..i];
      Received(earlier, c)
      + Framed(Bodies(blocks[i].pieces), OPERATIONS[i], FrameCount(earlier), c)
      + [StageEnd(c.id, OPERATIONS[i], blocks[i].outcome, blocks[i].message)]
  }

  function Wholes(records: seq<Record>): (bodies: seq<Body>)
    ensures |bodies| == |records|
  {
    seq(|records|, i requires 0 <= i < |records| => Whole(records[i]))
  }

  /** The same stages as forwarded: every record whole, numbered from 0. */
  function Forwarded(blocks: seq<Block>, c: Context): seq<Frame>
    requires |blocks| <= |OPERATIONS|
  {
    if blocks == [] then [Begin(c.id, "bind")]
    else
      var i := |blocks| - 1;
      var earlier := blocks[..i];
      Forwarded(earlier, c)
      + Framed(Wholes(Records(blocks[i].pieces, c)), OPERATIONS[i], RecordCount(earlier), c)
      + [StageEnd(c.id, OPERATIONS[i], blocks[i].outcome, blocks[i].message)]
  }

  ghost predicate BlockOk(i: nat, block: Block, c: Context)
    requires i < |OPERATIONS|
  {
    && !block.outcome.OtherOutcome?
    && (block.outcome.Ok? ==> block.message == [])
    && if GraphStage(OPERATIONS[i]) then
         && block.outcome.Ok?
         && (forall piece <- block.pieces :: PieceOk(piece))
         && ClosedGraph(Records(block.pieces, c), c.schema)
       else block.pieces == []
  }

  /** Stages in order, all but possibly the last successful, and the graph after
      the repeated bind equal to the bound graph, record for record. */
  ghost predicate StagesOk(blocks: seq<Block>, c: Context) {
    && |blocks| <= |OPERATIONS|
    && (forall i | 0 <= i < |blocks| :: BlockOk(i, blocks[i], c))
    && (forall i | 0 <= i < |blocks| - 1 :: blocks[i].outcome.Ok?)
    && (|blocks| == |OPERATIONS| ==> Records(blocks[5].pieces, c) == Records(blocks[3].pieces, c))
  }

  predicate Terminated(blocks: seq<Block>) {
    |blocks| == |OPERATIONS| || (blocks != [] && !blocks[|blocks| - 1].outcome.Ok?)
  }
}
