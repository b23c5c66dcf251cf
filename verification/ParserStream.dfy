/** The framed stream of one direct parser request (`StreamCase` in scripts/s06_protocol.py). */
module ParserStream {
  import opened Results
  import opened PreorderTrees

  type Byte = b: int | 0 <= b < 256

  const MAX_UINT32 := 0xFFFF_FFFF
  const MAX_CHUNK := 65536

  datatype Operation = ParseOp | CodecOp | FactoryOp | PathOp | KindNamesOp | DecodeOp

  /** The request fields the stream rules read; `first` and `count` belong to `kind_names`. */
  datatype Request = Request(id: string, op: Operation, first: int, count: int)

  datatype Stage =
    | Parse | NodeIndexBefore | EncodeSourceFile | NodeIndexAfter
    | Encode | Decode | DecodedTree | Reencode
    | KindNames | PathStage | Factory | UnknownStage

  /** `stages_for`. */
  function StagesFor(request: Request): seq<Stage> {
    match request.op
    case ParseOp => [Parse, NodeIndexBefore, EncodeSourceFile, NodeIndexAfter]
    case CodecOp => [Encode, Decode, DecodedTree, Reencode]
    case DecodeOp => [Decode, DecodedTree]
    case FactoryOp => [Factory]
    case PathOp => [PathStage]
    case KindNamesOp => [KindNames]
  }

  predicate MayReturnError(stage: Stage) {
    stage.Decode? || stage.EncodeSourceFile? || stage.Encode? || stage.Reencode?
  }

  predicate IndexStage(stage: Stage) {
    stage.NodeIndexBefore? || stage.NodeIndexAfter?
  }

  predicate EncodeStage(stage: Stage) {
    stage.EncodeSourceFile? || stage.Encode? || stage.Reencode?
  }

  datatype Collection = FromParse | FromJs | FromJsDoc | FromElsewhere

  /** An observation. `detail` is the canonical text of the fields no rule reads. */
  datatype Value =
    | Identity(first: bool, second: bool)
    | Table(length: int)
    | Node(index: int, node: Option<string>)
    | AbsentLookup(detail: string)
    | SourceFile(detail: string)
    | Diagnostic(collection: Collection, index: int, detail: string, args: seq<string>)
    | ByteHeader(length: int)
    | Chunk(offset: int, data: seq<Byte>)
    | Root(node: Option<string>)
    | TreeNode(index: int, detail: string, children: int)
    | Witness(detail: string)
    | KindName(raw: int, name: string)
    | PathValue(detail: string)

  datatype Kind =
    | IdentityKind | TableKind | NodeKind | AbsentLookupKind | SourceFileKind | DiagnosticKind | ByteHeaderKind
    | ChunkKind | RootKind | TreeNodeKind | WitnessKind | KindNameKind | PathKind

  function KindOf(v: Value): Kind {
    match v
    case Identity(_, _) => IdentityKind
    case Table(_) => TableKind
    case Node(_, _) => NodeKind
    case AbsentLookup(_) => AbsentLookupKind
    case SourceFile(_) => SourceFileKind
    case Diagnostic(_, _, _, _) => DiagnosticKind
    case ByteHeader(_) => ByteHeaderKind
    case Chunk(_, _) => ChunkKind
    case Root(_) => RootKind
    case TreeNode(_, _, _) => TreeNodeKind
    case Witness(_) => WitnessKind
    case KindName(_, _) => KindNameKind
    case PathValue(_) => PathKind
  }

  predicate Allowed(stage: Stage, kind: Kind) {
    match stage
    case Parse => kind.SourceFileKind? || kind.DiagnosticKind?
    case NodeIndexBefore => kind.IdentityKind? || kind.TableKind? || kind.NodeKind? || kind.AbsentLookupKind?
    case NodeIndexAfter => kind.IdentityKind? || kind.TableKind? || kind.NodeKind? || kind.AbsentLookupKind?
    case EncodeSourceFile => kind.ByteHeaderKind? || kind.ChunkKind?
    case Encode => kind.ByteHeaderKind? || kind.ChunkKind?
    case Reencode => kind.ByteHeaderKind? || kind.ChunkKind?
    case KindNames => kind.KindNameKind?
    case PathStage => kind.PathKind?
    case Decode => kind.RootKind?
    case DecodedTree => kind.TreeNodeKind?
    case Factory => kind.WitnessKind?
    case UnknownStage => false
  }

  predicate Singular(kind: Kind) {
    kind.IdentityKind? || kind.TableKind? || kind.ByteHeaderKind? || kind.SourceFileKind?
    || kind.AbsentLookupKind? || kind.PathKind? || kind.RootKind?
  }

  datatype Outcome = Ok | Error | Panic | OtherOutcome

  /** A received frame; `BadFrame` has a wrong version, key set, JSON type, range or tag. */
  datatype Frame =
    | Begin(id: string, op: Operation)
    | End(id: string, observations: int, stages: int)
    | Observation(id: string, seqno: int, stage: Stage, value: Value)
    | StageEnd(id: string, stage: Stage, outcome: Outcome, message: seq<Byte>)
    | BadFrame

  datatype CaseState = CaseState(
    started: bool,
    ended: bool,
    stopped: bool,
    stageIndex: nat,
    ordinal: nat,
    counts: map<Kind, nat>,
    tableLength: Option<int>,
    byteLength: Option<int>,
    bytesReceived: nat,
    diagnostics: map<Collection, int>,
    treePending: nat,
    outcomes: seq<(Stage, Outcome, seq<Byte>)>)

  const FRESH: CaseState := CaseState(false, false, false, 0, 0, map[], None, None, 0, map[], 0, [])

  function Seen(counts: map<Kind, nat>, kind: Kind): nat {
    if kind in counts then counts[kind] else 0
  }

  function NextIndex(indices: map<Collection, int>, c: Collection): int {
    if c in indices then indices[c] else 0
  }

  /** The rule of one observation, after `previous` of its kind in the stage. */
  predicate ValueFits(s: CaseState, request: Request, v: Value, previous: nat) {
    match v
    case Table(length) => 1 <= length <= MAX_UINT32
    case Node(index, node) =>
      s.tableLength.Some? && index == previous < s.tableLength.value && (previous == 0 ==> node.None?)
    case ByteHeader(length) => 0 <= length <= MAX_UINT32
    case Chunk(offset, data) =>
      && s.byteLength.Some? && offset == s.bytesReceived
      && 0 < |data| <= MAX_CHUNK && s.bytesReceived + |data| <= s.byteLength.value
    case Diagnostic(collection, index, _, _) =>
      !collection.FromElsewhere? && index == NextIndex(s.diagnostics, collection)
    case KindName(raw, _) => raw == request.first + previous && previous < request.count
    case TreeNode(index, _, children) => index == previous && Owe(s.treePending, children).Accepted?
    case _ => true
  }

  predicate ObservationFits(s: CaseState, request: Request, v: Value) {
    var previous := Seen(s.counts, KindOf(v));
    (Singular(KindOf(v)) ==> previous == 0) && ValueFits(s, request, v, previous)
  }

  function Applied(s: CaseState, v: Value): CaseState {
    match v
    case Table(length) => s.(tableLength := Some(length))
    case ByteHeader(length) => s.(byteLength := Some(length))
    case Chunk(_, data) => s.(bytesReceived := s.bytesReceived + |data|)
    case Diagnostic(collection, index, _, _) => s.(diagnostics := s.diagnostics[collection := index + 1])
    case Root(node) => s.(treePending := if node.Some? then 1 else 0)
    case TreeNode(_, _, children) =>
      s.(treePending := match Owe(s.treePending, children) case Accepted(n) => n case Rejected => s.treePending)
    case _ => s
  }

  function Observed(s: CaseState, v: Value): CaseState {
    Applied(s.(counts := s.counts[KindOf(v) := Seen(s.counts, KindOf(v)) + 1], ordinal := s.ordinal + 1), v)
  }

  /** `complete_stage`: what a successful stage must have shown. */
  predicate StageComplete(s: CaseState, request: Request, stage: Stage) {
    && (stage.Parse? ==> Seen(s.counts, SourceFileKind) == 1)
    && (IndexStage(stage) ==>
          && Seen(s.counts, IdentityKind) == 1 && Seen(s.counts, TableKind) == 1
          && Seen(s.counts, AbsentLookupKind) == 1 && s.tableLength == Some(Seen(s.counts, NodeKind)))
    && (EncodeStage(stage) ==> Seen(s.counts, ByteHeaderKind) == 1 && s.byteLength == Some(s.bytesReceived))
    && (stage.KindNames? ==> Seen(s.counts, KindNameKind) == request.count)
    && (stage.PathStage? ==> Seen(s.counts, PathKind) == 1)
    && (stage.Decode? ==> Seen(s.counts, RootKind) == 1)
    && (stage.DecodedTree? ==> s.treePending == 0)
    && (stage.Factory? ==> Seen(s.counts, WitnessKind) > 0)
  }

  predicate StageAllowed(s: CaseState, request: Request, f: Frame)
    requires f.StageEnd?
  {
    && !f.outcome.OtherOutcome?
    && (f.outcome.Ok? ==> f.message == [])
    && (f.outcome.Error? ==> MayReturnError(f.stage))
    && (f.outcome.Ok? ==> StageComplete(s, request, f.stage))
  }

  function StageClosed(s: CaseState, f: Frame): CaseState
    requires f.StageEnd?
  {
    s.(outcomes := s.outcomes + [(f.stage, f.outcome, f.message)], stopped := !f.outcome.Ok?,
       stageIndex := s.stageIndex + 1, counts := map[], tableLength := None, byteLength := None,
       bytesReceived := 0, diagnostics := map[])
  }

  predicate EndAllowed(s: CaseState, request: Request, f: Frame)
    requires f.End?
  {
    && f.observations == s.ordinal && f.stages == s.stageIndex && s.counts == map[]
    && (s.stopped || s.stageIndex == |StagesFor(request)|)
  }

  /** `StreamCase.accept`. */
  function AcceptFrame(s: CaseState, f: Frame, request: Request): Verdict<CaseState> {
    if s.ended || f.BadFrame? || f.id != request.id then Rejected
    else if !s.started then
      if f.Begin? && f.op == request.op then Accepted(s.(started := true)) else Rejected
    else if f.End? then
      if EndAllowed(s, request, f) then Accepted(s.(ended := true)) else Rejected
    else if f.Begin? || s.stopped || s.stageIndex >= |StagesFor(request)| || f.stage != StagesFor(request)[s.stageIndex] then
      Rejected
    else if f.StageEnd? then
      if StageAllowed(s, request, f) then Accepted(StageClosed(s, f)) else Rejected
    else if f.seqno == s.ordinal && Allowed(f.stage, KindOf(f.value)) && ObservationFits(s, request, f.value) then
      Accepted(Observed(s, f.value))
    else Rejected
  }

  function RunFrames(frames: seq<Frame>, request: Request): Verdict<CaseState> {
    if frames == [] then Accepted(FRESH)
    else
      var before :- RunFrames(frames[..|frames| - 1], request);
      AcceptFrame(before, frames[|frames| - 1], request)
  }

  predicate Complete(frames: seq<Frame>, request: Request) {
    RunFrames(frames, request).Accepted? && RunFrames(frames, request).value.ended
  }

  // --- what a complete stream says, without the state -------------------------------

  datatype Block = Block(values: seq<Value>, outcome: Outcome, message: seq<Byte>)

  function CountKind(kind: Kind, values: seq<Value>): nat {
    if values == [] then 0
    else CountKind(kind, values[..|values| - 1]) + (if KindOf(values[|values| - 1]) == kind then 1 else 0)
  }

  function CountCollection(c: Collection, values: seq<Value>): nat {
    if values == [] then 0
    else
      var last := values[|values| - 1];
      CountCollection(c, values[..|values| - 1]) + (if last.Diagnostic? && last.collection == c then 1 else 0)
  }

  /** The bytes shown by the chunks. */
  function Bytes(values: seq<Value>): seq<Byte> {
    if values == [] then []
    else
      var last := values[|values| - 1];
      Bytes(values[..|values| - 1]) + (if last.Chunk? then last.data else [])
  }

  function TableLength(values: seq<Value>): Option<int> {
    if values == [] then None
    else
      var last := values[|values| - 1];
      if last.Table? then Some(last.length) else TableLength(values[..|values| - 1])
  }

  function ByteLength(values: seq<Value>): Option<int> {
    if values == [] then None
    else
      var last := values[|values| - 1];
      if last.ByteHeader? then Some(last.length) else ByteLength(values[..|values| - 1])
  }

  /** The child counts of the tree nodes. */
  function Arities(values: seq<Value>): seq<int> {
    if values == [] then []
    else
      var last := values[|values| - 1];
      Arities(values[..|values| - 1]) + (if last.TreeNode? then [last.children] else [])
  }

  /** Nodes owed to the tree after the values, when `owed` were owed before them. */
  function Pending(owed: nat, values: seq<Value>): Verdict<nat> {
    if values == [] then Accepted(owed)
    else
      var last := values[|values| - 1];
      var before :- Pending(owed, values[..|values| - 1]);
      match last
      case Root(node) => Accepted(if node.Some? then 1 else 0)
      case TreeNode(_, _, children) => Owe(before, children)
      case _ => Accepted(before)
  }

  /** A value in its place after `earlier` in a stage. */
  predicate Placed(v: Value, earlier: seq<Value>, stage: Stage, request: Request) {
    var previous := CountKind(KindOf(v), earlier);
    && Allowed(stage, KindOf(v))
    && (Singular(KindOf(v)) ==> previous == 0)
    && match v
       case Table(length) => 1 <= length <= MAX_UINT32
       case Node(index, node) =>
         TableLength(earlier).Some? && index == previous < TableLength(earlier).value && (previous == 0 ==> node.None?)
       case ByteHeader(length) => 0 <= length <= MAX_UINT32
       case Chunk(offset, data) =>
         && ByteLength(earlier).Some? && offset == |Bytes(earlier)|
         && 0 < |data| <= MAX_CHUNK && |Bytes(earlier)| + |data| <= ByteLength(earlier).value
       case Diagnostic(collection, index, _, _) =>
         !collection.FromElsewhere? && index == CountCollection(collection, earlier)
       case KindName(raw, _) => raw == request.first + previous && previous < request.count
       case TreeNode(index, _, _) => index == previous
       case _ => true
  }

  /** What a successful stage has shown. */
  predicate Shows(values: seq<Value>, stage: Stage, request: Request, owed: nat) {
    && (stage.Parse? ==> CountKind(SourceFileKind, values) == 1)
    && (IndexStage(stage) ==>
          && CountKind(IdentityKind, values) == 1 && CountKind(TableKind, values) == 1
          && CountKind(AbsentLookupKind, values) == 1 && TableLength(values) == Some(CountKind(NodeKind, values)))
    && (EncodeStage(stage) ==> CountKind(ByteHeaderKind, values) == 1 && ByteLength(values) == Some(|Bytes(values)|))
    && (stage.KindNames? ==> CountKind(KindNameKind, values) == request.count)
    && (stage.PathStage? ==> CountKind(PathKind, values) == 1)
    && (stage.Decode? ==> CountKind(RootKind, values) == 1)
    && (stage.DecodedTree? ==> Pending(owed, values) == Accepted(0))
    && (stage.Factory? ==> CountKind(WitnessKind, values) > 0)
  }

  predicate ValuesOk(values: seq<Value>, stage: Stage, request: Request, owed: nat) {
    && (forall i | 0 <= i < |values| :: Placed(values[i], values[..i], stage, request))
    && Pending(owed, values).Accepted?
  }

  predicate BlockOk(block: Block, stage: Stage, request: Request, owed: nat) {
    && ValuesOk(block.values, stage, request, owed)
    && !block.outcome.OtherOutcome?
    && (block.outcome.Ok? ==> block.message == [])
    && (block.outcome.Error? ==> MayReturnError(stage))
    && (block.outcome.Ok? ==> Shows(block.values, stage, request, owed))
  }

  /** Nodes owed when the stage after `blocks` begins. */
  function OwedAfter(blocks: seq<Block>): Verdict<nat> {
    if blocks == [] then Accepted(0)
    else
      var before :- OwedAfter(blocks[..|blocks| - 1]);
      Pending(before, blocks[|blocks| - 1].values)
  }

  predicate StageOk(blocks: seq<Block>, i: nat, request: Request)
    requires i < |blocks| <= |StagesFor(request)|
  {
    && OwedAfter(blocks[..i]).Accepted?
    && BlockOk(blocks[i], StagesFor(request)[i], request, OwedAfter(blocks[..i]).value)
  }

  /** Stages in order, each in good order, and all but possibly the last successful. */
  predicate StagesOk(blocks: seq<Block>, request: Request) {
    && |blocks| <= |StagesFor(request)|
    && (forall i | 0 <= i < |blocks| :: StageOk(blocks, i, request))
    && (forall i | 0 <= i < |blocks| - 1 :: blocks[i].outcome.Ok?)
  }

  predicate Terminated(blocks: seq<Block>, request: Request) {
    |blocks| == |StagesFor(request)| || (blocks != [] && !blocks[|blocks| - 1].outcome.Ok?)
  }

  function Framed(values: seq<Value>, stage: Stage, from_: nat, request: Request): (frames: seq<Frame>)
    ensures |frames| == |values|
  {
    seq(|values|, i requires 0 <= i < |values| => Observation(request.id, from_ + i, stage, values[i]))
  }

  function ValueCount(blocks: seq<Block>): nat {
    if blocks == [] then 0 else ValueCount(blocks[..|blocks| - 1]) + |blocks[|blocks| - 1].values|
  }

  /** The begin frame and the frames of the stages so far. */
  function Sent(blocks: seq<Block>, request: Request): seq<Frame>
    requires |blocks| <= |StagesFor(request)|
  {
    if blocks == [] then [Begin(request.id, request.op)]
    else
      var i := |blocks| - 1;
      var stage := StagesFor(request)[i];
      Sent(blocks[..i], request)
      + Framed(blocks[i].values, stage, ValueCount(blocks[..i]), request)
      + [StageEnd(request.id, stage, blocks[i].outcome, blocks[i].message)]
  }

  predicate Spells(frames: seq<Frame>, blocks: seq<Block>, request: Request) {
    && StagesOk(blocks, request) && Terminated(blocks, request)
    && frames == Sent(blocks, request) + [End(request.id, ValueCount(blocks), |blocks|)]
  }
}
