/** The complete parser streams, stage by stage and observation by observation
    (`stages_for` and `StreamCase` in scripts/s06_protocol.py). */
module ParserGrammar {
  import opened Results
  import opened PreorderTrees
  import opened ParserStream
  import opened ParserStreamProperties
  import opened ParserStages

  // --- the stages and what they may show --------------------------------------------------

  /** Stage `i` of an operation. */
  predicate IsStage(op: Operation, i: nat, stage: Stage) {
    match op
    case ParseOp =>
      (i == 0 && stage == Parse) || (i == 1 && stage == NodeIndexBefore) || (i == 2 && stage == EncodeSourceFile)
      || (i == 3 && stage == NodeIndexAfter)
    case CodecOp =>
      (i == 0 && stage == Encode) || (i == 1 && stage == Decode) || (i == 2 && stage == DecodedTree) || (i == 3 && stage == Reencode)
    case DecodeOp => (i == 0 && stage == Decode) || (i == 1 && stage == DecodedTree)
    case FactoryOp => i == 0 && stage == Factory
    case PathOp => i == 0 && stage == PathStage
    case KindNamesOp => i == 0 && stage == KindNames
  }

  /** How many stages an operation has. */
  function Length(op: Operation): nat {
    match op case ParseOp => 4 case CodecOp => 4 case DecodeOp => 2 case FactoryOp => 1 case PathOp => 1 case KindNamesOp => 1
  }

  predicate Is(v: Value, kind: Kind) {
    match v
    case Identity(_, _) => kind == IdentityKind
    case Table(_) => kind == TableKind
    case Node(_, _) => kind == NodeKind
    case AbsentLookup(_) => kind == AbsentLookupKind
    case SourceFile(_) => kind == SourceFileKind
    case Diagnostic(_, _, _, _) => kind == DiagnosticKind
    case ByteHeader(_) => kind == ByteHeaderKind
    case Chunk(_, _) => kind == ChunkKind
    case Root(_) => kind == RootKind
    case TreeNode(_, _, _) => kind == TreeNodeKind
    case Witness(_) => kind == WitnessKind
    case KindName(_, _) => kind == KindNameKind
    case PathValue(_) => kind == PathKind
  }

  function Count(values: seq<Value>, kind: Kind): nat {
    if values == [] then 0
    else Count(values[..|values| - 1], kind) + if Is(values[|values| - 1], kind) then 1 else 0
  }

  predicate BytesStage(stage: Stage) {
    stage in {EncodeSourceFile, Encode, Reencode}
  }

  predicate TableStage(stage: Stage) {
    stage in {NodeIndexBefore, NodeIndexAfter}
  }

  /** An observation in its stage, after the earlier ones of the stage. */
  predicate InPlace(v: Value, earlier: seq<Value>, stage: Stage, request: Request) {
    match v
    case SourceFile(_) => stage == Parse && Count(earlier, SourceFileKind) == 0
    case Diagnostic(collection, index, _, _) =>
      stage == Parse && collection in {FromParse, FromJs, FromJsDoc} && index == CountCollection(collection, earlier)
    case Identity(_, _) => TableStage(stage) && Count(earlier, IdentityKind) == 0
    case AbsentLookup(_) => TableStage(stage) && Count(earlier, AbsentLookupKind) == 0
    case Table(length) => TableStage(stage) && Count(earlier, TableKind) == 0 && 1 <= length < 0x1_0000_0000
    case Node(index, node) =>
      && TableStage(stage) && TableLength(earlier).Some? && index < TableLength(earlier).value
      && index == Count(earlier, NodeKind) && (index == 0 ==> node == None)
    case ByteHeader(length) => BytesStage(stage) && Count(earlier, ByteHeaderKind) == 0 && 0 <= length < 0x1_0000_0000
    case Chunk(offset, data) =>
      && BytesStage(stage) && ByteLength(earlier).Some? && offset + |data| <= ByteLength(earlier).value
      && offset == |Bytes(earlier)| && 1 <= |data| <= 65536
    case Root(_) => stage == Decode && Count(earlier, RootKind) == 0
    case TreeNode(index, _, _) => stage == DecodedTree && index == |earlier|
    case Witness(_) => stage == Factory
    case KindName(raw, _) => stage == KindNames && raw == request.first + |earlier| && |earlier| < request.count
    case PathValue(_) => stage == PathStage && Count(earlier, PathKind) == 0
  }

  /** What a stage that succeeds has shown in all. */
  predicate Whole(values: seq<Value>, stage: Stage, request: Request) {
    match stage
    case Parse => Count(values, SourceFileKind) == 1
    case NodeIndexBefore => WholeTable(values)
    case NodeIndexAfter => WholeTable(values)
    case EncodeSourceFile => ByteLength(values) == Some(|Bytes(values)|)
    case Encode => ByteLength(values) == Some(|Bytes(values)|)
    case Reencode => ByteLength(values) == Some(|Bytes(values)|)
    case Decode => |values| == 1
    case DecodedTree => true
    case KindNames => |values| == request.count
    case PathStage => |values| == 1
    case Factory => |values| >= 1
    case UnknownStage => true
  }

  predicate WholeTable(values: seq<Value>) {
    && Count(values, IdentityKind) == 1 && Count(values, AbsentLookupKind) == 1
    && Count(values, TableKind) == 1 && TableLength(values) == Some(Count(values, NodeKind))
  }

  /** What the tree of the stage before owes: a node under a root, nothing under nil. */
  function Roots(blocks: seq<Block>, i: nat): nat
    requires i <= |blocks|
  {
    if i > 0 && blocks[i - 1].values != [] && blocks[i - 1].values[0].Root? && blocks[i - 1].values[0].node.Some? then 1 else 0
  }

  /** Stage `i`: its observations in place, the tree paid for, and the way it ended. */
  predicate StageFits(blocks: seq<Block>, i: nat, stage: Stage, request: Request)
    requires i < |blocks|
  {
    var block := blocks[i];
    && (forall k | 0 <= k < |block.values| :: InPlace(block.values[k], block.values[..k], stage, request))
    && (stage == DecodedTree ==> Owed(Roots(blocks, i), Arities(block.values)).Accepted?)
    && match block.outcome
       case Ok =>
         && block.message == [] && Whole(block.values, stage, request)
         && (stage == DecodedTree ==> Owed(Roots(blocks, i), Arities(block.values)) == Accepted(0))
       case Error => stage in {Decode, EncodeSourceFile, Encode, Reencode}
       case Panic => true
       case OtherOutcome => false
  }

  ghost predicate StagesFit(blocks: seq<Block>, request: Request) {
    && |blocks| <= Length(request.op)
    && (forall i, stage | 0 <= i < |blocks| && IsStage(request.op, i, stage) :: StageFits(blocks, i, stage, request))
    && (forall i | 0 <= i < |blocks| - 1 :: blocks[i].outcome == Ok)
    && (|blocks| == Length(request.op) || (|blocks| > 0 && blocks[|blocks| - 1].outcome != Ok))
  }

  // --- the same as the rules -----------------------------------------------------------------

  lemma StageIs(request: Request, i: nat, stage: Stage)
    ensures |StagesFor(request)| == Length(request.op)
    ensures IsStage(request.op, i, stage) <==> i < |StagesFor(request)| && StagesFor(request)[i] == stage
  {
  }

  lemma IsKind(v: Value, kind: Kind)
    ensures Is(v, kind) <==> KindOf(v) == kind
  {
  }

  lemma {:induction false} CountIs(values: seq<Value>, kind: Kind)
    ensures Count(values, kind) == CountKind(kind, values)
  {
    hide Is, KindOf;
    if values != [] {
      CountIs(values[..|values| - 1], kind);
      IsKind(values[|values| - 1], kind);
    }
  }

  /** A stage that shows one kind only counts it by position. */
  lemma {:induction false} CountAll(values: seq<Value>, kind: Kind)
    requires forall v <- values :: Is(v, kind)
    ensures Count(values, kind) == |values|
  {
    hide Is;
    if values != [] {
      assert values[|values| - 1] in values;
      CountAll(values[..|values| - 1], kind);
    }
  }

  predicate Uniform(stage: Stage) {
    stage in {Decode, DecodedTree, KindNames, PathStage, Factory}
  }

  function KindIn(stage: Stage): Kind
    requires Uniform(stage)
  {
    match stage
    case Decode => RootKind
    case DecodedTree => TreeNodeKind
    case KindNames => KindNameKind
    case PathStage => PathKind
    case Factory => WitnessKind
  }

  lemma AllowedKind(v: Value, stage: Stage)
    requires Uniform(stage)
    ensures Allowed(stage, KindOf(v)) <==> Is(v, KindIn(stage))
  {
  }

  lemma PlaceIff(v: Value, earlier: seq<Value>, stage: Stage, request: Request)
    requires Uniform(stage) ==> forall e <- earlier :: Is(e, KindIn(stage))
    ensures Placed(v, earlier, stage, request) <==> InPlace(v, earlier, stage, request)
  {
    hide CountKind, Count, CountCollection, TableLength, ByteLength, Bytes, Is;
    CountIs(earlier, KindOf(v));
    if Uniform(stage) {
      AllowedKind(v, stage);
      CountAll(earlier, KindIn(stage));
      IsKind(v, KindIn(stage));
    }
  }

  lemma PlacedKind(v: Value, earlier: seq<Value>, stage: Stage, request: Request)
    requires Uniform(stage)
    ensures Placed(v, earlier, stage, request) ==> Is(v, KindIn(stage))
    ensures InPlace(v, earlier, stage, request) ==> Is(v, KindIn(stage))
  {
    hide CountKind, Count, CountCollection, TableLength, ByteLength, Bytes;
    AllowedKind(v, stage);
  }

  predicate AllPlaced(values: seq<Value>, stage: Stage, request: Request) {
    forall k | 0 <= k < |values| :: Placed(values[k], values[..k], stage, request)
  }

  predicate AllInPlace(values: seq<Value>, stage: Stage, request: Request) {
    forall k | 0 <= k < |values| :: InPlace(values[k], values[..k], stage, request)
  }

  lemma {:induction false} PlacesIff(values: seq<Value>, stage: Stage, request: Request)
    ensures AllPlaced(values, stage, request) <==> AllInPlace(values, stage, request)
    ensures AllPlaced(values, stage, request) && Uniform(stage) ==> forall v <- values :: Is(v, KindIn(stage))
  {
    hide Placed, InPlace, Is;
    if values != [] {
      var n := |values| - 1;
      var before := values[..n];
      PlacesIff(before, stage, request);
      assert forall k | 0 <= k < n :: before[k] == values[k] && before[..k] == values[..k];
      assert values == before + [values[n]];
      if AllPlaced(before, stage, request) {
        PlaceIff(values[n], before, stage, request);
        if Uniform(stage) {
          PlacedKind(values[n], before, stage, request);
        }
      } else {
        NotPlaced(values, stage, request);
      }
    }
  }

  lemma NotPlaced(values: seq<Value>, stage: Stage, request: Request)
    requires values != [] && !AllPlaced(values[..|values| - 1], stage, request)
    requires !AllInPlace(values[..|values| - 1], stage, request)
    ensures !AllPlaced(values, stage, request) && !AllInPlace(values, stage, request)
  {
    hide Placed, InPlace;
    var before := values[..|values| - 1];
    var k :| 0 <= k < |before| && !Placed(before[k], before[..k], stage, request);
    assert before[k] == values[k] && before[..k] == values[..k];
    var m :| 0 <= m < |before| && !InPlace(before[m], before[..m], stage, request);
    assert before[m] == values[m] && before[..m] == values[..m];
  }

  /** Only decode and decoded-tree stages touch what is owed. */
  lemma {:induction false} PendingKept(values: seq<Value>, stage: Stage, request: Request, owed: nat)
    requires AllInPlace(values, stage, request) && stage != Decode && stage != DecodedTree
    ensures Pending(owed, values) == Accepted(owed)
  {
    hide InPlace;
    if values != [] {
      var n := |values| - 1;
      assert forall k | 0 <= k < n :: values[..n][k] == values[k] && values[..n][..k] == values[..k];
      PendingKept(values[..n], stage, request, owed);
      NoTreeValue(values[n], values[..n], stage, request);
    }
  }

  lemma NoTreeValue(v: Value, earlier: seq<Value>, stage: Stage, request: Request)
    requires InPlace(v, earlier, stage, request) && stage != Decode && stage != DecodedTree
    ensures !v.Root? && !v.TreeNode?
  {
  }

  lemma DecodeFits(values: seq<Value>, request: Request, owed: nat)
    requires AllInPlace(values, Decode, request)
    ensures |values| <= 1 && (values != [] ==> values[0].Root?)
    ensures Pending(owed, values) == Accepted(if values == [] then owed else if values[0].node.Some? then 1 else 0)
  {
    hide Is;
    if |values| > 1 {
      var none, one := values[..0], values[..1];
      assert none == [] && one == [values[0]];
      SecondRoot(values[0], values[1], request);
    }
    if values != [] {
      assert InPlace(values[0], values[..0], Decode, request);
      assert values == [values[0]] && values[..0] == [];
    }
  }

  lemma SecondRoot(v: Value, w: Value, request: Request)
    ensures !(InPlace(v, [], Decode, request) && InPlace(w, [v], Decode, request))
  {
    assert [v][..0] == [];
    assert v.Root? ==> Count([v], RootKind) == 1;
  }

  lemma TreeFits(values: seq<Value>, request: Request, owed: nat)
    requires AllPlaced(values, DecodedTree, request)
    ensures Pending(owed, values) == Owed(owed, Arities(values))
  {
    hide Placed, Pending, Owed;
    PlacesIff(values, DecodedTree, request);
    assert forall v <- values :: Is(v, TreeNodeKind) && !v.Root?;
    PendingIsOwed(owed, values);
  }

  lemma WholeIff(values: seq<Value>, stage: Stage, request: Request, owed: nat)
    requires AllPlaced(values, stage, request)
    ensures Shows(values, stage, request, owed) <==>
            Whole(values, stage, request) && (stage == DecodedTree ==> Pending(owed, values) == Accepted(0))
  {
    hide CountKind, Count, TableLength, ByteLength, Bytes, Pending, Placed, Is;
    CountIs(values, SourceFileKind);
    CountIs(values, IdentityKind);
    CountIs(values, TableKind);
    CountIs(values, AbsentLookupKind);
    CountIs(values, NodeKind);
    PlacesIff(values, stage, request);
    if Uniform(stage) {
      CountAll(values, KindIn(stage));
      CountIs(values, KindIn(stage));
    }
    if BytesStage(stage) {
      HeaderOnce(values, stage, request, owed);
    }
  }

  /** Bytes announced are announced once. */
  lemma HeaderOnce(values: seq<Value>, stage: Stage, request: Request, owed: nat)
    requires AllPlaced(values, stage, request) && BytesStage(stage)
    ensures ByteLength(values).Some? ==> CountKind(ByteHeaderKind, values) == 1
  {
    hide Placed, Bytes, CountKind;
    PlacesIff(values, stage, request);
    PendingKept(values, stage, request, owed);
    if values == [] {
      assert ByteLength(values) == None;
    } else {
      EncoderPrefix(values, stage, request, owed, |values|);
      assert values[..|values|] == values;
    }
  }

  /** What is owed when stage `i` begins. */
  lemma OwedIs(blocks: seq<Block>, i: nat, request: Request)
    requires i < |blocks| <= |StagesFor(request)|
    requires OwedAfter(blocks[..i]).Accepted?
    requires i > 0 ==> blocks[i - 1].outcome.Ok? && OwedAfter(blocks[..i - 1]).Accepted?
                       && ValuesOk(blocks[i - 1].values, StagesFor(request)[i - 1], request, OwedAfter(blocks[..i - 1]).value)
                       && Shows(blocks[i - 1].values, StagesFor(request)[i - 1], request, OwedAfter(blocks[..i - 1]).value)
    ensures StagesFor(request)[i] == DecodedTree ==> OwedAfter(blocks[..i]).value == Roots(blocks, i)
  {
    hide ValuesOk, Shows, Pending;
    if StagesFor(request)[i] == DecodedTree {
      assert StagesFor(request)[i - 1] == Decode;
      OneRoot(blocks[i - 1].values, request, OwedAfter(blocks[..i - 1]).value);
      assert blocks[..i][..i - 1] == blocks[..i - 1];
    }
  }

  lemma BlockIff(blocks: seq<Block>, i: nat, request: Request, owed: nat)
    requires i < |blocks| <= |StagesFor(request)|
    requires StagesFor(request)[i] == DecodedTree ==> owed == Roots(blocks, i)
    ensures BlockOk(blocks[i], StagesFor(request)[i], request, owed) <==> StageFits(blocks, i, StagesFor(request)[i], request)
    ensures BlockOk(blocks[i], StagesFor(request)[i], request, owed) ==> Pending(owed, blocks[i].values).Accepted?
  {
    hide StagesFor, Placed, InPlace, Shows, Whole, Pending, Owed, Roots, Arities;
    var values, stage := blocks[i].values, StagesFor(request)[i];
    PlacesIff(values, stage, request);
    if AllPlaced(values, stage, request) {
      WholeIff(values, stage, request, owed);
      if stage == DecodedTree {
        TreeFits(values, request, owed);
      } else if stage == Decode {
        DecodeFits(values, request, owed);
      } else {
        PendingKept(values, stage, request, owed);
      }
    }
    ErrorStages(stage);
  }

  lemma ErrorStages(stage: Stage)
    ensures MayReturnError(stage) <==> stage in {Decode, EncodeSourceFile, Encode, Reencode}
  {
  }

  ghost predicate Prefix(blocks: seq<Block>, request: Request, n: nat)
    requires n <= |blocks| <= |StagesFor(request)|
  {
    && (forall i | 0 <= i < n :: StageOk(blocks, i, request))
    && forall i | 0 <= i < n :: i < |blocks| - 1 ==> blocks[i].outcome.Ok?
  }

  ghost predicate PrefixFits(blocks: seq<Block>, request: Request, n: nat)
    requires n <= |blocks| <= |StagesFor(request)|
  {
    && (forall i | 0 <= i < n :: StageFits(blocks, i, StagesFor(request)[i], request))
    && forall i | 0 <= i < n :: i < |blocks| - 1 ==> blocks[i].outcome.Ok?
  }

  lemma {:induction false} PrefixIff(blocks: seq<Block>, request: Request, n: nat)
    requires n <= |blocks| <= |StagesFor(request)|
    ensures Prefix(blocks, request, n) <==> PrefixFits(blocks, request, n)
    ensures Prefix(blocks, request, n) ==> OwedAfter(blocks[..n]).Accepted?
  {
    hide StagesFor, BlockOk, StageFits, Pending, Prefix, PrefixFits;
    PrefixNext(blocks, request, n);
    if n > 0 {
      var i := n - 1;
      PrefixIff(blocks, request, i);
      assert blocks[..n][..i] == blocks[..i] && blocks[..n][i] == blocks[i];
      assert OwedAfter(blocks[..n]) ==
        if OwedAfter(blocks[..i]).Rejected? then Rejected else Pending(OwedAfter(blocks[..i]).value, blocks[i].values);
      if Prefix(blocks, request, i) {
        if i > 0 {
          PrefixNext(blocks, request, i);
          BlockParts(blocks[i - 1], StagesFor(request)[i - 1], request, OwedAfter(blocks[..i - 1]).value);
        }
        OwedIs(blocks, i, request);
        BlockIff(blocks, i, request, OwedAfter(blocks[..i]).value);
      }
    } else {
      assert blocks[..n] == [];
    }
  }

  lemma PrefixNext(blocks: seq<Block>, request: Request, n: nat)
    requires n <= |blocks| <= |StagesFor(request)|
    ensures n == 0 ==> Prefix(blocks, request, n) && PrefixFits(blocks, request, n)
    ensures n > 0 ==>
              var i := n - 1;
              && (Prefix(blocks, request, n) <==>
                    Prefix(blocks, request, i) && StageOk(blocks, i, request) && (i < |blocks| - 1 ==> blocks[i].outcome.Ok?))
              && (PrefixFits(blocks, request, n) <==>
                    PrefixFits(blocks, request, i) && StageFits(blocks, i, StagesFor(request)[i], request)
                    && (i < |blocks| - 1 ==> blocks[i].outcome.Ok?))
  {
    hide StageOk, StageFits, StagesFor;
  }

  lemma BlockParts(block: Block, stage: Stage, request: Request, owed: nat)
    requires BlockOk(block, stage, request, owed)
    ensures ValuesOk(block.values, stage, request, owed)
    ensures block.outcome.Ok? ==> Shows(block.values, stage, request, owed)
  {
  }

  /** The main result. A stream is complete exactly when it is the frames of the operation's
      stages, each fitting, up to the end or the first failure, and an end with true counts. */
  lemma CompleteIffFits(frames: seq<Frame>, request: Request)
    ensures Complete(frames, request) <==>
            exists blocks :: StagesFit(blocks, request) && |blocks| <= |StagesFor(request)|
                             && frames == Sent(blocks, request) + [End(request.id, ValueCount(blocks), |blocks|)]
    ensures |StagesFor(request)| == Length(request.op)
    ensures forall i: nat, stage :: IsStage(request.op, i, stage) <==> i < |StagesFor(request)| && StagesFor(request)[i] == stage
  {
    forall i: nat, stage
      ensures |StagesFor(request)| == Length(request.op)
      ensures IsStage(request.op, i, stage) <==> i < |StagesFor(request)| && StagesFor(request)[i] == stage
    {
      StageIs(request, i, stage);
    }
    hide StagesFor, IsStage, Length, Complete, StageOk, StageFits, Sent, ValueCount;
    StageIs(request, 0, Parse);
    CompleteIffSpells(frames, request);
    forall blocks | |blocks| <= |StagesFor(request)|
      ensures StagesOk(blocks, request) && Terminated(blocks, request) <==> StagesFit(blocks, request)
    {
      FitIff(blocks, request);
    }
    if Complete(frames, request) {
      var blocks :| Spells(frames, blocks, request);
      assert StagesFit(blocks, request);
    }
    if blocks :| StagesFit(blocks, request) && |blocks| <= |StagesFor(request)|
                 && frames == Sent(blocks, request) + [End(request.id, ValueCount(blocks), |blocks|)] {
      assert Spells(frames, blocks, request);
    }
  }

  lemma FitIff(blocks: seq<Block>, request: Request)
    requires |blocks| <= |StagesFor(request)| == Length(request.op)
    requires forall i: nat, stage :: IsStage(request.op, i, stage) <==> i < |StagesFor(request)| && StagesFor(request)[i] == stage
    ensures StagesOk(blocks, request) && Terminated(blocks, request) <==> StagesFit(blocks, request)
  {
    hide StagesFor, IsStage, Length, StageOk, StageFits;
    PrefixIff(blocks, request, |blocks|);
    if StagesFit(blocks, request) {
      forall i | 0 <= i < |blocks| ensures StageFits(blocks, i, StagesFor(request)[i], request) {
        assert IsStage(request.op, i, StagesFor(request)[i]);
      }
    }
    if StagesOk(blocks, request) && Terminated(blocks, request) {
      assert Prefix(blocks, request, |blocks|);
      forall i, stage | 0 <= i < |blocks| && IsStage(request.op, i, stage) ensures StageFits(blocks, i, stage, request) {
      }
    }
  }
}
