/** `StreamCase` of scripts/s06_protocol.py: the object that checks one adapter's frames. */
module ParserCase {
  import opened Results
  import opened PreorderTrees
  import opened ParserStream
  import opened ParserStreamProperties

  class StreamCase {
    const request: Request
    const stages: seq<Stage>
    var started: bool
    var ended: bool
    var stopped: bool
    var stageIndex: nat
    var ordinal: nat
    var counts: map<Kind, nat>
    var tableLength: Option<int>
    var byteLength: Option<int>
    var bytesReceived: nat
    var diagnostics: map<Collection, int>
    var treePending: nat
    var outcomes: seq<(Stage, Outcome, seq<Byte>)>

    function State(): CaseState
      reads this
    {
      CaseState(started, ended, stopped, stageIndex, ordinal, counts, tableLength, byteLength,
                bytesReceived, diagnostics, treePending, outcomes)
    }

    ghost predicate Valid() {
      stages == StagesFor(request)
    }

    constructor (request: Request)
      ensures Valid() && State() == FRESH && this.request == request
    {
      this.request := request;
      stages := StagesFor(request);
      started, ended, stopped, stageIndex, ordinal, counts := false, false, false, 0, 0, map[];
      tableLength, byteLength, bytesReceived, diagnostics, treePending, outcomes := None, None, 0, map[], 0, [];
    }

    /** The sizes a stage announces and fills. */
    method Measure(v: Value, previous: nat) returns (ok: bool)
      requires v.Table? || v.Node? || v.ByteHeader? || v.Chunk?
      modifies this`tableLength, this`byteLength, this`bytesReceived
      ensures ok <==> ValueFits(old(State()), request, v, previous)
      ensures ok ==> State() == Applied(old(State()), v)
    {
      match v {
        case Table(length) =>
          if !(1 <= length <= MAX_UINT32) {
            return false;
          }
          tableLength := Some(length);
        case Node(index, node) =>
          if tableLength.None? || index != previous || previous >= tableLength.value || (previous == 0 && node.Some?) {
            return false;
          }
        case ByteHeader(length) =>
          if !(0 <= length <= MAX_UINT32) {
            return false;
          }
          byteLength := Some(length);
        case Chunk(offset, data) =>
          if byteLength.None? || offset != bytesReceived || data == [] || |data| > MAX_CHUNK {
            return false;
          }
          bytesReceived := bytesReceived + |data|;
          if bytesReceived > byteLength.value {
            return false;
          }
      }
      return true;
    }

    /** The numberings and the tree a stage runs through. */
    method Track(v: Value, previous: nat) returns (ok: bool)
      requires !(v.Table? || v.Node? || v.ByteHeader? || v.Chunk?)
      modifies this`diagnostics, this`treePending
      ensures ok <==> ValueFits(old(State()), request, v, previous)
      ensures ok ==> State() == Applied(old(State()), v)
    {
      match v {
        case Diagnostic(collection, index, _, _) =>
          if collection.FromElsewhere? || index != NextIndex(diagnostics, collection) {
            return false;
          }
          diagnostics := diagnostics[collection := index + 1];
        case KindName(raw, _) =>
          if raw != request.first + previous || previous >= request.count {
            return false;
          }
        case Root(node) =>
          treePending := if node.Some? then 1 else 0;
        case TreeNode(index, _, children) =>
          if index != previous || treePending < 1 || children < 0 {
            return false;
          }
          treePending := treePending + children - 1;
        case _ =>
      }
      return true;
    }

    method Observe(stage: Stage, v: Value) returns (ok: bool)
      requires Valid()
      modifies this
      ensures ok <==> Allowed(stage, KindOf(v)) && ObservationFits(old(State()), request, v)
      ensures ok ==> State() == Observed(old(State()), v)
    {
      hide Allowed, ValueFits, Applied, Singular, Seen;
      var kind := KindOf(v);
      if !Allowed(stage, kind) {
        return false;
      }
      var previous := Seen(counts, kind);
      if Singular(kind) && previous > 0 {
        return false;
      }
      ghost var before := State();
      counts, ordinal := counts[kind := previous + 1], ordinal + 1;
      FitsIgnoresCounts(before, request, v, previous);
      if v.Table? || v.Node? || v.ByteHeader? || v.Chunk? {
        ok := Measure(v, previous);
      } else {
        ok := Track(v, previous);
      }
    }

    /** `complete_stage`. */
    method CompleteStage(stage: Stage) returns (ok: bool)
      requires Valid()
      ensures ok <==> StageComplete(State(), request, stage)
    {
      if stage.Parse? && Seen(counts, SourceFileKind) != 1 {
        return false;
      }
      if IndexStage(stage) && (Seen(counts, IdentityKind) != 1 || Seen(counts, TableKind) != 1 ||
                               Seen(counts, AbsentLookupKind) != 1 || tableLength != Some(Seen(counts, NodeKind))) {
        return false;
      }
      if EncodeStage(stage) && (Seen(counts, ByteHeaderKind) != 1 || byteLength != Some(bytesReceived)) {
        return false;
      }
      if stage.KindNames? && Seen(counts, KindNameKind) != request.count {
        return false;
      }
      if (stage.PathStage? && Seen(counts, PathKind) != 1) || (stage.Decode? && Seen(counts, RootKind) != 1) {
        return false;
      }
      if stage.DecodedTree? && treePending != 0 {
        return false;
      }
      return !(stage.Factory? && Seen(counts, WitnessKind) == 0);
    }

    /** The record that ends a stage. */
    method EndStage(f: Frame) returns (ok: bool)
      requires Valid() && f.StageEnd?
      modifies this
      ensures ok <==> StageAllowed(old(State()), request, f)
      ensures ok ==> State() == StageClosed(old(State()), f)
    {
      hide StageComplete, MayReturnError;
      if f.outcome.OtherOutcome? || (f.outcome.Ok? && f.message != []) ||
         (f.outcome.Error? && !MayReturnError(f.stage)) {
        return false;
      }
      if f.outcome.Ok? {
        var complete := CompleteStage(f.stage);
        if !complete {
          return false;
        }
      }
      outcomes := outcomes + [(f.stage, f.outcome, f.message)];
      stopped := !f.outcome.Ok?;
      stageIndex := stageIndex + 1;
      counts, tableLength, byteLength, bytesReceived, diagnostics := map[], None, None, 0, map[];
      return true;
    }

    /** Consumes one frame; after a rejection the caller abandons the object. */
    method Accept(f: Frame) returns (ok: bool)
      requires Valid()
      modifies this
      ensures ok <==> AcceptFrame(old(State()), f, request).Accepted?
      ensures ok ==> State() == AcceptFrame(old(State()), f, request).value
    {
      hide Allowed, ObservationFits, StageAllowed, StageClosed, Observed, StagesFor;
      if ended || f.BadFrame? || f.id != request.id {
        return false;
      }
      if !started {
        if !f.Begin? || f.op != request.op {
          return false;
        }
        started := true;
        return true;
      }
      if f.End? {
        if f.observations != ordinal || f.stages != stageIndex || counts != map[] ||
           (!stopped && stageIndex != |stages|) {
          return false;
        }
        ended := true;
        return true;
      }
      if f.Begin? || stopped || stageIndex >= |stages| || f.stage != stages[stageIndex] {
        return false;
      }
      if f.StageEnd? {
        ok := EndStage(f);
        return;
      }
      if f.seqno != ordinal {
        return false;
      }
      ok := Observe(f.stage, f.value);
    }
  }

  lemma FitsIgnoresCounts(s: CaseState, request: Request, v: Value, previous: nat)
    ensures forall counts, ordinal ::
              ValueFits(s.(counts := counts, ordinal := ordinal), request, v, previous) == ValueFits(s, request, v, previous)
  {
  }

  /** Reading one adapter's frames for a request: valid exactly when complete,
      which `CompleteIffSpells` describes without the object. */
  method ValidateStream(frames: seq<Frame>, request: Request) returns (ok: bool)
    ensures ok <==> Complete(frames, request)
  {
    hide AcceptFrame;
    var case_ := new StreamCase(request);
    for i := 0 to |frames|
      invariant case_.Valid() && case_.request == request && fresh(case_)
      invariant RunFrames(frames[..i], request) == Accepted(case_.State())
    {
      assert frames[..i + 1] == frames[..i] + [frames[i]];
      RunSnoc(frames[..i], frames[i], request);
      var accepted := case_.Accept(frames[i]);
      if !accepted {
        RunStuck(frames, request, i + 1);
        return false;
      }
    }
    assert frames[..|frames|] == frames;
    return case_.ended;
  }

  lemma {:induction false} RunStuck(frames: seq<Frame>, request: Request, i: nat)
    requires i <= |frames| && RunFrames(frames[..i], request).Rejected?
    ensures RunFrames(frames, request).Rejected?
  {
    hide AcceptFrame;
    if i == |frames| {
      assert frames[..i] == frames;
    } else {
      assert frames[..|frames| - 1][..i] == frames[..i];
      RunStuck(frames[..|frames| - 1], request, i);
    }
  }
}
