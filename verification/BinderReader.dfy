/** `Stream` of scripts/s07_binder.py: the object that reads one request's frames. */
module BinderReader {
  import opened Results
  import opened BinderNames
  import opened BinderGraph
  import opened BinderValidator
  import opened BinderStream
  import opened BinderStreamProperties

  class Stream {
    const context: Context
    var begun: bool
    var ended: bool
    var failed: bool
    var seqno: nat
    var stageIndex: nat
    var graph: GraphValidator?
    var digests: map<Stage, seq<Record>>
    var outcomes: seq<(Stage, Outcome, seq<Byte>)>
    var fragment: Option<Pending>
    var logical: nat

    function State(): StreamState
      reads this, graph
    {
      StreamState(begun, ended, failed, seqno, stageIndex,
                  if graph == null then None else Some(graph.State()),
                  digests, outcomes, fragment, logical)
    }

    ghost predicate Valid()
      reads this, graph
    {
      graph != null ==> graph.Valid() && graph.schema == context.schema
    }

    constructor (context: Context)
      ensures Valid() && State() == FRESH && this.context == context && graph == null
    {
      this.context := context;
      begun, ended, failed, seqno, stageIndex := false, false, false, 0, 0;
      graph, digests, outcomes, fragment, logical := null, map[], [], None, 0;
    }

    /** Hands a complete record to the stage's graph and forwards it renumbered. */
    method Deliver(record: Record, stage: Stage) returns (r: Verdict<Option<Frame>>)
      requires Valid() && graph != null
      modifies this, graph
      ensures graph == old(graph)
      ensures var want := BinderStream.Deliver(old(State()), stage, record, context);
              && (r.Accepted? <==> want.Accepted?)
              && (r.Accepted? ==> Valid() && State() == want.value.0 && r.value == want.value.1)
    {
      hide Step;
      var ok := graph.Accept(record);
      if !ok {
        return Rejected;
      }
      r := Accepted(Some(Observation(context.id, logical, stage, Whole(record))));
      fragment := None;
      logical := logical + 1;
    }

    method Observe(f: Frame) returns (r: Verdict<Option<Frame>>)
      requires Valid() && f.Observation? && f.id == context.id
      modifies this, graph
      ensures graph == old(graph) || fresh(graph)
      ensures var want := BinderStream.Observe(old(State()), f, context);
              && (r.Accepted? <==> want.Accepted?)
              && (r.Accepted? ==> Valid() && State() == want.value.0 && r.value == want.value.1)
    {
      hide Step, FragmentOk, EMPTY, AddFragment, Join, GraphStage;
      if f.seqno != seqno || !GraphStage(f.stage) {
        return Rejected;
      }
      seqno := seqno + 1;
      if graph == null {
        graph := new GraphValidator(context.schema);
      }
      match f.body {
        case Whole(record) =>
          if fragment.Some? {
            return Rejected;
          }
          r := Deliver(record, f.stage);
        case Fragment(kind, _, parts, _) =>
          if !FragmentOk(f.body, fragment) {
            return Rejected;
          }
          var pending := AddFragment(f.body, fragment);
          if |pending.chunks| != parts {
            fragment := Some(pending);
            return Accepted(None);
          }
          r := Deliver(context.decode(kind, Join(pending.chunks)), f.stage);
      }
    }

    method CloseStage(f: Frame) returns (r: Verdict<Option<Frame>>)
      requires Valid() && f.StageEnd?
      modifies this
      ensures graph == old(graph) || graph == null
      ensures var want := BinderStream.CloseStage(old(State()), f);
              && (r.Accepted? <==> want.Accepted?)
              && (r.Accepted? ==> Valid() && State() == want.value.0 && r.value == want.value.1)
    {
      if fragment.Some? || f.outcome.OtherOutcome? || (f.outcome.Ok? && f.message != []) {
        return Rejected;
      }
      if GraphStage(f.stage) {
        if !f.outcome.Ok? || graph == null || !graph.closed {
          return Rejected;
        }
        var digested := graph.digest;
        if f.stage.RepeatedGraph? && !(BoundGraph in digests && digests[BoundGraph] == digested) {
          return Rejected;
        }
        digests := digests[f.stage := digested];
        graph := null;
      }
      failed := !f.outcome.Ok?;
      outcomes := outcomes + [(f.stage, f.outcome, f.message)];
      stageIndex := stageIndex + 1;
      return Accepted(Some(f));
    }

    /** One received frame: what to forward, or a rejection, after which the
        caller abandons the object. */
    method Accept(f: Frame) returns (r: Verdict<Option<Frame>>)
      requires Valid()
      modifies this, graph
      ensures graph == old(graph) || graph == null || fresh(graph)
      ensures var want := AcceptFrame(old(State()), f, context);
              && (r.Accepted? <==> want.Accepted?)
              && (r.Accepted? ==> Valid() && State() == want.value.0 && r.value == want.value.1)
    {
      hide Step, BinderStream.Observe, BinderStream.CloseStage;
      if ended || f.BadFrame? || f.id != context.id {
        return Rejected;
      }
      if f.Begin? {
        if begun || f.op != "bind" {
          return Rejected;
        }
        begun := true;
        return Accepted(Some(f));
      }
      if !begun {
        return Rejected;
      }
      if f.End? {
        if f.observations != seqno || f.stages != stageIndex || !(failed || stageIndex == |OPERATIONS|) {
          return Rejected;
        }
        ended := true;
        return Accepted(Some(f.(observations := logical)));
      }
      if failed || stageIndex >= |OPERATIONS| || f.stage != OPERATIONS[stageIndex] {
        return Rejected;
      }
      if f.Observation? {
        r := Observe(f);
      } else {
        r := CloseStage(f);
      }
    }
  }

  /** Reading until the stream ends (`Process.observations`): the forwarded
      records, when the frames are exactly one complete run. `CompleteIffSpells`
      and `ForwardsWholeRecords` say what that means. */
  method ReadRequest(frames: seq<Frame>, context: Context) returns (r: Verdict<seq<Frame>>)
    ensures r == if Complete(frames, context) then Accepted(RunFrames(frames, context).value.1) else Rejected
  {
    hide AcceptFrame;
    var stream := new Stream(context);
    var forwarded: seq<Frame> := [];
    for i := 0 to |frames|
      invariant stream.Valid() && stream.context == context
      invariant fresh(stream) && (stream.graph != null ==> fresh(stream.graph))
      invariant RunFrames(frames[..i], context) == Accepted((stream.State(), forwarded))
    {
      assert frames[..i + 1] == frames[..i] + [frames[i]];
      RunSnoc(frames[..i], frames[i], context);
      var next := stream.Accept(frames[i]);
      if next.Rejected? {
        RunFramesStuck(frames, context, i + 1);
        return Rejected;
      }
      if next.value.Some? {
        forwarded := forwarded + [next.value.value];
      } else {
        assert forwarded + [] == forwarded;
      }
    }
    assert frames[..|frames|] == frames;
    r := if stream.ended then Accepted(forwarded) else Rejected;
  }

  lemma {:induction false} RunFramesStuck(frames: seq<Frame>, c: Context, i: nat)
    requires i <= |frames| && RunFrames(frames[..i], c).Rejected?
    ensures RunFrames(frames, c).Rejected?
  {
    hide AcceptFrame;
    if i == |frames| {
      assert frames[..i] == frames;
    } else {
      assert frames[..|frames| - 1][..i] == frames[..i];
      RunFramesStuck(frames[..|frames| - 1], c, i);
    }
  }
}
