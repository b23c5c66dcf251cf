/** The observation stream of one scanner request (`StreamCase` and `Process.observations`
    in scripts/s05_protocol.py): one group of observations per requested action. */
module ScannerStream {
  import opened Results

  type Byte = b: int | 0 <= b < 256

  /** What the stream needs to know of an action. */
  datatype Op = ScanAll | SetText(text: seq<Byte>) | Reset | OtherOp(name: string)

  datatype Value = Value(kind: int, text: seq<Byte>, value: seq<Byte>, rest: string)

  datatype Diagnostic = Diagnostic(code: int, rest: string)

  /** The class of a panic and, for a bad literal, the text it was about. */
  datatype PanicClass = PanicClass(name: string, input: Option<seq<Byte>>)

  datatype Status = Done(value: Value) | Panic(message: string, claimed: PanicClass) | OtherStatus

  /** One observation without its place in the stream. */
  datatype Seen = Seen(status: Status, diagnostics: seq<Diagnostic>)

  datatype Observation = Observation(action: int, ordinal: int, seen: Seen)

  /** `BadFrame` has a wrong key set, JSON type or event. */
  datatype Frame =
    | Begin(id: string, version: int)
    | Observed(id: string, o: Observation)
    | End(id: string, observations: int, completed: int)
    | BadFrame

  /** A validated request, the source it starts from, the shape rules of values and
      the runtime's panic classification. */
  datatype Request = Request(
    id: string,
    actions: seq<Op>,
    source: seq<Byte>,
    valueOk: (Op, Value) -> bool,
    classify: (Op, string, seq<Byte>) -> PanicClass)

  datatype CaseState = CaseState(begun: bool, ended: bool, action: nat, ordinal: nat, actionCount: nat, panicked: bool,
                                 source: seq<Byte>, bound: nat)

  function Fresh(request: Request): CaseState {
    CaseState(false, false, 0, 0, 0, false, request.source, |request.source| + 2)
  }

  // --- one frame ---------------------------------------------------------------------------------------

  predicate StatusOk(op: Op, status: Status, source: seq<Byte>, request: Request) {
    match status
    case Done(value) => request.valueOk(op, value)
    case Panic(message, claimed) => message != "" && claimed == request.classify(op, message, source)
    case OtherStatus => false
  }

  /** Nothing more follows for this action. */
  predicate Closes(op: Op, status: Status) {
    status.Panic? || !op.ScanAll? || (status.Done? && status.value.kind == 1)
  }

  function SourceAfter(op: Op, source: seq<Byte>): seq<Byte> {
    match op
    case SetText(text) => text
    case Reset => []
    case _ => source
  }

  function Observe(s: CaseState, o: Observation, request: Request): Verdict<CaseState> {
    if s.panicked || o.action != s.action || o.ordinal != s.ordinal || s.action >= |request.actions| then Rejected
    else
      var op := request.actions[s.action];
      if !StatusOk(op, o.seen.status, s.source, request) || (op.ScanAll? && s.actionCount + 1 > s.bound) then Rejected
      else
        var panicked := o.seen.status.Panic?;
        var source := if panicked then s.source else SourceAfter(op, s.source);
        var closes := Closes(op, o.seen.status);
        Accepted(s.(ordinal := s.ordinal + 1, panicked := panicked, source := source, bound := |source| + 2,
                    action := if closes then s.action + 1 else s.action,
                    actionCount := if closes then 0 else s.actionCount + 1))
  }

  function AcceptFrame(s: CaseState, f: Frame, request: Request): Verdict<CaseState> {
    if s.ended || f.BadFrame? || f.id != request.id then Rejected
    else if !s.begun then
      if f.Begin? && f.version == 1 then Accepted(s.(begun := true)) else Rejected
    else
      match f
      case Observed(_, o) => Observe(s, o, request)
      case End(_, observations, completed) =>
        if observations != s.ordinal || completed != s.action || s.actionCount != 0
           || (!s.panicked && s.action != |request.actions|) then Rejected
        else Accepted(s.(ended := true))
      case _ => Rejected
  }

  function Run(frames: seq<Frame>, request: Request): Verdict<CaseState> {
    if frames == [] then Accepted(Fresh(request))
    else
      var s :- Run(frames[..|frames| - 1], request);
      AcceptFrame(s, frames[|frames| - 1], request)
  }

  ghost predicate Complete(frames: seq<Frame>, request: Request) {
    Run(frames, request).Accepted? && Run(frames, request).value.ended
  }

  // --- the object ----------------------------------------------------------------------------------------

  class ScannerCase {
    const request: Request
    var begun: bool
    var ended: bool
    var action: nat
    var ordinal: nat
    var actionCount: nat
    var panicked: bool
    var source: seq<Byte>
    var bound: nat

    function State(): CaseState
      reads this
    {
      CaseState(begun, ended, action, ordinal, actionCount, panicked, source, bound)
    }

    constructor (request: Request)
      ensures this.request == request && State() == Fresh(request)
    {
      this.request := request;
      begun, ended, panicked := false, false, false;
      action, ordinal, actionCount := 0, 0, 0;
      source, bound := request.source, |request.source| + 2;
    }

    method Accept(f: Frame) returns (ok: bool)
      requires bound == |source| + 2
      modifies this
      ensures ok <==> AcceptFrame(old(State()), f, request).Accepted?
      ensures ok ==> State() == AcceptFrame(old(State()), f, request).value && bound == |source| + 2
    {
      if ended || f.BadFrame? || f.id != request.id {
        return false;
      }
      if !begun {
        begun := f.Begin? && f.version == 1;
        return begun;
      }
      if f.Observed? {
        ok := ObserveOne(f.o);
        return;
      }
      if !f.End? || f.observations != ordinal || f.completed != action || actionCount != 0
         || (!panicked && action != |request.actions|) {
        return false;
      }
      ended := true;
      return true;
    }

    method ObserveOne(o: Observation) returns (ok: bool)
      requires bound == |source| + 2
      modifies this
      ensures ok <==> Observe(old(State()), o, request).Accepted?
      ensures ok ==> State() == Observe(old(State()), o, request).value && bound == |source| + 2
    {
      if panicked || o.action != action || o.ordinal != ordinal || action >= |request.actions| {
        return false;
      }
      var op := request.actions[action];
      if !StatusOk(op, o.seen.status, source, request) {
        return false;
      }
      panicked := o.seen.status.Panic?;
      ordinal := ordinal + 1;
      actionCount := actionCount + 1;
      if op.ScanAll? && actionCount > bound {
        return false;
      }
      if op.SetText? && !panicked {
        source := op.text;
        bound := |source| + 2;
      }
      if op.Reset? && !panicked {
        source := [];
        bound := 2;
      }
      if Closes(op, o.seen.status) {
        action := action + 1;
        actionCount := 0;
      }
      return true;
    }
  }

  lemma {:induction false} RunStuck(frames: seq<Frame>, request: Request, n: nat)
    requires n <= |frames| && Run(frames[..n], request).Rejected?
    ensures Run(frames, request).Rejected?
    decreases |frames|
  {
    hide AcceptFrame;
    if n < |frames| {
      assert frames[..|frames| - 1][..n] == frames[..n];
      RunStuck(frames[..|frames| - 1], request, n);
    } else {
      assert frames[..n] == frames;
    }
  }

  /** Reading one adapter's frames to their end. */
  method ReadCase(frames: seq<Frame>, request: Request) returns (ok: bool)
    ensures ok <==> Complete(frames, request)
  {
    hide AcceptFrame;
    var reader := new ScannerCase(request);
    for i := 0 to |frames|
      invariant fresh(reader) && reader.request == request && reader.bound == |reader.source| + 2
      invariant Run(frames[..i], request) == Accepted(reader.State())
    {
      assert frames[..i + 1][..i] == frames[..i];
      var accepted := reader.Accept(frames[i]);
      if !accepted {
        RunStuck(frames, request, i + 1);
        return false;
      }
    }
    assert frames[..|frames|] == frames;
    return reader.ended;
  }

  // --- what a complete stream says, without the state --------------------------------------------------------

  /** The source an action works on: that of the last text set before it. */
  function SourceAt(request: Request, i: nat): seq<Byte>
    requires i <= |request.actions|
  {
    if i == 0 then request.source else SourceAfter(request.actions[i - 1], SourceAt(request, i - 1))
  }

  /** The observations of one action: one, or for a whole scan all the tokens up
      to the end of the file and no more of them than the source has room for.
      A panic ends any action. */
  predicate GroupOk(group: seq<Seen>, request: Request, i: nat)
    requires i < |request.actions|
  {
    var op, source := request.actions[i], SourceAt(request, i);
    && group != []
    && (forall k | 0 <= k < |group| :: StatusOk(op, group[k].status, source, request))
    && (forall k | 0 <= k < |group| :: Closes(op, group[k].status) <==> k == |group| - 1)
    && (op.ScanAll? ==> |group| <= |source| + 2)
  }

  predicate Panics(group: seq<Seen>) {
    group != [] && group[|group| - 1].status.Panic?
  }

  /** A group per action, in order; only the last may panic. */
  predicate GroupsOk(groups: seq<seq<Seen>>, request: Request) {
    && |groups| <= |request.actions|
    && (forall i | 0 <= i < |groups| :: GroupOk(groups[i], request, i))
    && (forall i | 0 <= i < |groups| - 1 :: !Panics(groups[i]))
  }

  predicate Stopped(groups: seq<seq<Seen>>) {
    groups != [] && Panics(groups[|groups| - 1])
  }

  function Tagged(group: seq<Seen>, action: nat, start: nat): (obs: seq<Observation>)
    ensures |obs| == |group|
  {
    seq(|group|, k requires 0 <= k < |group| => Observation(action, start + k, group[k]))
  }

  function Flat(groups: seq<seq<Seen>>): seq<Observation> {
    if groups == [] then []
    else
      var before := Flat(groups[..|groups| - 1]);
      before + Tagged(groups[|groups| - 1], |groups| - 1, |before|)
  }

  function Frames(request: Request, obs: seq<Observation>): (frames: seq<Frame>)
    ensures |frames| == |obs|
  {
    seq(|obs|, k requires 0 <= k < |obs| => Observed(request.id, obs[k]))
  }

  ghost predicate Spells(frames: seq<Frame>, groups: seq<seq<Seen>>, request: Request) {
    && GroupsOk(groups, request)
    && (|groups| == |request.actions| || Stopped(groups))
    && frames == [Begin(request.id, 1)] + Frames(request, Flat(groups)) + [End(request.id, |Flat(groups)|, |groups|)]
  }
}
