/** What comparing two complete runs of one binder request decides (`compare` in
    scripts/s07_binder.py on two `Process.observations`). */
module BinderLockstep {
  import opened Results
  import opened BinderNames
  import opened BinderGraph
  import opened BinderStream
  import opened BinderStreamProperties
  import opened BinderReader
  import C = BinderComparison

  /** How one runtime's records are seen: the JSON value of a graph record, and the
      identity of a panic in a stage, if it has one. */
  datatype View = View(value: Record -> C.Json, identity: (Stage, seq<Byte>) -> Option<C.Json>)

  function StageName(stage: Stage): string {
    match stage
    case ParseStage => "parse"
    case ParsedGraph => "parsed_graph"
    case BindStage => "bind"
    case BoundGraph => "bound_graph"
    case RepeatBind => "repeat_bind"
    case RepeatedGraph => "repeated_graph"
    case UnknownStage => ""
  }

  function OutcomeName(outcome: Outcome): string {
    match outcome case Ok => "ok" case Panic => "panic" case OtherOutcome => ""
  }

  function KindName(record: Record): string {
    match record
    case Source(_, _, _, _, _, _, _) => "source"
    case Counts(_) => "counts"
    case Malformed => ""
    case _ => DomainName(record.Kind())
  }

  function DomainName(d: Domain): string {
    match d
    case NodeKind => "node"
    case ListKind => "list"
    case NodesKind => "nodes"
    case TextsKind => "texts"
    case SymbolKind => "symbol"
    case TableKind => "table"
    case DeclarationsKind => "declarations"
    case FlowKind => "flow"
    case FlowListKind => "flow_list"
  }

  const HEX := "0123456789abcdef"

  function Hex(bytes: seq<Byte>): string {
    if bytes == [] then "" else [HEX[bytes[0] / 16], HEX[bytes[0] % 16]] + Hex(bytes[1..])
  }

  function Entry(key: string, value: C.Json): C.Field {
    C.Field(key, value)
  }

  const VERSION := Entry("version", C.Number(1))

  /** The message of a stage end as it is compared: that of a panic is its identity. */
  function Message(stage: Stage, outcome: Outcome, message: seq<Byte>, view: View): C.Json {
    if !outcome.Panic? then C.Text(Hex(message))
    else if view.identity(stage, message).Some? then view.identity(stage, message).value
    else C.Null
  }

  /** A forwarded record as the comparison sees it. */
  function See(f: Frame, view: View): C.Seen {
    match f
    case Begin(id, op) =>
      C.Seen(C.Object([Entry("id", C.Text(id)), Entry("op", C.Text(op)), Entry("tag", C.Text("begin")), VERSION]), false, true)
    case End(id, observations, stages) =>
      C.Seen(C.Object([Entry("id", C.Text(id)), Entry("observations", C.Number(observations)),
                       Entry("stages", C.Number(stages)), Entry("tag", C.Text("end")), VERSION]), false, true)
    case Observation(id, seqno, stage, Whole(record)) =>
      C.Seen(C.Object([Entry("id", C.Text(id)), Entry("kind", C.Text(KindName(record))), Entry("seq", C.Number(seqno)),
                       Entry("stage", C.Text(StageName(stage))), Entry("tag", C.Text("observation")),
                       Entry("value", view.value(record)), VERSION]), false, true)
    case StageEnd(id, stage, outcome, message) =>
      C.Seen(C.Object([Entry("id", C.Text(id)), Entry("message_hex", Message(stage, outcome, message, view)),
                       Entry("outcome", C.Text(OutcomeName(outcome))), Entry("stage", C.Text(StageName(stage))),
                       Entry("tag", C.Text("stage")), VERSION]),
             outcome.Panic?, outcome.Panic? ==> view.identity(stage, message).Some?)
    case _ => C.Seen(C.Null, false, false)
  }

  function Sight(frames: seq<Frame>, view: View): (seen: seq<C.Seen>)
    ensures |seen| == |frames|
  {
    seq(|frames|, k requires 0 <= k < |frames| => See(frames[k], view))
  }

  /** `compare`: the report, or the error of the stream that raised one. */
  method CompareRequest(context: Context, left: View, right: View, oracle: seq<Frame>, rust: seq<Frame>)
    returns (r: Verdict<bool>)
    ensures r == if Complete(oracle, context) && Complete(rust, context) then
                   Accepted(C.InStep(Sight(RunFrames(oracle, context).value.1, left), Sight(RunFrames(rust, context).value.1, right)))
                 else Rejected
  {
    hide RunFrames, Complete, See;
    var a :- ReadRequest(oracle, context);
    var b :- ReadRequest(rust, context);
    var equal, _, _ := C.Compare(Sight(a, left), Sight(b, right));
    return Accepted(equal);
  }

  // --- when two forwarded records agree -----------------------------------------------------------------

  predicate FramesAgree(f: Frame, g: Frame, left: View, right: View) {
    C.Agree(See(f, left), See(g, right))
  }

  /** Of one kind, with values alike up to the raw form of names. */
  predicate RecordsAgree(a: Record, b: Record, left: View, right: View) {
    KindName(a) == KindName(b) && C.Alike(left.value(a), right.value(b))
  }

  /** Both succeeded, or both panicked with one known identity. */
  predicate EndsAgree(stage: Stage, a: Block, b: Block, left: View, right: View) {
    && a.outcome == b.outcome
    && (a.outcome.Panic? ==>
          left.identity(stage, a.message).Some? && left.identity(stage, a.message) == right.identity(stage, b.message))
  }

  ghost predicate BlocksAgree(stage: Stage, a: Block, b: Block, c: Context, left: View, right: View) {
    && |a.pieces| == |b.pieces|
    && (forall k | 0 <= k < |a.pieces| :: RecordsAgree(RecordOf(a.pieces[k], c), RecordOf(b.pieces[k], c), left, right))
    && EndsAgree(stage, a, b, left, right)
  }

  ghost predicate StagesAgree(a: seq<Block>, b: seq<Block>, c: Context, left: View, right: View) {
    && |a| == |b| <= |OPERATIONS|
    && forall i | 0 <= i < |a| :: BlocksAgree(OPERATIONS[i], a[i], b[i], c, left, right)
  }

  /** Of the four kinds of forwarded records, by the number of their keys. */
  function Keys(f: Frame): nat {
    match f
    case Begin(_, _) => 4
    case End(_, _, _) => 5
    case StageEnd(_, _, _, _) => 6
    case Observation(_, _, _, Whole(_)) => 7
    case _ => 0
  }

  lemma KindsDiffer(f: Frame, g: Frame, left: View, right: View)
    requires Keys(f) != 0 && Keys(g) != 0 && Keys(f) != Keys(g)
    ensures !FramesAgree(f, g, left, right)
  {
    ComparedKeys(f, left);
    ComparedKeys(g, right);
  }

  lemma ComparedKeys(f: Frame, view: View)
    requires Keys(f) != 0
    ensures C.Compared(See(f, view)).Object? && |C.Compared(See(f, view)).fields| == Keys(f)
  {
    hide C.Comparable;
    var record := See(f, view).record;
    assert record.Object? && |record.fields| == Keys(f);
    C.SameShape(record);
  }

  lemma ObservationsAgree(id: string, n: nat, m: nat, stage: Stage, a: Record, b: Record, left: View, right: View)
    ensures FramesAgree(Observation(id, n, stage, Whole(a)), Observation(id, m, stage, Whole(b)), left, right) <==>
            n == m && RecordsAgree(a, b, left, right)
  {
    hide C.Alike, C.Agree, KindName, StageName;
    var f, g := See(Observation(id, n, stage, Whole(a)), left), See(Observation(id, m, stage, Whole(b)), right);
    C.AgreeIffAlike(f, g);
    C.OthersAlike(f.record.fields, g.record.fields);
    C.ScalarsAlike(C.Text(id), C.Text(id));
    C.ScalarsAlike(C.Text(KindName(a)), C.Text(KindName(b)));
    C.ScalarsAlike(C.Number(n), C.Number(m));
    C.ScalarsAlike(C.Text(StageName(stage)), C.Text(StageName(stage)));
    C.ScalarsAlike(C.Text("observation"), C.Text("observation"));
    C.ScalarsAlike(C.Number(1), C.Number(1));
    var x, y := f.record.fields, g.record.fields;
    assert x[0].value == y[0].value && x[3].value == y[3].value && x[4].value == y[4].value && x[6].value == y[6].value;
    assert (forall k | 0 <= k < |x| :: C.Alike(x[k].value, y[k].value)) <==>
             C.Alike(x[1].value, y[1].value) && C.Alike(x[2].value, y[2].value) && C.Alike(x[5].value, y[5].value);
  }

  lemma BeginsAgree(id: string, left: View, right: View)
    ensures FramesAgree(Begin(id, "bind"), Begin(id, "bind"), left, right)
  {
  }

  lemma TerminalsAgree(id: string, n: nat, m: nat, i: nat, j: nat, left: View, right: View)
    ensures FramesAgree(End(id, n, i), End(id, m, j), left, right) <==> n == m && i == j
  {
    hide C.Alike, C.Agree;
    var f, g := See(End(id, n, i), left), See(End(id, m, j), right);
    C.AgreeIffAlike(f, g);
    C.OthersAlike(f.record.fields, g.record.fields);
    C.ScalarsAlike(C.Text(id), C.Text(id));
    C.ScalarsAlike(C.Number(n), C.Number(m));
    C.ScalarsAlike(C.Number(i), C.Number(j));
    C.ScalarsAlike(C.Text("end"), C.Text("end"));
    C.ScalarsAlike(C.Number(1), C.Number(1));
    var x, y := f.record.fields, g.record.fields;
    assert x[0].value == y[0].value && x[3].value == y[3].value && x[4].value == y[4].value;
    assert (forall k | 0 <= k < |x| :: C.Alike(x[k].value, y[k].value)) <==>
             C.Alike(x[1].value, y[1].value) && C.Alike(x[2].value, y[2].value);
  }

  lemma StageEndsAgree(id: string, i: nat, a: Block, b: Block, c: Context, left: View, right: View)
    requires i < |OPERATIONS| && BlockOk(i, a, c) && BlockOk(i, b, c)
    ensures var stage := OPERATIONS[i];
            FramesAgree(StageEnd(id, stage, a.outcome, a.message), StageEnd(id, stage, b.outcome, b.message), left, right)
            <==> EndsAgree(stage, a, b, left, right)
  {
    var stage := OPERATIONS[i];
    var f, g := See(StageEnd(id, stage, a.outcome, a.message), left), See(StageEnd(id, stage, b.outcome, b.message), right);
    var x, y := f.record.fields, g.record.fields;
    assert forall k | 0 <= k < 6 :: x[k].key == y[k].key;
    if f.panic && g.panic {
      assert forall k | 0 <= k < 6 :: k != 1 ==> x[k] == y[k];
      assert x == y <==> x[1] == y[1];
    } else if !f.panic && !g.panic {
      assert f == g;
    } else if f.panic {
      ComparedOutcome(g);
      assert x[2].value == C.Text("panic") && "panic" != "ok";
    } else {
      ComparedOutcome(f);
      assert y[2].value == C.Text("panic") && "panic" != "ok";
    }
  }

  lemma ComparedOutcome(s: C.Seen)
    requires !s.panic && s.record.Object? && |s.record.fields| == 6 && s.record.fields[2].value == C.Text("ok")
    ensures C.Compared(s).Object? && |C.Compared(s).fields| == 6 && C.Compared(s).fields[2].value == C.Text("ok")
  {
    var fields := C.Comparable(s.record).fields;
    assert fields[2] == C.Field(s.record.fields[2].key, C.Comparable(C.Text("ok")));
  }

  // --- stage by stage -----------------------------------------------------------------------------------

  ghost predicate Pairwise(x: seq<Frame>, y: seq<Frame>, left: View, right: View) {
    |x| == |y| && forall k | 0 <= k < |x| :: FramesAgree(x[k], y[k], left, right)
  }

  lemma PairwiseJoin(x: seq<Frame>, y: seq<Frame>, a: seq<Frame>, b: seq<Frame>, left: View, right: View)
    requires |a| == |b|
    ensures Pairwise(x + a, y + b, left, right) <==> Pairwise(x, y, left, right) && Pairwise(a, b, left, right)
  {
    hide FramesAgree;
    var p, q := x + a, y + b;
    if Pairwise(p, q, left, right) {
      assert forall k | 0 <= k < |x| :: p[k] == x[k] && q[k] == y[k];
      forall k | 0 <= k < |a| ensures FramesAgree(a[k], b[k], left, right) {
        assert p[|x| + k] == a[k] && q[|x| + k] == b[k];
      }
    }
  }

  lemma PairwiseOne(f: Frame, g: Frame, left: View, right: View)
    ensures Pairwise([f], [g], left, right) <==> FramesAgree(f, g, left, right)
  {
    hide FramesAgree;
    if Pairwise([f], [g], left, right) {
      assert FramesAgree([f][0], [g][0], left, right);
    }
  }

  lemma SegmentsAgree(a: seq<Record>, b: seq<Record>, stage: Stage, n: nat, m: nat, c: Context, left: View, right: View)
    requires |a| == |b|
    ensures Pairwise(Framed(Wholes(a), stage, n, c), Framed(Wholes(b), stage, m, c), left, right) <==>
            (a == [] || n == m) && forall k | 0 <= k < |a| :: RecordsAgree(a[k], b[k], left, right)
  {
    hide FramesAgree, RecordsAgree;
    var x, y := Framed(Wholes(a), stage, n, c), Framed(Wholes(b), stage, m, c);
    forall k | 0 <= k < |a|
      ensures FramesAgree(x[k], y[k], left, right) <==> n == m && RecordsAgree(a[k], b[k], left, right)
    {
      ObservationsAgree(c.id, n + k, m + k, stage, a[k], b[k], left, right);
    }
    if a != [] && Pairwise(x, y, left, right) {
      assert FramesAgree(x[0], y[0], left, right);
    }
  }

  /** Stages with different numbers of records are never in step, however the rest compares:
      where the shorter one began, the other still shows a record. */
  lemma RecordsMissing(x: seq<Frame>, y: seq<Frame>, a: seq<Frame>, b: seq<Frame>, left: View, right: View)
    requires x != [] && 0 < Keys(x[|x| - 1]) < 7 && y != [] && 0 < Keys(y[|y| - 1]) < 7
    requires (forall k | 0 <= k < |a| :: Keys(a[k]) == 7) && forall k | 0 <= k < |b| :: Keys(b[k]) == 7
    requires |a| != |b|
    ensures !Pairwise(x + a, y + b, left, right)
  {
    hide FramesAgree, Keys;
    var p, q := x + a, y + b;
    if |p| == |q| {
      var k := if |a| < |b| then |x| - 1 else |y| - 1;
      if |a| < |b| {
        assert q[k] == b[k - |y|];
      } else {
        assert p[k] == a[k - |x|];
      }
      KindsDiffer(p[k], q[k], left, right);
    }
  }

  lemma SameCounts(a: seq<Block>, b: seq<Block>)
    requires |a| == |b| && forall i | 0 <= i < |a| :: |a[i].pieces| == |b[i].pieces|
    ensures RecordCount(a) == RecordCount(b)
  {
  }

  lemma {:induction false} ForwardedAgree(a: seq<Block>, b: seq<Block>, c: Context, left: View, right: View)
    requires |a| <= |OPERATIONS| && forall i | 0 <= i < |a| :: BlockOk(i, a[i], c)
    requires |b| <= |OPERATIONS| && forall i | 0 <= i < |b| :: BlockOk(i, b[i], c)
    ensures Pairwise(Forwarded(a, c), Forwarded(b, c), left, right) <==> StagesAgree(a, b, c, left, right)
  {
    hide BlockOk, FramesAgree, BlocksAgree, Framed, RecordCount;
    if a == [] && b == [] {
      BeginsAgree(c.id, left, right);
    } else if a == [] || b == [] {
    } else {
      ForwardedAgree(a[..|a| - 1], b[..|b| - 1], c, left, right);
      LastAgree(a, b, c, left, right);
    }
  }

  function Tail(blocks: seq<Block>, c: Context): seq<Frame>
    requires 0 < |blocks| <= |OPERATIONS|
  {
    var i := |blocks| - 1;
    Framed(Wholes(Records(blocks[i].pieces, c)), OPERATIONS[i], RecordCount(blocks[..i]), c)
  }

  function Final(blocks: seq<Block>, c: Context): Frame
    requires 0 < |blocks| <= |OPERATIONS|
  {
    var i := |blocks| - 1;
    StageEnd(c.id, OPERATIONS[i], blocks[i].outcome, blocks[i].message)
  }

  lemma TailKeys(blocks: seq<Block>, c: Context)
    requires 0 < |blocks| <= |OPERATIONS|
    ensures |Tail(blocks, c)| == |blocks[|blocks| - 1].pieces|
    ensures forall k | 0 <= k < |Tail(blocks, c)| :: Keys(Tail(blocks, c)[k]) == 7
  {
  }

  lemma LastAgree(a: seq<Block>, b: seq<Block>, c: Context, left: View, right: View)
    requires 0 < |a| <= |OPERATIONS| && 0 < |b| <= |OPERATIONS|
    requires BlockOk(|a| - 1, a[|a| - 1], c) && BlockOk(|b| - 1, b[|b| - 1], c)
    requires var x, y := a[..|a| - 1], b[..|b| - 1];
             Pairwise(Forwarded(x, c), Forwarded(y, c), left, right) <==> StagesAgree(x, y, c, left, right)
    ensures Pairwise(Forwarded(a, c), Forwarded(b, c), left, right) <==> StagesAgree(a, b, c, left, right)
  {
    hide BlockOk, FramesAgree, BlocksAgree, Framed, RecordCount, Keys;
    var x, y := Forwarded(a[..|a| - 1], c), Forwarded(b[..|b| - 1], c);
    var ra, rb, ea, eb := Tail(a, c), Tail(b, c), Final(a, c), Final(b, c);
    assert Forwarded(a, c) == x + ra + [ea] && Forwarded(b, c) == y + rb + [eb];
    hide Forwarded, Tail;
    PairwiseJoin(x + ra, y + rb, [ea], [eb], left, right);
    TailKeys(a, c);
    TailKeys(b, c);
    StagesSnoc(a, b, c, left, right);
    if |ra| == |rb| {
      PairwiseJoin(x, y, ra, rb, left, right);
      if StagesAgree(a[..|a| - 1], b[..|b| - 1], c, left, right) {
        BlockAgrees(a, b, c, left, right);
      }
    } else {
      LastKeys(a[..|a| - 1], c);
      LastKeys(b[..|b| - 1], c);
      RecordsMissing(x, y, ra, rb, left, right);
      UnequalRecords(a, b, c, left, right);
    }
  }

  lemma LastKeys(blocks: seq<Block>, c: Context)
    requires |blocks| <= |OPERATIONS|
    ensures Forwarded(blocks, c) != [] && 0 < Keys(Forwarded(blocks, c)[|Forwarded(blocks, c)| - 1]) < 7
  {
    hide Framed;
  }

  lemma StagesSnoc(a: seq<Block>, b: seq<Block>, c: Context, left: View, right: View)
    requires 0 < |a| <= |OPERATIONS| && 0 < |b| <= |OPERATIONS|
    ensures var i := |a| - 1;
            StagesAgree(a, b, c, left, right) <==>
              StagesAgree(a[..i], b[..|b| - 1], c, left, right) && BlocksAgree(OPERATIONS[i], a[i], b[|b| - 1], c, left, right)
  {
    hide BlocksAgree;
    var x, y := a[..|a| - 1], b[..|b| - 1];
    assert forall i | 0 <= i < |x| :: x[i] == a[i];
    assert forall i | 0 <= i < |y| :: y[i] == b[i];
    if StagesAgree(a, b, c, left, right) {
      assert forall i | 0 <= i < |x| :: BlocksAgree(OPERATIONS[i], a[i], b[i], c, left, right);
    }
  }

  lemma UnequalRecords(a: seq<Block>, b: seq<Block>, c: Context, left: View, right: View)
    requires 0 < |a| <= |OPERATIONS| && 0 < |b| && |a[|a| - 1].pieces| != |b[|b| - 1].pieces|
    ensures !BlocksAgree(OPERATIONS[|a| - 1], a[|a| - 1], b[|b| - 1], c, left, right)
  {
  }

  /** After stages that agree, the records and the end of the next one are compared on their own. */
  lemma BlockAgrees(a: seq<Block>, b: seq<Block>, c: Context, left: View, right: View)
    requires 0 < |a| == |b| <= |OPERATIONS|
    requires BlockOk(|a| - 1, a[|a| - 1], c) && BlockOk(|b| - 1, b[|b| - 1], c)
    requires StagesAgree(a[..|a| - 1], b[..|b| - 1], c, left, right) && |Tail(a, c)| == |Tail(b, c)|
    ensures Pairwise(Tail(a, c), Tail(b, c), left, right) && Pairwise([Final(a, c)], [Final(b, c)], left, right) <==>
            BlocksAgree(OPERATIONS[|a| - 1], a[|a| - 1], b[|b| - 1], c, left, right)
  {
    hide BlockOk, FramesAgree, Framed, RecordsAgree, RecordOf, EndsAgree, RecordCount, Wholes;
    var i := |a| - 1;
    var x, y := a[..i], b[..i];
    TailKeys(a, c);
    TailKeys(b, c);
    assert forall k | 0 <= k < i :: BlocksAgree(OPERATIONS[k], x[k], y[k], c, left, right);
    SameCounts(x, y);
    SegmentsAgree(Records(a[i].pieces, c), Records(b[i].pieces, c), OPERATIONS[i], RecordCount(x), RecordCount(y), c, left, right);
    StageEndsAgree(c.id, i, a[i], b[i], c, left, right);
    PairwiseOne(Final(a, c), Final(b, c), left, right);
    assert forall k | 0 <= k < |a[i].pieces| :: Records(a[i].pieces, c)[k] == RecordOf(a[i].pieces[k], c);
    assert forall k | 0 <= k < |b[i].pieces| :: Records(b[i].pieces, c)[k] == RecordOf(b[i].pieces[k], c);
  }

  /** The main result. Two complete runs of a request are reported equal exactly when
      they ended after the same stages and each stage showed as many records on both
      sides, pairwise of one kind and alike, and ended alike: an extra, missing or
      different record in one stage is reported, whatever the other stages hold. */
  lemma EqualIffStagesAgree(oracle: seq<Frame>, rust: seq<Frame>, a: seq<Block>, b: seq<Block>, c: Context, left: View, right: View)
    requires Spells(oracle, a, c) && Spells(rust, b, c)
    ensures Complete(oracle, c) && Complete(rust, c)
    ensures C.InStep(Sight(RunFrames(oracle, c).value.1, left), Sight(RunFrames(rust, c).value.1, right)) <==>
            StagesAgree(a, b, c, left, right)
  {
    hide BlockOk, FramesAgree, BlocksAgree, Forwarded, Received, FrameCount, RunFrames, Complete, Terminated, See, RecordCount;
    ForwardsWholeRecords(oracle, a, c);
    ForwardsWholeRecords(rust, b, c);
    var x, y := Forwarded(a, c), Forwarded(b, c);
    var ea, eb := End(c.id, RecordCount(a), |a|), End(c.id, RecordCount(b), |b|);
    InStepIffPairwise(x + [ea], y + [eb], left, right);
    PairwiseJoin(x, y, [ea], [eb], left, right);
    ForwardedAgree(a, b, c, left, right);
    TerminalsAgree(c.id, RecordCount(a), RecordCount(b), |a|, |b|, left, right);
    PairwiseOne(ea, eb, left, right);
    if StagesAgree(a, b, c, left, right) {
      PiecesAgree(a, b, c, left, right);
      SameCounts(a, b);
    }
  }

  lemma PiecesAgree(a: seq<Block>, b: seq<Block>, c: Context, left: View, right: View)
    requires StagesAgree(a, b, c, left, right)
    ensures forall i | 0 <= i < |a| :: |a[i].pieces| == |b[i].pieces|
  {
    forall i | 0 <= i < |a| ensures |a[i].pieces| == |b[i].pieces| {
      assert BlocksAgree(OPERATIONS[i], a[i], b[i], c, left, right);
    }
  }

  lemma InStepIffPairwise(x: seq<Frame>, y: seq<Frame>, left: View, right: View)
    ensures C.InStep(Sight(x, left), Sight(y, right)) <==> Pairwise(x, y, left, right)
  {
    hide See, C.Agree;
    if |x| == |y| {
      assert forall k | 0 <= k < |x| :: C.Agree(Sight(x, left)[k], Sight(y, right)[k]) <==> FramesAgree(x[k], y[k], left, right);
    }
  }
}
