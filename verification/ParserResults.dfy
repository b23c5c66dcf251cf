/** The stage-aware comparison of two validated streams (`Cursor` and
    `compare_case` in scripts/s06_results.py, `compare_diagnostic` in
    scripts/s06_diagnostics.py). */
module ParserResults {
  import opened Results
  import opened ParserStream
  import opened ParserStreamProperties

  /** The approved qualification of one request's first parse diagnostic: the
      fields that must not move, the arguments either oracle variant may show,
      and the one the port must show. */
  datatype Rule = Rule(stable: Value, oracle: set<seq<string>>, rust: seq<string>)

  datatype Runtime = Oracle | Rust

  /** The classified identity of a panic message, or none for an unknown one. */
  type PanicIdentity = (Stage, seq<Byte>, Runtime) -> Option<string>

  /** What the comparison of one request depends on besides the two streams. */
  datatype Context = Context(request: Request, rule: Option<Rule>, identity: PanicIdentity)

  // --- one pair of observations ------------------------------------------------------

  predicate FirstParseDiagnostic(v: Option<Value>) {
    v.Some? && v.value.Diagnostic? && v.value.collection.FromParse? && v.value.index == 0
  }

  /** All of a diagnostic but its arguments. */
  function Stable(v: Value): Value
    requires v.Diagnostic?
  {
    v.(args := [])
  }

  predicate RuleApplies(c: Context, stage: Stage, a: Option<Value>, b: Option<Value>) {
    c.rule.Some? && stage.Parse? && (FirstParseDiagnostic(a) || FirstParseDiagnostic(b))
  }

  predicate RulePasses(rule: Rule, a: Option<Value>, b: Option<Value>) {
    && a.Some? && a.value.Diagnostic? && b.Some? && b.value.Diagnostic?
    && Stable(a.value) == rule.stable == Stable(b.value)
    && a.value.args in rule.oracle && b.value.args == rule.rust
  }

  predicate PairMatches(c: Context, stage: Stage, a: Option<Value>, b: Option<Value>) {
    if RuleApplies(c, stage, a, b) then RulePasses(c.rule.value, a, b) else a == b
  }

  // --- one stage ------------------------------------------------------------------------

  datatype StageOutcome = StageOutcome(outcome: Outcome, message: seq<Byte>)

  predicate OutcomesMatch(c: Context, stage: Stage, a: Option<StageOutcome>, b: Option<StageOutcome>) {
    && a.Some? && b.Some? && a.value.outcome == b.value.outcome
    && if a.value.outcome.Panic? then
         var left, right := c.identity(stage, a.value.message, Oracle), c.identity(stage, b.value.message, Rust);
         left.Some? && left == right
       else a.value.message == b.value.message
  }

  function At(values: seq<Value>, i: nat): Option<Value> {
    if i < |values| then Some(values[i]) else None
  }

  function Max(a: nat, b: nat): nat {
    if a < b then b else a
  }

  /** Every observation of either stream meets its counterpart. */
  predicate AllMatch(c: Context, stage: Stage, xs: seq<Value>, ys: seq<Value>) {
    forall i | 0 <= i < Max(|xs|, |ys|) :: PairMatches(c, stage, At(xs, i), At(ys, i))
  }

  datatype StageResult = StageResult(
    pass: bool, measured: bool, observationsMatch: bool, observationsExact: bool, outcomesMatch: bool,
    left: nat, right: nat)

  /** The row of the report for one stage, from what each stream showed in it. */
  function Row(c: Context, stage: Stage, xs: seq<Value>, ys: seq<Value>,
               a: Option<StageOutcome>, b: Option<StageOutcome>): StageResult
  {
    var matched := AllMatch(c, stage, xs, ys);
    var outcomes := OutcomesMatch(c, stage, a, b);
    StageResult(matched && (outcomes || (a.None? && b.None?)), a.Some? && b.Some?, matched, xs == ys, outcomes, |xs|, |ys|)
  }

  datatype Comparison = Comparison(rows: seq<StageResult>, left: nat, right: nat, failure: Option<Stage>)
  {
    predicate Pass() {
      forall row <- rows :: row.pass
    }
  }

  // --- the cursor -------------------------------------------------------------------------

  /** `Cursor.advance` as a function: the next position, if there is a next frame. */
  function Advance(records: seq<Frame>, at: nat): Verdict<nat> {
    if at + 1 < |records| then Accepted(at + 1) else Rejected
  }

  predicate HasStage(f: Frame) {
    f.Observation? || f.StageEnd?
  }

  /** The values `Cursor.observation` yields from a position until it yields none,
      and where the cursor then stands. */
  function Take(records: seq<Frame>, at: nat, stage: Stage): Verdict<(seq<Value>, nat)>
    requires at < |records|
    decreases |records| - at
  {
    var f := records[at];
    if f.End? then Accepted(([], at))
    else if !HasStage(f) then Rejected
    else if f.stage != stage || !f.Observation? then Accepted(([], at))
    else
      var next :- Advance(records, at);
      var rest :- Take(records, next, stage);
      Accepted(([f.value] + rest.0, rest.1))
  }

  class Cursor {
    const records: seq<Frame>
    var at: nat

    ghost predicate Valid()
      reads this
    {
      at < |records|
    }

    constructor (records: seq<Frame>)
      requires records != []
      ensures Valid() && this.records == records && at == 0
    {
      this.records := records;
      at := 0;
    }

    method Step() returns (ok: bool)
      requires Valid()
      modifies this
      ensures Valid()
      ensures ok <==> Advance(records, old(at)).Accepted?
      ensures at == if ok then old(at) + 1 else old(at)
    {
      ok := at + 1 < |records|;
      if ok {
        at := at + 1;
      }
    }

    /** `observation`: the next value of the stage, or none without moving. */
    method NextValue(stage: Stage) returns (r: Verdict<Option<Value>>)
      requires Valid()
      modifies this
      ensures Valid()
      ensures r.Accepted? && r.value.Some? ==>
                at == old(at) + 1 && old(records[at]).Observation? && old(records[at]).stage == stage
                && r.value.value == old(records[at]).value
      ensures r.Accepted? && r.value.None? ==>
                at == old(at) && Take(records, at, stage) == Accepted(([], at))
      ensures r.Rejected? ==> Take(records, old(at), stage).Rejected?
    {
      var f := records[at];
      if f.End? {
        return Accepted(None);
      }
      if !HasStage(f) {
        return Rejected;
      }
      if f.stage != stage || !f.Observation? {
        return Accepted(None);
      }
      var ok := Step();
      r := if ok then Accepted(Some(f.value)) else Rejected;
    }

    /** `outcome`: the stage's closing frame, or none if the stream is not in the stage. */
    method NextOutcome(stage: Stage) returns (r: Verdict<Option<StageOutcome>>)
      requires Valid()
      modifies this
      ensures Valid()
      ensures r == OutcomeAt(records, old(at), stage)
      ensures at == if r.Accepted? && r.value.Some? then old(at) + 1 else old(at)
    {
      var f := records[at];
      if f.End? {
        return Accepted(None);
      }
      if !HasStage(f) {
        return Rejected;
      }
      if f.stage != stage {
        return Accepted(None);
      }
      if !f.StageEnd? {
        return Rejected;
      }
      var ok := Step();
      r := if ok then Accepted(Some(StageOutcome(f.outcome, f.message))) else Rejected;
    }
  }

  function OutcomeAt(records: seq<Frame>, at: nat, stage: Stage): Verdict<Option<StageOutcome>>
    requires at < |records|
  {
    var f := records[at];
    if f.End? then Accepted(None)
    else if !HasStage(f) then Rejected
    else if f.stage != stage then Accepted(None)
    else if !f.StageEnd? || Advance(records, at).Rejected? then Rejected
    else Accepted(Some(StageOutcome(f.outcome, f.message)))
  }

  // --- the comparison ------------------------------------------------------------------------

  /** Both cursors through one stage: the row, and where they then stand. */
  function StageRow(c: Context, stage: Stage, oracle: seq<Frame>, rust: seq<Frame>, i: nat, j: nat)
    : (r: Verdict<(StageResult, nat, nat)>)
    requires i < |oracle| && j < |rust|
    ensures r.Accepted? ==> r.value.1 < |oracle| && r.value.2 < |rust|
  {
    var left :- Take(oracle, i, stage);
    var right :- Take(rust, j, stage);
    TakeInside(oracle, i, stage);
    TakeInside(rust, j, stage);
    var a :- OutcomeAt(oracle, left.1, stage);
    var b :- OutcomeAt(rust, right.1, stage);
    Accepted((Row(c, stage, left.0, right.0, a, b),
              if a.Some? then left.1 + 1 else left.1,
              if b.Some? then right.1 + 1 else right.1))
  }

  lemma {:induction false} TakeInside(records: seq<Frame>, at: nat, stage: Stage)
    requires at < |records|
    ensures var r := Take(records, at, stage);
            r.Accepted? ==> at <= r.value.1 < |records| && r.value.1 == at + |r.value.0|
    decreases |records| - at
  {
    if at + 1 < |records| {
      TakeInside(records, at + 1, stage);
    }
  }

  function AddRow(result: Comparison, stage: Stage, row: StageResult): Comparison {
    Comparison(result.rows + [row], result.left + row.left, result.right + row.right,
               if result.failure.Some? || row.pass then result.failure else Some(stage))
  }

  /** Both streams through the stages in order; at the end both must stand on their end frame. */
  function CompareStages(c: Context, stages: seq<Stage>, oracle: seq<Frame>, rust: seq<Frame>, i: nat, j: nat,
                         result: Comparison): Verdict<Comparison>
    requires i < |oracle| && j < |rust|
    decreases |stages|
  {
    if stages == [] then
      if oracle[i].End? && i + 1 == |oracle| && rust[j].End? && j + 1 == |rust| then Accepted(result) else Rejected
    else
      var row :- StageRow(c, stages[0], oracle, rust, i, j);
      CompareStages(c, stages[1..], oracle, rust, row.1, row.2, AddRow(result, stages[0], row.0))
  }

  const NOTHING: Comparison := Comparison([], 0, 0, None)

  predicate Opens(records: seq<Frame>) {
    |records| > 1 && records[0].Begin?
  }

  /** `compare_case`. */
  function Compare(c: Context, oracle: seq<Frame>, rust: seq<Frame>): Verdict<Comparison> {
    if !Opens(oracle) || !Opens(rust) then Rejected
    else CompareStages(c, StagesFor(c.request), oracle, rust, 1, 1, NOTHING)
  }
}
