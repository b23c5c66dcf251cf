/** The verdict on two complete streams, observation by observation (`compare_case` in
    scripts/s06_results.py with the rule of scripts/s06_diagnostics.py). */
module ParserVerdict {
  import opened Results
  import opened ParserStream
  import opened ParserStreamProperties
  import opened ParserResults
  import opened ParserComparison

  predicate FirstDiagnostic(v: Value) {
    v.Diagnostic? && v.collection == FromParse && v.index == 0
  }

  /** Both are the diagnostic the rule describes: the oracle's with one of the arguments
      it may show, the port's with the one it must show. */
  predicate Excused(rule: Rule, x: Value, y: Value) {
    var s := rule.stable;
    && s.Diagnostic? && s.args == []
    && (exists args <- rule.oracle :: x == Diagnostic(s.collection, s.index, s.detail, args))
    && y == Diagnostic(s.collection, s.index, s.detail, rule.rust)
  }

  /** Observations are equal, except for the first parse diagnostic of a request with a rule. */
  predicate Agrees(c: Context, i: nat, x: Value, y: Value) {
    if c.rule.Some? && c.request.op == ParseOp && i == 0 && (FirstDiagnostic(x) || FirstDiagnostic(y))
    then Excused(c.rule.value, x, y)
    else x == y
  }

  /** The same outcome, with the same message, or a panic of one known identity. */
  predicate EndsAlike(c: Context, stage: Stage, x: Block, y: Block) {
    match x.outcome
    case Panic =>
      && y.outcome == Panic
      && c.identity(stage, x.message, Oracle) == c.identity(stage, y.message, Rust) != None
    case _ => x.outcome == y.outcome && x.message == y.message
  }

  predicate BlocksAgree(c: Context, i: nat, x: Block, y: Block)
    requires i < |StagesFor(c.request)|
  {
    && |x.values| == |y.values|
    && (forall k | 0 <= k < |x.values| :: Agrees(c, i, x.values[k], y.values[k]))
    && EndsAlike(c, StagesFor(c.request)[i], x, y)
  }

  lemma PairIffAgrees(c: Context, i: nat, x: Value, y: Value)
    requires i < |StagesFor(c.request)|
    ensures PairMatches(c, StagesFor(c.request)[i], Some(x), Some(y)) <==> Agrees(c, i, x, y)
  {
    assert StagesFor(c.request)[i] == Parse <==> c.request.op == ParseOp && i == 0;
    if c.rule.Some? {
      ExcusedIff(c.rule.value, x, y);
    }
  }

  lemma ExcusedIff(rule: Rule, x: Value, y: Value)
    ensures RulePasses(rule, Some(x), Some(y)) <==> Excused(rule, x, y)
  {
    var s := rule.stable;
    if RulePasses(rule, Some(x), Some(y)) {
      assert x == Diagnostic(s.collection, s.index, s.detail, x.args);
    }
  }

  /** Where the two streams differ, if they do: at a stage only one reached, or one of
      whose observations or outcomes disagree. */
  predicate StageAlike(c: Context, i: nat, a: seq<Block>, b: seq<Block>)
    requires i < |StagesFor(c.request)|
  {
    if i < |a| && i < |b| then BlocksAgree(c, i, a[i], b[i]) else |a| <= i && |b| <= i
  }

  lemma AlikeIffAgree(c: Context, i: nat, a: seq<Block>, b: seq<Block>)
    requires i < |StagesFor(c.request)|
    ensures StageAlike(c, i, a, b) <==> StagesAgree(c, i, a, b)
  {
    hide StagesFor, PairMatches, Agrees;
    if i < |a| && i < |b| && |a[i].values| == |b[i].values| {
      forall k | 0 <= k < |a[i].values|
        ensures PairMatches(c, StagesFor(c.request)[i], Some(a[i].values[k]), Some(b[i].values[k])) <==>
                Agrees(c, i, a[i].values[k], b[i].values[k])
      {
        PairIffAgrees(c, i, a[i].values[k], b[i].values[k]);
      }
    }
  }

  /** The main result. A case passes exactly when both streams ended after the same stages
      and every stage shows observation for observation the same, apart from the one
      diagnostic a rule excuses, and ends alike. */
  lemma PassIffAlike(oracle: seq<Frame>, rust: seq<Frame>, a: seq<Block>, b: seq<Block>, c: Context)
    requires Spells(oracle, a, c.request) && Spells(rust, b, c.request)
    ensures Compare(c, oracle, rust).Accepted?
    ensures |a| <= |StagesFor(c.request)| && |b| <= |StagesFor(c.request)|
    ensures Compare(c, oracle, rust).value.Pass() <==>
            |a| == |b| && forall i | 0 <= i < |a| :: BlocksAgree(c, i, a[i], b[i])
  {
    hide StagesFor, StagesOk, Terminated, Compare, StagesAgree, BlocksAgree, Sent;
    PassIffStagesAgree(oracle, rust, a, b, c);
    var n := |StagesFor(c.request)|;
    SpellsBound(oracle, a, c.request);
    SpellsBound(rust, b, c.request);
    forall i | 0 <= i < n
      ensures StageAlike(c, i, a, b) <==> StagesAgree(c, i, a, b)
    {
      AlikeIffAgree(c, i, a, b);
    }
    if |a| != |b| {
      var i := if |a| < |b| then |a| else |b|;
      assert !StageAlike(c, i, a, b);
    } else {
      assert forall i | |a| <= i < n :: StageAlike(c, i, a, b);
      assert forall i | 0 <= i < |a| :: StageAlike(c, i, a, b) <==> BlocksAgree(c, i, a[i], b[i]);
    }
  }

  lemma SpellsBound(frames: seq<Frame>, blocks: seq<Block>, request: Request)
    requires Spells(frames, blocks, request)
    ensures |blocks| <= |StagesFor(request)|
  {
    hide StagesFor;
  }

  /** Without a rule, passing is being the same up to the wording of a known panic. */
  lemma PassExactly(oracle: seq<Frame>, rust: seq<Frame>, a: seq<Block>, b: seq<Block>, c: Context)
    requires Spells(oracle, a, c.request) && Spells(rust, b, c.request) && c.rule.None?
    ensures Compare(c, oracle, rust).Accepted? && |a| <= |StagesFor(c.request)|
    ensures Compare(c, oracle, rust).value.Pass() <==>
            |a| == |b| && forall i | 0 <= i < |a| ::
              a[i].values == b[i].values && EndsAlike(c, StagesFor(c.request)[i], a[i], b[i])
  {
    hide StagesFor, Compare, Spells, EndsAlike;
    PassIffAlike(oracle, rust, a, b, c);
    forall i | 0 <= i < |a| && |a| == |b|
      ensures BlocksAgree(c, i, a[i], b[i]) <==>
              a[i].values == b[i].values && EndsAlike(c, StagesFor(c.request)[i], a[i], b[i])
    {
    }
  }

  // --- the rest of the report -------------------------------------------------------------------

  /** The row of each stage says what the two streams showed in it and whether it agrees. */
  lemma RowSays(oracle: seq<Frame>, rust: seq<Frame>, a: seq<Block>, b: seq<Block>, c: Context, i: nat)
    requires Spells(oracle, a, c.request) && Spells(rust, b, c.request) && i < |StagesFor(c.request)|
    ensures Compare(c, oracle, rust).Accepted? && i < |Compare(c, oracle, rust).value.rows|
    ensures var row := Compare(c, oracle, rust).value.rows[i];
            var xs, ys := if i < |a| then a[i].values else [], if i < |b| then b[i].values else [];
            && (row.measured <==> i < |a| && i < |b|)
            && row.left == |xs| && row.right == |ys|
            && (row.observationsExact <==> xs == ys)
            && (row.observationsMatch <==> |xs| == |ys| && forall k | 0 <= k < |xs| :: Agrees(c, i, xs[k], ys[k]))
            && (row.outcomesMatch <==> i < |a| && i < |b| && EndsAlike(c, StagesFor(c.request)[i], a[i], b[i]))
            && (row.pass <==> StageAlike(c, i, a, b))
  {
    hide StagesFor, Compare, Spells, FirstFailure, Agrees, PairMatches;
    CompareIsStagewise(oracle, rust, a, b, c);
    RowPasses(c, i, a, b);
    AlikeIffAgree(c, i, a, b);
    MatchIffAgree(c, i, ValuesIn(a, i), ValuesIn(b, i));
  }

  lemma MatchIffAgree(c: Context, i: nat, xs: seq<Value>, ys: seq<Value>)
    requires i < |StagesFor(c.request)|
    ensures AllMatch(c, StagesFor(c.request)[i], xs, ys) <==>
            |xs| == |ys| && forall k | 0 <= k < |xs| :: Agrees(c, i, xs[k], ys[k])
  {
    hide StagesFor, PairMatches, Agrees;
    var stage := StagesFor(c.request)[i];
    if |xs| != |ys| {
      var k := if |xs| < |ys| then |xs| else |ys|;
      LoneNeverMatches(c, stage, if |xs| < |ys| then ys[k] else xs[k]);
      assert !PairMatches(c, stage, At(xs, k), At(ys, k));
    } else {
      forall k | 0 <= k < |xs|
        ensures PairMatches(c, stage, At(xs, k), At(ys, k)) <==> Agrees(c, i, xs[k], ys[k])
      {
        PairIffAgrees(c, i, xs[k], ys[k]);
      }
    }
  }

  /** The failure named is the first stage that does not agree; the totals are those of the streams. */
  lemma FailureIsFirst(oracle: seq<Frame>, rust: seq<Frame>, a: seq<Block>, b: seq<Block>, c: Context, i: nat)
    requires Spells(oracle, a, c.request) && Spells(rust, b, c.request) && i < |StagesFor(c.request)|
    ensures Compare(c, oracle, rust).Accepted?
    ensures !StageAlike(c, i, a, b) && (forall j | 0 <= j < i :: StageAlike(c, j, a, b)) ==>
              Compare(c, oracle, rust).value.failure == Some(StagesFor(c.request)[i])
    ensures Compare(c, oracle, rust).value.left == ValueCount(a) && Compare(c, oracle, rust).value.right == ValueCount(b)
  {
    hide StagesFor, Compare, Spells, FirstFailure, StageAlike, StagesAgree, RowOf, ValueCount;
    CompareIsStagewise(oracle, rust, a, b, c);
    var n := |StagesFor(c.request)|;
    var rows := Rows(c, a, b, n);
    forall j | 0 <= j < n
      ensures rows[j].pass <==> StageAlike(c, j, a, b)
    {
      RowPasses(c, j, a, b);
      AlikeIffAgree(c, j, a, b);
    }
    if !StageAlike(c, i, a, b) && forall j | 0 <= j < i :: StageAlike(c, j, a, b) {
      FirstIs(rows, StagesFor(c.request), i);
    }
  }

  lemma {:induction false} FirstIs(rows: seq<StageResult>, stages: seq<Stage>, i: nat)
    requires i < |rows| <= |stages| && !rows[i].pass && forall j | 0 <= j < i :: rows[j].pass
    ensures FirstFailure(rows, stages) == Some(stages[i])
  {
    var last := |rows| - 1;
    if i < last {
      FirstIs(rows[..last], stages, i);
    } else {
      FailureIffRow(rows[..last], stages);
    }
  }
}
