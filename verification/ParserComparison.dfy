/** `compare_case` as the program runs it, and what its verdict means for two
    complete streams of one request. */
module ParserComparison {
  import opened Results
  import opened ParserStream
  import opened ParserStreamProperties
  import opened ParserResults

  // --- the loops ------------------------------------------------------------------------

  /** What has been read of a stage: `seen` so far, the rest still ahead. */
  ghost predicate Reading(records: seq<Frame>, start: nat, at: nat, stage: Stage, seen: seq<Value>)
    requires start < |records| && at < |records|
  {
    Take(records, start, stage) ==
    if Take(records, at, stage).Rejected? then Rejected
    else Accepted((seen + Take(records, at, stage).value.0, Take(records, at, stage).value.1))
  }

  lemma ReadOne(records: seq<Frame>, start: nat, at: nat, stage: Stage, seen: seq<Value>)
    requires start < |records| && at + 1 < |records|
    requires Reading(records, start, at, stage, seen)
    requires records[at].Observation? && records[at].stage == stage
    ensures Reading(records, start, at + 1, stage, seen + [records[at].value])
  {
    if Take(records, at + 1, stage).Accepted? {
      var rest := Take(records, at + 1, stage).value.0;
      assert seen + ([records[at].value] + rest) == (seen + [records[at].value]) + rest;
    }
  }

  lemma ReadNone(records: seq<Frame>, at: nat, stage: Stage)
    requires at < |records|
    ensures Reading(records, at, at, stage, [])
  {
    if Take(records, at, stage).Accepted? {
      var rest := Take(records, at, stage).value.0;
      assert [] + rest == rest;
    }
  }

  /** The pairs read so far: both streams padded with nothing once they run out. */
  ghost predicate PairsMatch(c: Context, stage: Stage, xs: seq<Value>, ys: seq<Value>, n: nat) {
    forall i: nat | i < n :: PairMatches(c, stage, At(xs, i), At(ys, i))
  }

  ghost predicate PairsEqual(xs: seq<Value>, ys: seq<Value>, n: nat) {
    forall i: nat | i < n :: At(xs, i) == At(ys, i)
  }

  function Push(xs: seq<Value>, a: Option<Value>): seq<Value> {
    if a.Some? then xs + [a.value] else xs
  }

  lemma PushAt(xs: seq<Value>, a: Option<Value>, n: nat)
    requires |xs| <= n && (a.Some? ==> |xs| == n)
    ensures forall i: nat | i < n :: At(Push(xs, a), i) == At(xs, i)
    ensures At(Push(xs, a), n) == a
  {
  }

  lemma PairsGrow(c: Context, stage: Stage, xs: seq<Value>, ys: seq<Value>, n: nat, a: Option<Value>, b: Option<Value>)
    requires |xs| <= n && |ys| <= n
    requires (a.Some? ==> |xs| == n) && (b.Some? ==> |ys| == n)
    ensures PairsMatch(c, stage, Push(xs, a), Push(ys, b), n + 1)
       <==> PairsMatch(c, stage, xs, ys, n) && PairMatches(c, stage, a, b)
    ensures PairsEqual(Push(xs, a), Push(ys, b), n + 1) <==> PairsEqual(xs, ys, n) && a == b
  {
    hide PairMatches, Push, At;
    PushAt(xs, a, n);
    PushAt(ys, b, n);
    var xs', ys' := Push(xs, a), Push(ys, b);
    if PairsEqual(xs', ys', n + 1) {
      assert At(xs', n) == At(ys', n);
      forall i: nat | i < n ensures At(xs, i) == At(ys, i) {
        assert At(xs', i) == At(ys', i);
      }
    }
    if PairsMatch(c, stage, xs', ys', n + 1) {
      assert PairMatches(c, stage, At(xs', n), At(ys', n));
      forall i: nat | i < n ensures PairMatches(c, stage, At(xs, i), At(ys, i)) {
        assert PairMatches(c, stage, At(xs', i), At(ys', i));
      }
    }
  }

  lemma PairsEqualIsEquality(xs: seq<Value>, ys: seq<Value>)
    ensures PairsEqual(xs, ys, Max(|xs|, |ys|)) <==> xs == ys
  {
    var n := Max(|xs|, |ys|);
    if PairsEqual(xs, ys, n) {
      if n > 0 {
        assert At(xs, n - 1) == At(ys, n - 1);
      }
      assert |xs| == |ys|;
      forall i: nat | i < n ensures xs[i] == ys[i] {
        assert At(xs, i) == At(ys, i);
      }
    }
  }

  /** The loop over one stage's observations: both cursors run to the end of the
      stage, and each pair is compared as it is read. */
  method ReadPairs(c: Context, stage: Stage, left: Cursor, right: Cursor)
    returns (r: Verdict<(bool, bool, nat, nat)>, ghost xs: seq<Value>, ghost ys: seq<Value>)
    requires left.Valid() && right.Valid() && left != right
    modifies left, right
    ensures left.Valid() && right.Valid()
    ensures r.Rejected? ==> Take(left.records, old(left.at), stage).Rejected? || Take(right.records, old(right.at), stage).Rejected?
    ensures r.Accepted? ==>
              && Take(left.records, old(left.at), stage) == Accepted((xs, left.at))
              && Take(right.records, old(right.at), stage) == Accepted((ys, right.at))
              && r.value == (AllMatch(c, stage, xs, ys), xs == ys, |xs|, |ys|)
  {
    hide PairMatches, PairsMatch, PairsEqual, Take, AllMatch, Reading;
    ghost var i, j := left.at, right.at;
    xs, ys := [], [];
    ghost var n := 0;
    var count, other := 0, 0;
    var matched, exact := true, true;
    StartPairs(c, stage);
    ReadNone(left.records, i, stage);
    ReadNone(right.records, j, stage);
    while true
      invariant left.Valid() && right.Valid()
      invariant Reading(left.records, i, left.at, stage, xs) && Reading(right.records, j, right.at, stage, ys)
      invariant n == Max(|xs|, |ys|)
      invariant |xs| < n ==> Take(left.records, left.at, stage) == Accepted(([], left.at))
      invariant |ys| < n ==> Take(right.records, right.at, stage) == Accepted(([], right.at))
      invariant matched == PairsMatch(c, stage, xs, ys, n)
      invariant exact == PairsEqual(xs, ys, n)
      invariant count == |xs| && other == |ys|
      decreases |left.records| - left.at + |right.records| - right.at
    {
      TakeEnds(left.records, left.at, stage);
      TakeEnds(right.records, right.at, stage);
      ReadEnd(left.records, i, left.at, stage, xs);
      ReadEnd(right.records, j, right.at, stage, ys);
      var v := left.NextValue(stage);
      if v.Rejected? {
        return Rejected, xs, ys;
      }
      var w := right.NextValue(stage);
      if w.Rejected? {
        return Rejected, xs, ys;
      }
      if v.value.None? && w.value.None? {
        break;
      }
      PairsGrow(c, stage, xs, ys, n, v.value, w.value);
      if v.value.Some? {
        ReadOne(left.records, i, left.at - 1, stage, xs);
        count := count + 1;
      }
      if w.value.Some? {
        ReadOne(right.records, j, right.at - 1, stage, ys);
        other := other + 1;
      }
      xs, ys, n := Push(xs, v.value), Push(ys, w.value), n + 1;
      exact := exact && v.value == w.value;
      matched := matched && PairMatches(c, stage, v.value, w.value);
    }
    PairsEqualIsEquality(xs, ys);
    AllPairs(c, stage, xs, ys);
    r := Accepted((matched, exact, count, other));
  }

  /** When the rest gives nothing more, what has been read is all. */
  lemma ReadEnd(records: seq<Frame>, start: nat, at: nat, stage: Stage, seen: seq<Value>)
    requires start < |records| && at < |records| && Reading(records, start, at, stage, seen)
    ensures Take(records, at, stage).Rejected? ==> Take(records, start, stage).Rejected?
    ensures Take(records, at, stage) == Accepted(([], at)) ==> Take(records, start, stage) == Accepted((seen, at))
  {
    hide Take;
    assert seen + [] == seen;
  }

  /** A cursor on a value of the stage has not reached the end of it. */
  lemma TakeEnds(records: seq<Frame>, at: nat, stage: Stage)
    requires at < |records|
    ensures records[at].Observation? && records[at].stage == stage ==> Take(records, at, stage) != Accepted(([], at))
  {
  }

  method CompareStage(c: Context, stage: Stage, left: Cursor, right: Cursor) returns (r: Verdict<StageResult>)
    requires left.Valid() && right.Valid() && left != right
    modifies left, right
    ensures left.Valid() && right.Valid()
    ensures var want := StageRow(c, stage, left.records, right.records, old(left.at), old(right.at));
            if want.Rejected? then r.Rejected?
            else r == Accepted(want.value.0) && left.at == want.value.1 && right.at == want.value.2
  {
    hide OutcomesMatch, Take, AllMatch, OutcomeAt;
    ghost var want := StageRow(c, stage, left.records, right.records, left.at, right.at);
    var pairs, xs, ys := ReadPairs(c, stage, left, right);
    if pairs.Rejected? {
      assert want.Rejected?;
      return Rejected;
    }
    var (matched, exact, count, other) := pairs.value;
    var a := left.NextOutcome(stage);
    if a.Rejected? {
      return Rejected;
    }
    var b := right.NextOutcome(stage);
    if b.Rejected? {
      return Rejected;
    }
    var outcomes := OutcomesMatch(c, stage, a.value, b.value);
    r := Accepted(StageResult(matched && (outcomes || (a.value.None? && b.value.None?)), a.value.Some? && b.value.Some?,
                              matched, exact, outcomes, count, other));
  }

  lemma StartPairs(c: Context, stage: Stage)
    ensures PairsMatch(c, stage, [], [], 0) && PairsEqual([], [], 0)
  {
  }

  lemma AllPairs(c: Context, stage: Stage, xs: seq<Value>, ys: seq<Value>)
    ensures PairsMatch(c, stage, xs, ys, Max(|xs|, |ys|)) == AllMatch(c, stage, xs, ys)
  {
    hide PairMatches;
  }

  method CompareCase(c: Context, oracle: seq<Frame>, rust: seq<Frame>) returns (r: Verdict<Comparison>)
    ensures r == Compare(c, oracle, rust)
  {
    hide StageRow;
    if !Opens(oracle) || !Opens(rust) {
      return Rejected;
    }
    var left := new Cursor(oracle);
    var right := new Cursor(rust);
    var l := left.Step();
    var m := right.Step();
    var stages := StagesFor(c.request);
    var result := NOTHING;
    for k := 0 to |stages|
      invariant left.Valid() && right.Valid() && fresh(left) && fresh(right) && left != right
      invariant left.records == oracle && right.records == rust
      invariant CompareStages(c, stages[k..], oracle, rust, left.at, right.at, result) == Compare(c, oracle, rust)
    {
      assert stages[k..][0] == stages[k] && stages[k..][1..] == stages[k + 1..];
      var row := CompareStage(c, stages[k], left, right);
      if row.Rejected? {
        return Rejected;
      }
      result := AddRow(result, stages[k], row.value);
    }
    if oracle[left.at].End? && left.at + 1 == |oracle| && rust[right.at].End? && right.at + 1 == |rust| {
      return Accepted(result);
    }
    return Rejected;
  }

  // --- what the verdict means --------------------------------------------------------------

  function ValuesIn(blocks: seq<Block>, i: nat): seq<Value> {
    if i < |blocks| then blocks[i].values else []
  }

  function OutcomeIn(blocks: seq<Block>, i: nat): Option<StageOutcome> {
    if i < |blocks| then Some(StageOutcome(blocks[i].outcome, blocks[i].message)) else None
  }

  /** The position of the first frame of stage `i`, or of the end frame. */
  function StartOf(blocks: seq<Block>, i: nat): nat
    requires i <= |blocks|
  {
    1 + ValueCount(blocks[..i]) + i
  }

  lemma {:induction false} SentLength(blocks: seq<Block>, request: Request)
    requires |blocks| <= |StagesFor(request)|
    ensures |Sent(blocks, request)| == 1 + ValueCount(blocks) + |blocks|
  {
    hide StagesFor;
    if blocks != [] {
      SentLength(blocks[..|blocks| - 1], request);
    }
  }

  /** The values of a stage at their place in the stream, and its closing frame. */
  predicate StandsAt(frames: seq<Frame>, start: nat, stage: Stage, block: Block, request: Request) {
    var end := start + |block.values|;
    && end < |frames|
    && (forall k | start <= k < end ::
          frames[k].Observation? && frames[k].stage == stage && frames[k].value == block.values[k - start])
    && frames[end] == StageEnd(request.id, stage, block.outcome, block.message)
  }

  /** Where the frames of one stage stand in the stream. */
  lemma {:induction false} StageFrames(blocks: seq<Block>, i: nat, request: Request)
    requires i < |blocks| <= |StagesFor(request)|
    ensures StandsAt(Sent(blocks, request), StartOf(blocks, i), StagesFor(request)[i], blocks[i], request)
    ensures StartOf(blocks, i + 1) == StartOf(blocks, i) + |blocks[i].values| + 1
  {
    hide StagesFor, StandsAt, Framed;
    var last := |blocks| - 1;
    var earlier := blocks[..last];
    assert blocks[..i + 1][..i] == blocks[..i];
    if i < last {
      StageFrames(earlier, i, request);
      assert earlier[..i] == blocks[..i];
      assert Sent(earlier, request) <= Sent(blocks, request);
      StandsOn(Sent(earlier, request), Sent(blocks, request), StartOf(blocks, i), StagesFor(request)[i], blocks[i], request);
    } else {
      assert blocks[..i] == earlier;
      SentLength(earlier, request);
      StandsLast(Sent(earlier, request), ValueCount(earlier), StagesFor(request)[i], blocks[i], request);
    }
  }

  lemma StandsOn(frames: seq<Frame>, longer: seq<Frame>, start: nat, stage: Stage, block: Block, request: Request)
    requires StandsAt(frames, start, stage, block, request) && frames <= longer
    ensures StandsAt(longer, start, stage, block, request)
  {
  }

  lemma StandsLast(before: seq<Frame>, ordinal: nat, stage: Stage, block: Block, request: Request)
    ensures StandsAt(before + Framed(block.values, stage, ordinal, request)
                     + [StageEnd(request.id, stage, block.outcome, block.message)], |before|, stage, block, request)
  {
  }

  lemma {:induction false} TakeRun(records: seq<Frame>, at: nat, stage: Stage, values: seq<Value>)
    requires at + |values| < |records|
    requires forall k | at <= k < at + |values| ::
               records[k].Observation? && records[k].stage == stage && records[k].value == values[k - at]
    requires records[at + |values|].End? || records[at + |values|].StageEnd?
    ensures Take(records, at, stage) == Accepted((values, at + |values|))
    decreases |values|
  {
    if values != [] {
      assert records[at].value == values[0];
      TakeRun(records, at + 1, stage, values[1..]);
      assert values == [values[0]] + values[1..];
    }
  }

  /** The position a stream is in when the comparison starts stage `i`. */
  function Standing(blocks: seq<Block>, i: nat): nat {
    StartOf(blocks, if i < |blocks| then i else |blocks|)
  }

  /** One stage of a spelled stream, as the cursor sees it. */
  lemma StageRead(frames: seq<Frame>, blocks: seq<Block>, i: nat, c: Context)
    requires Spells(frames, blocks, c.request) && i < |StagesFor(c.request)|
    ensures var start, n, stage := Standing(blocks, i), |ValuesIn(blocks, i)|, StagesFor(c.request)[i];
            && start + n < |frames|
            && Take(frames, start, stage) == Accepted((ValuesIn(blocks, i), start + n))
            && OutcomeAt(frames, start + n, stage) == Accepted(OutcomeIn(blocks, i))
            && Standing(blocks, i + 1) == start + n + (if OutcomeIn(blocks, i).Some? then 1 else 0)
  {
    hide StagesFor, StageOk, Sent;
    SentLength(blocks, c.request);
    assert blocks[..|blocks|] == blocks;
    var start := Standing(blocks, i);
    if i < |blocks| {
      StageFrames(blocks, i, c.request);
      assert StandsAt(frames, start, StagesFor(c.request)[i], blocks[i], c.request);
      TakeRun(frames, start, StagesFor(c.request)[i], blocks[i].values);
    } else {
      TakeRun(frames, start, StagesFor(c.request)[i], []);
    }
  }

  /** The row of stage `i`: independent of every other stage of either stream. */
  function RowOf(c: Context, i: nat, a: seq<Block>, b: seq<Block>): StageResult
    requires i < |StagesFor(c.request)|
  {
    Row(c, StagesFor(c.request)[i], ValuesIn(a, i), ValuesIn(b, i), OutcomeIn(a, i), OutcomeIn(b, i))
  }

  function Rows(c: Context, a: seq<Block>, b: seq<Block>, n: nat): (rows: seq<StageResult>)
    requires n <= |StagesFor(c.request)|
    ensures |rows| == n
  {
    seq(n, i requires 0 <= i < n => RowOf(c, i, a, b))
  }

  /** The first stage whose row does not pass. */
  function FirstFailure(rows: seq<StageResult>, stages: seq<Stage>): Option<Stage>
    requires |rows| <= |stages|
  {
    if rows == [] then None
    else
      var earlier := FirstFailure(rows[..|rows| - 1], stages);
      if earlier.Some? || rows[|rows| - 1].pass then earlier else Some(stages[|rows| - 1])
  }

  /** The report after the first `k` stages. */
  function Partway(c: Context, a: seq<Block>, b: seq<Block>, k: nat): Comparison
    requires k <= |StagesFor(c.request)|
  {
    var rows := Rows(c, a, b, k);
    Comparison(rows, ValueCount(a[..if k < |a| then k else |a|]), ValueCount(b[..if k < |b| then k else |b|]),
               FirstFailure(rows, StagesFor(c.request)))
  }

  lemma StageRowIs(oracle: seq<Frame>, rust: seq<Frame>, a: seq<Block>, b: seq<Block>, c: Context, k: nat)
    requires Spells(oracle, a, c.request) && Spells(rust, b, c.request) && k < |StagesFor(c.request)|
    ensures Standing(a, k) < |oracle| && Standing(b, k) < |rust|
    ensures StageRow(c, StagesFor(c.request)[k], oracle, rust, Standing(a, k), Standing(b, k))
            == Accepted((RowOf(c, k, a, b), Standing(a, k + 1), Standing(b, k + 1)))
  {
    hide StagesFor, StageOk, Sent, Row, Take, OutcomeAt, Standing, Spells, ValuesIn, OutcomeIn;
    StageRead(oracle, a, k, c);
    StageRead(rust, b, k, c);
  }

  lemma PartwayNext(c: Context, a: seq<Block>, b: seq<Block>, k: nat)
    requires k < |StagesFor(c.request)|
    ensures AddRow(Partway(c, a, b, k), StagesFor(c.request)[k], RowOf(c, k, a, b)) == Partway(c, a, b, k + 1)
  {
    hide StagesFor, RowOf, ValueCount;
    var row := RowOf(c, k, a, b);
    assert Rows(c, a, b, k + 1) == Rows(c, a, b, k) + [row];
    assert Rows(c, a, b, k + 1)[..k] == Rows(c, a, b, k);
    RowCounts(c, k, a, b);
    CountNext(a, k);
    CountNext(b, k);
  }

  lemma {:induction false} ResumeCompare(oracle: seq<Frame>, rust: seq<Frame>, a: seq<Block>, b: seq<Block>, c: Context,
                                         k: nat)
    requires Spells(oracle, a, c.request) && Spells(rust, b, c.request)
    requires k <= |StagesFor(c.request)|
    ensures Standing(a, k) < |oracle| && Standing(b, k) < |rust|
    ensures CompareStages(c, StagesFor(c.request)[k..], oracle, rust, Standing(a, k), Standing(b, k), Partway(c, a, b, k))
            == Accepted(Partway(c, a, b, |StagesFor(c.request)|))
    decreases |StagesFor(c.request)| - k
  {
    hide StagesFor, StageOk, Sent, StageRow, AddRow, Partway, Standing, RowOf, Spells;
    var stages := StagesFor(c.request);
    if k == |stages| {
      EndRead(oracle, a, c);
      EndRead(rust, b, c);
      assert stages[k..] == [];
    } else {
      StageRowIs(oracle, rust, a, b, c, k);
      PartwayNext(c, a, b, k);
      ResumeCompare(oracle, rust, a, b, c, k + 1);
      assert stages[k..][0] == stages[k] && stages[k..][1..] == stages[k + 1..];
    }
  }

  lemma EndRead(frames: seq<Frame>, blocks: seq<Block>, c: Context)
    requires Spells(frames, blocks, c.request)
    ensures Standing(blocks, |StagesFor(c.request)|) == |frames| - 1 && frames[|frames| - 1].End?
  {
    hide StagesFor, StageOk, Sent;
    SentLength(blocks, c.request);
    assert blocks[..|blocks|] == blocks;
  }

  lemma RowCounts(c: Context, i: nat, a: seq<Block>, b: seq<Block>)
    requires i < |StagesFor(c.request)|
    ensures RowOf(c, i, a, b).left == |ValuesIn(a, i)| && RowOf(c, i, a, b).right == |ValuesIn(b, i)|
  {
    hide StagesFor, AllMatch, OutcomesMatch;
  }

  lemma CountNext(blocks: seq<Block>, k: nat)
    ensures ValueCount(blocks[..if k + 1 < |blocks| then k + 1 else |blocks|]) ==
            ValueCount(blocks[..if k < |blocks| then k else |blocks|]) + |ValuesIn(blocks, k)|
  {
    if k < |blocks| {
      assert blocks[..k + 1][..k] == blocks[..k];
    }
  }

  /** The main result. On complete streams of one request the comparison never
      raises; it consumes every observation, and stage by stage it reports what
      those two stages alone say. */
  lemma CompareIsStagewise(oracle: seq<Frame>, rust: seq<Frame>, a: seq<Block>, b: seq<Block>, c: Context)
    requires Spells(oracle, a, c.request) && Spells(rust, b, c.request)
    ensures var rows := Rows(c, a, b, |StagesFor(c.request)|);
            Compare(c, oracle, rust) ==
            Accepted(Comparison(rows, ValueCount(a), ValueCount(b), FirstFailure(rows, StagesFor(c.request))))
  {
    hide StagesFor, StageOk, RowOf, CompareStages, Sent, FirstFailure;
    var n := |StagesFor(c.request)|;
    assert Opens(oracle) && Opens(rust) by {
      SentOpens(a, c.request);
      SentOpens(b, c.request);
    }
    assert a[..0] == [] && b[..0] == [] && a[..|a|] == a && b[..|b|] == b;
    assert Partway(c, a, b, 0) == NOTHING by {
      NoRows(c, a, b);
    }
    ResumeCompare(oracle, rust, a, b, c, 0);
    assert StagesFor(c.request)[0..] == StagesFor(c.request);
  }

  lemma NoRows(c: Context, a: seq<Block>, b: seq<Block>)
    ensures Rows(c, a, b, 0) == [] && FirstFailure([], StagesFor(c.request)).None?
  {
  }

  lemma {:induction false} SentOpens(blocks: seq<Block>, request: Request)
    requires |blocks| <= |StagesFor(request)|
    ensures Sent(blocks, request) != [] && Sent(blocks, request)[0].Begin?
  {
    hide StagesFor;
    if blocks != [] {
      SentOpens(blocks[..|blocks| - 1], request);
    }
  }

  /** Two stages agree: the same number of observations, each equal to its
      counterpart or excused by the rule, and outcomes that match, or neither
      stream reached the stage. */
  predicate StagesAgree(c: Context, i: nat, a: seq<Block>, b: seq<Block>)
    requires i < |StagesFor(c.request)|
  {
    var stage := StagesFor(c.request)[i];
    if i < |a| && i < |b| then
      && |a[i].values| == |b[i].values|
      && (forall k | 0 <= k < |a[i].values| :: PairMatches(c, stage, Some(a[i].values[k]), Some(b[i].values[k])))
      && a[i].outcome == b[i].outcome
      && if a[i].outcome.Panic? then
           c.identity(stage, a[i].message, Oracle).Some?
           && c.identity(stage, a[i].message, Oracle) == c.identity(stage, b[i].message, Rust)
         else a[i].message == b[i].message
    else i >= |a| && i >= |b|
  }

  /** A lone observation never passes, by equality or by rule. */
  lemma LoneNeverMatches(c: Context, stage: Stage, v: Value)
    ensures !PairMatches(c, stage, Some(v), None) && !PairMatches(c, stage, None, Some(v))
  {
  }

  lemma RowPasses(c: Context, i: nat, a: seq<Block>, b: seq<Block>)
    requires i < |StagesFor(c.request)|
    ensures RowOf(c, i, a, b).pass <==> StagesAgree(c, i, a, b)
  {
    hide StagesFor, PairMatches;
    var stage := StagesFor(c.request)[i];
    var xs, ys := ValuesIn(a, i), ValuesIn(b, i);
    if |xs| != |ys| {
      var k := if |xs| < |ys| then |xs| else |ys|;
      LoneNeverMatches(c, stage, if |xs| < |ys| then ys[k] else xs[k]);
      assert !PairMatches(c, stage, At(xs, k), At(ys, k));
      assert !AllMatch(c, stage, xs, ys);
    } else {
      assert forall k | 0 <= k < |xs| :: At(xs, k) == Some(xs[k]) && At(ys, k) == Some(ys[k]);
      assert AllMatch(c, stage, xs, ys) <==> forall k | 0 <= k < |xs| :: PairMatches(c, stage, Some(xs[k]), Some(ys[k]));
    }
  }

  lemma {:induction false} FailureIffRow(rows: seq<StageResult>, stages: seq<Stage>)
    requires |rows| <= |stages|
    ensures FirstFailure(rows, stages).None? <==> forall row <- rows :: row.pass
  {
    if rows != [] {
      var n := |rows| - 1;
      FailureIffRow(rows[..n], stages);
      assert rows == rows[..n] + [rows[n]];
    }
  }

  /** The verdict: the case passes exactly when every stage agrees, and a failure
      is reported exactly when it does not pass. A different number of
      observations fails its own stage and misaligns no other. */
  lemma PassIffStagesAgree(oracle: seq<Frame>, rust: seq<Frame>, a: seq<Block>, b: seq<Block>, c: Context)
    requires Spells(oracle, a, c.request) && Spells(rust, b, c.request)
    ensures Compare(c, oracle, rust).Accepted? && |Compare(c, oracle, rust).value.rows| == |StagesFor(c.request)|
    ensures Compare(c, oracle, rust).value.Pass() <==>
            forall i | 0 <= i < |StagesFor(c.request)| :: StagesAgree(c, i, a, b)
    ensures Compare(c, oracle, rust).value.failure.None? <==> Compare(c, oracle, rust).value.Pass()
    ensures forall i | 0 <= i < |StagesFor(c.request)| ::
              Compare(c, oracle, rust).value.rows[i].pass <==> StagesAgree(c, i, a, b)
  {
    hide StagesFor, StagesOk, Terminated, Compare, RowOf, StagesAgree;
    CompareIsStagewise(oracle, rust, a, b, c);
    var n := |StagesFor(c.request)|;
    var rows := Rows(c, a, b, n);
    FailureIffRow(rows, StagesFor(c.request));
    forall i | 0 <= i < n ensures rows[i].pass <==> StagesAgree(c, i, a, b) {
      RowPasses(c, i, a, b);
    }
    assert (forall row <- rows :: row.pass) <==> forall i | 0 <= i < n :: rows[i].pass;
  }
}
