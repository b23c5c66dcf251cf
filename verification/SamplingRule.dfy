/** The sequential sampling rule of one benchmark capture: what the producer emits
    (`capture` in scripts/s07_benchmark_measure.py), when it extends a series
    (`ratio_summary` in scripts/s07_benchmark_stats.py), and what the consumer
    accepts (`validate_rows` in scripts/s07_benchmark_report.py). */
module SamplingRule {
  import opened Results

  const BATCH := 7
  const MOST := 21

  datatype Runtime = Go | Rust

  /** One child run; `detail` is everything but the timed section. */
  datatype Sample = Sample(wallTime: int, detail: string)

  datatype Mode = Mode(workers: int, allocation: bool)

  /** `for workers in (1, 8): for allocation in (False, True)`. */
  const MODES: seq<Mode> := [Mode(1, false), Mode(1, true), Mode(8, false), Mode(8, true)]

  datatype Row = Row(mode: Mode, runtime: Runtime, index: int, sample: Sample)

  /** The fixed statistics: the relative median deviation of a series, and the
      bootstrap bounds of the ratio of two. Both are functions of the samples. */
  datatype Rules = Rules(
    spread: seq<int> -> real,
    bounds: (seq<int>, seq<int>) -> (real, real),
    threshold: int -> real,
    valid: (Sample, Mode, Runtime) -> bool)

  predicate Spread(go: seq<int>, rust: seq<int>, rules: Rules) {
    rules.spread(go) > 0.05 || rules.spread(rust) > 0.05
  }

  /** `summary["needs_more"]`. */
  predicate NeedsMore(go: seq<int>, rust: seq<int>, workers: int, rules: Rules) {
    var (lower, upper) := rules.bounds(go, rust);
    |go| < MOST && ((lower <= rules.threshold(workers) < upper) || Spread(go, rust, rules))
  }

  // --- the shape of a series -----------------------------------------------------------

  /** Pairs alternate which runtime runs first. */
  function RuntimeAt(k: nat): Runtime {
    if (k / 2) % 2 == 0 then (if k % 2 == 0 then Go else Rust) else (if k % 2 == 0 then Rust else Go)
  }

  predicate RowFits(row: Row, mode: Mode, k: nat, rules: Rules) {
    row.mode == mode && row.index == k / 2 && row.runtime == RuntimeAt(k) && rules.valid(row.sample, mode, RuntimeAt(k))
  }

  function Walls(rows: seq<Row>, runtime: Runtime): seq<int> {
    if rows == [] then []
    else
      Walls(rows[..|rows| - 1], runtime)
      + (if rows[|rows| - 1].runtime == runtime then [rows[|rows| - 1].sample.wallTime] else [])
  }

  /** The extension decision after the first `2 * end` rows of a series. */
  predicate Extends(rows: seq<Row>, end: nat, workers: int, rules: Rules)
    requires 2 * end <= |rows|
  {
    NeedsMore(Walls(rows[..2 * end], Go), Walls(rows[..2 * end], Rust), workers, rules)
  }

  /** How many pairs a series may have. */
  predicate CountOk(count: nat, allocation: bool) {
    count == BATCH || (!allocation && (count == 2 * BATCH || count == MOST))
  }

  /** Every stop and every extension followed the rule. */
  predicate DecisionsOk(rows: seq<Row>, count: nat, workers: int, rules: Rules)
    requires |rows| == 2 * count
  {
    forall batches | 1 <= batches <= 3 && batches * BATCH <= count ::
      Extends(rows, batches * BATCH, workers, rules) <==> batches * BATCH < count
  }

  predicate SeriesOk(rows: seq<Row>, mode: Mode, rules: Rules) {
    var count := |rows| / 2;
    && (forall k | 0 <= k < |rows| :: RowFits(rows[k], mode, k, rules))
    && |rows| == 2 * count && CountOk(count, mode.allocation)
    && (!mode.allocation ==> DecisionsOk(rows, count, mode.workers, rules))
  }

  /** The longest stretch of rows that declare a mode. */
  function Stretch(rows: seq<Row>, mode: Mode): (n: nat)
    ensures n <= |rows|
    ensures forall k | 0 <= k < n :: rows[k].mode == mode
    ensures n < |rows| ==> rows[n].mode != mode
  {
    if rows == [] || rows[0].mode != mode then 0 else 1 + Stretch(rows[1..], mode)
  }

  /** What `validate_rows` accepts: one good series per mode, in order, and nothing else. */
  predicate Accepts(rows: seq<Row>, modes: seq<Mode>, rules: Rules) {
    if modes == [] then rows == []
    else
      var n := Stretch(rows, modes[0]);
      SeriesOk(rows[..n], modes[0], rules) && Accepts(rows[n..], modes[1..], rules)
  }

  // --- the producer ---------------------------------------------------------------------

  /** The runs the host answers with: one per recorded row, and the warm-ups. */
  datatype Host = Host(run: nat -> Sample, warmUp: (Mode, Runtime) -> Sample)

  function SeriesRow(mode: Mode, host: Host, base: nat, k: nat): Row {
    Row(mode, RuntimeAt(k), k / 2, host.run(base + k))
  }

  function SeriesRows(mode: Mode, host: Host, base: nat, n: nat): (rows: seq<Row>)
    ensures |rows| == n
  {
    seq(n, k requires 0 <= k < n => SeriesRow(mode, host, base, k))
  }

  /** `sample` raises when a run does not validate, and so does the capture. */
  predicate RunsValid(mode: Mode, host: Host, base: nat, n: nat, rules: Rules) {
    forall k: nat | k < n :: rules.valid(host.run(base + k), mode, RuntimeAt(k))
  }

  predicate WarmUpsValid(mode: Mode, host: Host, rules: Rules) {
    rules.valid(host.warmUp(mode, Go), mode, Go) && rules.valid(host.warmUp(mode, Rust), mode, Rust)
  }

  /** The pairs of a series that starts with `batches` batches: extended until the rule stops. */
  function Pairs(mode: Mode, host: Host, base: nat, batches: nat, rules: Rules): (n: nat)
    requires 1 <= batches <= 3
    ensures batches * BATCH <= n <= MOST && n % BATCH == 0
    decreases 3 - batches
  {
    var n := batches * BATCH;
    if mode.allocation || !Extends(SeriesRows(mode, host, base, 2 * n), n, mode.workers, rules) || batches == 3 then n
    else Pairs(mode, host, base, batches + 1, rules)
  }

  function Captured(modes: seq<Mode>, host: Host, base: nat, rules: Rules): Verdict<seq<Row>> {
    if modes == [] then Accepted([])
    else
      hide Pairs, RunsValid, WarmUpsValid, SeriesRows;
      var n := 2 * Pairs(modes[0], host, base, 1, rules);
      if !WarmUpsValid(modes[0], host, rules) || !RunsValid(modes[0], host, base, n, rules) then Rejected
      else
        var rest :- Captured(modes[1..], host, base + n, rules);
        Accepted(SeriesRows(modes[0], host, base, n) + rest)
  }
}
