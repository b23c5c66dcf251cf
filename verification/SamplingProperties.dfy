/** The consumer accepts exactly what the producer can emit. */
module SamplingProperties {
  import opened Results
  import opened SamplingRule

  /** Each pair holds one row of each runtime. */
  lemma {:induction false} WallsCount(rows: seq<Row>, runtime: Runtime)
    requires forall k | 0 <= k < |rows| :: rows[k].runtime == RuntimeAt(k)
    requires |rows| % 2 == 0
    ensures |Walls(rows, runtime)| == |rows| / 2
  {
    if rows != [] {
      var n := |rows|;
      WallsCount(rows[..n - 2], runtime);
      assert rows[..n - 1][..n - 2] == rows[..n - 2];
      assert (n - 1) / 2 == (n - 2) / 2 && (n - 2) % 2 == 0 && (n - 1) % 2 == 1;
      assert RuntimeAt(n - 2) != RuntimeAt(n - 1);
    }
  }

  /** After three batches the rule always stops. */
  lemma RuleStops(rows: seq<Row>, mode: Mode, rules: Rules)
    requires forall k | 0 <= k < |rows| :: RowFits(rows[k], mode, k, rules)
    requires 2 * MOST <= |rows|
    ensures !Extends(rows, MOST, mode.workers, rules)
  {
    WallsCount(rows[..2 * MOST], Go);
  }

  lemma PrefixRows(mode: Mode, host: Host, base: nat, n: nat, m: nat)
    requires n <= m
    ensures SeriesRows(mode, host, base, m)[..n] == SeriesRows(mode, host, base, n)
  {
  }

  lemma ExtendsPrefix(rows: seq<Row>, m: nat, end: nat, workers: int, rules: Rules)
    requires 2 * end <= m <= |rows|
    ensures Extends(rows[..m], end, workers, rules) == Extends(rows, end, workers, rules)
  {
    assert rows[..m][..2 * end] == rows[..2 * end];
  }

  /** The producer stops at the first batch boundary where the rule does. */
  lemma {:induction false} PairsDecide(mode: Mode, host: Host, base: nat, batches: nat, rules: Rules)
    requires 1 <= batches <= 3 && !mode.allocation
    requires RunsValid(mode, host, base, 2 * Pairs(mode, host, base, batches, rules), rules)
    ensures var n := Pairs(mode, host, base, batches, rules);
            var rows := SeriesRows(mode, host, base, 2 * n);
            && forall b | batches <= b <= 3 && b * BATCH <= n ::
                 Extends(rows, b * BATCH, mode.workers, rules) <==> b * BATCH < n
    decreases 3 - batches
  {
    hide Extends, RuntimeAt;
    var n := Pairs(mode, host, base, batches, rules);
    var rows := SeriesRows(mode, host, base, 2 * n);
    var here := batches * BATCH;
    PrefixRows(mode, host, base, 2 * here, 2 * n);
    ExtendsPrefix(rows, 2 * here, here, mode.workers, rules);
    if n > here {
      PairsDecide(mode, host, base, batches + 1, rules);
    } else if batches == 3 {
      RuleStops(rows, mode, rules);
    }
  }

  /** Conversely a series that followed the rule is as long as the producer's. */
  lemma {:induction false} PairsFollow(mode: Mode, host: Host, base: nat, batches: nat, count: nat, rules: Rules)
    requires 1 <= batches <= 3 && batches * BATCH <= count && CountOk(count, mode.allocation)
    requires !mode.allocation ==>
               var rows := SeriesRows(mode, host, base, 2 * count);
               forall b | batches <= b <= 3 && b * BATCH <= count ::
                 Extends(rows, b * BATCH, mode.workers, rules) <==> b * BATCH < count
    ensures Pairs(mode, host, base, batches, rules) == count
    decreases 3 - batches
  {
    var here := batches * BATCH;
    PrefixRows(mode, host, base, 2 * here, 2 * count);
    if !mode.allocation {
      var rows := SeriesRows(mode, host, base, 2 * count);
      ExtendsPrefix(rows, 2 * here, here, mode.workers, rules);
      assert Extends(rows, here, mode.workers, rules) <==> here < count;
      if here < count {
        PairsFollow(mode, host, base, batches + 1, count, rules);
      }
    }
  }

  /** A produced series is one the consumer accepts. */
  lemma ProducedSeriesOk(mode: Mode, host: Host, base: nat, rules: Rules)
    requires RunsValid(mode, host, base, 2 * Pairs(mode, host, base, 1, rules), rules)
    ensures SeriesOk(SeriesRows(mode, host, base, 2 * Pairs(mode, host, base, 1, rules)), mode, rules)
  {
    var n := Pairs(mode, host, base, 1, rules);
    if !mode.allocation {
      PairsDecide(mode, host, base, 1, rules);
    }
    assert n == 7 || n == 14 || n == 21;
  }

  lemma {:induction false} StretchIs(rows: seq<Row>, mode: Mode, n: nat)
    requires n <= |rows| && (forall k | 0 <= k < n :: rows[k].mode == mode)
    requires n < |rows| ==> rows[n].mode != mode
    ensures Stretch(rows, mode) == n
  {
    if n > 0 {
      StretchIs(rows[1..], mode, n - 1);
    }
  }

  ghost predicate Distinct(modes: seq<Mode>) {
    forall i, j | 0 <= i < j < |modes| :: modes[i] != modes[j]
  }

  /** The first row of a capture declares the first mode. */
  lemma CapturedStarts(modes: seq<Mode>, host: Host, base: nat, rules: Rules)
    requires Captured(modes, host, base, rules).Accepted?
    ensures var rows := Captured(modes, host, base, rules).value;
            rows == [] <==> modes == []
    ensures var rows := Captured(modes, host, base, rules).value;
            modes != [] ==> rows[0].mode == modes[0]
  {
  }

  /** The longest capture of a mode list: three batches of a timed mode, one of an allocation mode. */
  function MostRows(modes: seq<Mode>): nat {
    if modes == [] then 0 else (if modes[0].allocation then 2 * BATCH else 2 * MOST) + MostRows(modes[1..])
  }

  lemma AcceptsThen(series: seq<Row>, rest: seq<Row>, modes: seq<Mode>, rules: Rules)
    requires modes != [] && SeriesOk(series, modes[0], rules) && Accepts(rest, modes[1..], rules)
    requires rest != [] ==> rest[0].mode != modes[0]
    ensures Accepts(series + rest, modes, rules)
  {
    hide DecisionsOk;
    var rows := series + rest;
    forall k | 0 <= k < |series| ensures rows[k].mode == modes[0] {
      assert RowFits(series[k], modes[0], k, rules);
    }
    StretchIs(rows, modes[0], |series|);
    assert rows[..|series|] == series && rows[|series|..] == rest;
  }

  lemma {:induction false} CapturedAccepted(modes: seq<Mode>, host: Host, base: nat, rules: Rules)
    requires Distinct(modes) && Captured(modes, host, base, rules).Accepted?
    ensures Accepts(Captured(modes, host, base, rules).value, modes, rules)
    ensures |Captured(modes, host, base, rules).value| <= MostRows(modes)
    decreases |modes|
  {
    hide SeriesOk, RunsValid, WarmUpsValid, Pairs, Accepts;
    if modes == [] {
      assert Accepts([], modes, rules) by { NothingAccepted(modes, rules); }
    } else {
      var mode := modes[0];
      var n := 2 * Pairs(mode, host, base, 1, rules);
      AllocationPairs(mode, host, base, rules);
      ProducedSeriesOk(mode, host, base, rules);
      CapturedAccepted(modes[1..], host, base + n, rules);
      CapturedStarts(modes[1..], host, base + n, rules);
      AcceptsThen(SeriesRows(mode, host, base, n), Captured(modes[1..], host, base + n, rules).value, modes, rules);
    }
  }

  lemma NothingAccepted(modes: seq<Mode>, rules: Rules)
    ensures modes == [] ==> Accepts([], modes, rules)
  {
  }

  lemma AllocationPairs(mode: Mode, host: Host, base: nat, rules: Rules)
    ensures mode.allocation ==> Pairs(mode, host, base, 1, rules) == BATCH
  {
  }

  /** The host that answers with the rows' own samples; the first row of each
      runtime in a mode also serves as its warm-up. */
  ghost predicate Replays(host: Host, rows: seq<Row>, base: nat) {
    forall k: nat | k < |rows| :: host.run(base + k) == rows[k].sample
  }

  ghost predicate WarmUps(host: Host, modes: seq<Mode>, rules: Rules) {
    forall mode <- modes :: WarmUpsValid(mode, host, rules)
  }

  lemma {:induction false} AcceptedCaptured(rows: seq<Row>, modes: seq<Mode>, host: Host, base: nat, rules: Rules)
    requires Accepts(rows, modes, rules) && Replays(host, rows, base) && WarmUps(host, modes, rules)
    ensures Captured(modes, host, base, rules) == Accepted(rows)
    decreases |modes|
  {
    hide WarmUpsValid, SeriesOk, RunsValid, Pairs, Replays, Accepts, Captured, SeriesRows, Stretch;
    AcceptsParts(rows, modes, rules);
    if modes == [] {
      NothingCaptured(host, base, rules);
    } else {
      var mode, n := modes[0], Stretch(rows, modes[0]);
      SeriesReplayed(rows, n, mode, host, base, rules);
      SeriesPairs(rows[..n], mode, host, base, rules);
      ReplaysTail(host, rows, base, n);
      AcceptedCaptured(rows[n..], modes[1..], host, base + n, rules);
      assert rows == rows[..n] + rows[n..];
      assert mode in modes;
      CapturedThen(rows[n..], modes, host, base, n, rules);
    }
  }

  lemma AcceptsParts(rows: seq<Row>, modes: seq<Mode>, rules: Rules)
    requires Accepts(rows, modes, rules)
    ensures modes == [] ==> rows == []
    ensures modes != [] ==>
              var n := Stretch(rows, modes[0]);
              SeriesOk(rows[..n], modes[0], rules) && Accepts(rows[n..], modes[1..], rules)
  {
  }

  lemma NothingCaptured(host: Host, base: nat, rules: Rules)
    ensures Captured([], host, base, rules) == Accepted([])
  {
  }

  lemma CapturedThen(rest: seq<Row>, modes: seq<Mode>, host: Host, base: nat, n: nat, rules: Rules)
    requires modes != [] && n == 2 * Pairs(modes[0], host, base, 1, rules)
    requires WarmUpsValid(modes[0], host, rules) && RunsValid(modes[0], host, base, n, rules)
    requires Captured(modes[1..], host, base + n, rules) == Accepted(rest)
    ensures Captured(modes, host, base, rules) == Accepted(SeriesRows(modes[0], host, base, n) + rest)
  {
    hide WarmUpsValid, RunsValid, Pairs, SeriesRows;
  }

  lemma SeriesReplayed(rows: seq<Row>, n: nat, mode: Mode, host: Host, base: nat, rules: Rules)
    requires n <= |rows| && SeriesOk(rows[..n], mode, rules) && Replays(host, rows, base)
    ensures rows[..n] == SeriesRows(mode, host, base, n)
  {
    hide DecisionsOk;
    var series := rows[..n];
    forall k | 0 <= k < n ensures series[k] == SeriesRow(mode, host, base, k) {
      assert RowFits(series[k], mode, k, rules);
      assert host.run(base + k) == rows[k].sample;
    }
  }

  lemma ReplaysTail(host: Host, rows: seq<Row>, base: nat, n: nat)
    requires n <= |rows| && Replays(host, rows, base)
    ensures Replays(host, rows[n..], base + n)
  {
    forall k: nat | k < |rows[n..]| ensures host.run(base + n + k) == rows[n..][k].sample {
      assert host.run(base + (n + k)) == rows[n + k].sample;
    }
  }

  lemma SeriesPairs(series: seq<Row>, mode: Mode, host: Host, base: nat, rules: Rules)
    requires SeriesOk(series, mode, rules) && series == SeriesRows(mode, host, base, |series|)
    ensures |series| == 2 * Pairs(mode, host, base, 1, rules)
    ensures RunsValid(mode, host, base, |series|, rules)
  {
    var count := |series| / 2;
    PairsFollow(mode, host, base, 1, count, rules);
    forall k: nat | k < |series| ensures rules.valid(host.run(base + k), mode, RuntimeAt(k)) {
      assert RowFits(series[k], mode, k, rules);
    }
  }

  /** The first recorded samples of a mode, one of each runtime. */
  function WarmUpFrom(rows: seq<Row>, mode: Mode, runtime: Runtime): Sample {
    if rows == [] then Sample(0, "")
    else if rows[0].mode == mode && rows[0].runtime == runtime then rows[0].sample
    else WarmUpFrom(rows[1..], mode, runtime)
  }

  function Replay(rows: seq<Row>): Host {
    Host((k: nat) => if k < |rows| then rows[k].sample else Sample(0, ""), (mode, runtime) => WarmUpFrom(rows, mode, runtime))
  }

  lemma {:induction false} WarmUpFound(rows: seq<Row>, mode: Mode, runtime: Runtime, rules: Rules, at: nat)
    requires forall row <- rows :: rules.valid(row.sample, row.mode, row.runtime)
    requires at < |rows| && rows[at].mode == mode && rows[at].runtime == runtime
    ensures rules.valid(WarmUpFrom(rows, mode, runtime), mode, runtime)
    decreases |rows|
  {
    assert rows[0] in rows;
    if rows[0].mode != mode || rows[0].runtime != runtime {
      assert rows[1..][at - 1] == rows[at];
      WarmUpFound(rows[1..], mode, runtime, rules, at - 1);
    }
  }

  ghost predicate Occurs(rows: seq<Row>, mode: Mode, runtime: Runtime) {
    exists at | 0 <= at < |rows| :: rows[at].mode == mode && rows[at].runtime == runtime
  }

  lemma SeriesRowsValid(series: seq<Row>, mode: Mode, rules: Rules)
    requires SeriesOk(series, mode, rules)
    ensures forall row <- series :: rules.valid(row.sample, row.mode, row.runtime)
    ensures |series| >= 2 && series[0].mode == mode == series[1].mode && series[0].runtime == Go && series[1].runtime == Rust
  {
    hide DecisionsOk;
    forall row <- series ensures rules.valid(row.sample, row.mode, row.runtime) {
      var k :| 0 <= k < |series| && series[k] == row;
      assert RowFits(series[k], mode, k, rules);
    }
    var count := |series| / 2;
    assert |series| == 2 * count && CountOk(count, mode.allocation);
    assert RowFits(series[0], mode, 0, rules) && RowFits(series[1], mode, 1, rules);
  }

  lemma {:induction false} AcceptedRows(rows: seq<Row>, modes: seq<Mode>, rules: Rules)
    requires Accepts(rows, modes, rules)
    ensures forall row <- rows :: rules.valid(row.sample, row.mode, row.runtime)
    ensures forall mode <- modes :: Occurs(rows, mode, Go) && Occurs(rows, mode, Rust)
    decreases |modes|
  {
    hide DecisionsOk;
    if modes != [] {
      var n := Stretch(rows, modes[0]);
      var series, rest := rows[..n], rows[n..];
      AcceptedRows(rest, modes[1..], rules);
      assert rows == series + rest;
      SeriesRowsValid(series, modes[0], rules);
      hide RowFits, SeriesOk, RuntimeAt, Accepts;
      forall mode <- modes ensures Occurs(rows, mode, Go) && Occurs(rows, mode, Rust) {
        if mode != modes[0] {
          assert mode in modes[1..];
          OccursLater(series, rest, mode, Go);
          OccursLater(series, rest, mode, Rust);
        }
      }
    }
  }

  lemma OccursLater(a: seq<Row>, b: seq<Row>, mode: Mode, runtime: Runtime)
    requires Occurs(b, mode, runtime)
    ensures Occurs(a + b, mode, runtime)
  {
    var at :| 0 <= at < |b| && b[at].mode == mode && b[at].runtime == runtime;
    assert (a + b)[|a| + at] == b[at];
  }

  lemma ModesDistinct()
    ensures Distinct(MODES)
  {
  }

  lemma MostOfAll()
    ensures MostRows(MODES) == 112
  {
    assert MODES[1..] == [Mode(1, true), Mode(8, false), Mode(8, true)];
    assert MODES[1..][1..] == [Mode(8, false), Mode(8, true)];
    assert MODES[1..][1..][1..] == [Mode(8, true)];
    assert MostRows([Mode(8, true)]) == 14 && MostRows([Mode(8, false), Mode(8, true)]) == 56;
  }

  /** The main result: the accepted row lists are exactly the captures some host
      of valid runs produces, and none is longer than 112 rows. */
  lemma AcceptsIffCaptured(rows: seq<Row>, rules: Rules)
    ensures Accepts(rows, MODES, rules) <==> exists host :: Captured(MODES, host, 0, rules) == Accepted(rows)
    ensures Accepts(rows, MODES, rules) ==> Captured(MODES, Replay(rows), 0, rules) == Accepted(rows)
    ensures Accepts(rows, MODES, rules) ==> |rows| <= 112
  {
    hide Accepts, Captured;
    ModesDistinct();
    MostOfAll();
    if Accepts(rows, MODES, rules) {
      AcceptedRows(rows, MODES, rules);
      forall mode <- MODES ensures WarmUpsValid(mode, Replay(rows), rules) {
        WarmUpAt(rows, mode, Go, rules);
        WarmUpAt(rows, mode, Rust, rules);
      }
      AcceptedCaptured(rows, MODES, Replay(rows), 0, rules);
      CapturedAccepted(MODES, Replay(rows), 0, rules);
    }
    if host :| Captured(MODES, host, 0, rules) == Accepted(rows) {
      CapturedAccepted(MODES, host, 0, rules);
    }
  }

  lemma WarmUpAt(rows: seq<Row>, mode: Mode, runtime: Runtime, rules: Rules)
    requires forall row <- rows :: rules.valid(row.sample, row.mode, row.runtime)
    requires Occurs(rows, mode, runtime)
    ensures rules.valid(WarmUpFrom(rows, mode, runtime), mode, runtime)
  {
    var at :| 0 <= at < |rows| && rows[at].mode == mode && rows[at].runtime == runtime;
    WarmUpFound(rows, mode, runtime, rules, at);
  }
}
