/** The accepted row lists pair by pair: who ran when, what was compared with the
    threshold at each batch, and what a capture took from its host
    (`capture`, `ratio_summary` and `validate_rows` in scripts/s07_benchmark_*.py). */
module SamplingSeries {
  import opened Results
  import opened SamplingRule
  import opened SamplingProperties

  /** Where pair `p` has its Go row, and where its Rust row: in even pairs Go runs first. */
  function GoAt(p: nat): nat {
    2 * p + p % 2
  }

  function RustAt(p: nat): nat {
    2 * p + 1 - p % 2
  }

  function GoTimes(series: seq<Row>, n: nat): seq<int>
    requires 2 * n <= |series|
  {
    seq(n, p requires 0 <= p < n => series[GoAt(p)].sample.wallTime)
  }

  function RustTimes(series: seq<Row>, n: nat): seq<int>
    requires 2 * n <= |series|
  {
    seq(n, p requires 0 <= p < n => series[RustAt(p)].sample.wallTime)
  }

  predicate PairAt(series: seq<Row>, p: nat, mode: Mode, rules: Rules)
    requires 2 * p + 1 < |series|
  {
    var go, rust := series[GoAt(p)], series[RustAt(p)];
    && go == Row(mode, Go, p, go.sample) && rules.valid(go.sample, mode, Go)
    && rust == Row(mode, Rust, p, rust.sample) && rules.valid(rust.sample, mode, Rust)
  }

  /** After `n` pairs the measurement stands: neither series varies by more than 5%,
      and the confidence interval lies on one side of the threshold. */
  predicate Stands(series: seq<Row>, n: nat, mode: Mode, rules: Rules)
    requires 2 * n <= |series|
  {
    var go, rust := GoTimes(series, n), RustTimes(series, n);
    var limit := rules.threshold(mode.workers);
    && rules.spread(go) <= 0.05 && rules.spread(rust) <= 0.05
    && (rules.bounds(go, rust).1 <= limit || limit < rules.bounds(go, rust).0)
  }

  /** One mode: seven pairs, or for a timed one seven, fourteen or twenty-one, as many
      as it took until the measurement stood. */
  predicate Sampled(series: seq<Row>, mode: Mode, rules: Rules) {
    && |series| in {14, 28, 42}
    && (forall p | 0 <= p < |series| / 2 :: PairAt(series, p, mode, rules))
    && (mode.allocation ==> |series| == 14)
    && (!mode.allocation ==>
          && (|series| == 14 ==> Stands(series, 7, mode, rules))
          && (|series| == 28 ==> !Stands(series, 7, mode, rules) && Stands(series, 14, mode, rules))
          && (|series| == 42 ==> !Stands(series, 7, mode, rules) && !Stands(series, 14, mode, rules)))
  }

  lemma PairFits(series: seq<Row>, p: nat, mode: Mode, rules: Rules)
    requires 2 * p + 1 < |series|
    ensures PairAt(series, p, mode, rules) <==>
            RowFits(series[2 * p], mode, 2 * p, rules) && RowFits(series[2 * p + 1], mode, 2 * p + 1, rules)
  {
    assert 2 * p / 2 == p && (2 * p + 1) / 2 == p && (2 * p) % 2 == 0 && (2 * p + 1) % 2 == 1;
  }

  lemma PairsFit(series: seq<Row>, mode: Mode, rules: Rules)
    requires |series| % 2 == 0
    ensures (forall p | 0 <= p < |series| / 2 :: PairAt(series, p, mode, rules)) <==>
            forall k | 0 <= k < |series| :: RowFits(series[k], mode, k, rules)
  {
    hide PairAt, RowFits;
    forall p | 0 <= p < |series| / 2
      ensures PairAt(series, p, mode, rules) <==>
              RowFits(series[2 * p], mode, 2 * p, rules) && RowFits(series[2 * p + 1], mode, 2 * p + 1, rules)
    {
      PairFits(series, p, mode, rules);
    }
    if forall p | 0 <= p < |series| / 2 :: PairAt(series, p, mode, rules) {
      forall k | 0 <= k < |series| ensures RowFits(series[k], mode, k, rules) {
        assert PairAt(series, k / 2, mode, rules);
        assert k == 2 * (k / 2) || k == 2 * (k / 2) + 1;
      }
    }
  }

  lemma {:induction false} TimesAre(series: seq<Row>, n: nat, mode: Mode, rules: Rules)
    requires 2 * n <= |series| && forall p | 0 <= p < n :: PairAt(series, p, mode, rules)
    ensures Walls(series[..2 * n], Go) == GoTimes(series, n) && Walls(series[..2 * n], Rust) == RustTimes(series, n)
  {
    if n > 0 {
      TimesAre(series, n - 1, mode, rules);
      assert PairAt(series, n - 1, mode, rules);
      WallsPair(series, n, mode, rules);
    }
  }

  lemma WallsPair(series: seq<Row>, n: nat, mode: Mode, rules: Rules)
    requires 0 < n && 2 * n <= |series| && PairAt(series, n - 1, mode, rules)
    ensures Walls(series[..2 * n], Go) == Walls(series[..2 * n - 2], Go) + [series[GoAt(n - 1)].sample.wallTime]
    ensures Walls(series[..2 * n], Rust) == Walls(series[..2 * n - 2], Rust) + [series[RustAt(n - 1)].sample.wallTime]
  {
    assert series[..2 * n][..2 * n - 1] == series[..2 * n - 1] && series[..2 * n - 1][..2 * n - 2] == series[..2 * n - 2];
  }

  lemma ExtendsIffOpen(series: seq<Row>, n: nat, mode: Mode, rules: Rules)
    requires 2 * n <= |series| && forall p | 0 <= p < n :: PairAt(series, p, mode, rules)
    ensures Extends(series, n, mode.workers, rules) <==> n < 21 && !Stands(series, n, mode, rules)
  {
    hide Walls, PairAt;
    TimesAre(series, n, mode, rules);
  }

  lemma SeriesIffSampled(series: seq<Row>, mode: Mode, rules: Rules)
    ensures SeriesOk(series, mode, rules) <==> Sampled(series, mode, rules)
  {
    hide PairAt, Stands, RowFits, Extends;
    if |series| in {14, 28, 42} {
      PairsFit(series, mode, rules);
      if forall p | 0 <= p < |series| / 2 :: PairAt(series, p, mode, rules) {
        Boundaries(series, mode, rules);
      }
    } else {
      NoSuchCount(series, mode, rules);
    }
  }

  lemma NoSuchCount(series: seq<Row>, mode: Mode, rules: Rules)
    requires |series| !in {14, 28, 42}
    ensures !SeriesOk(series, mode, rules)
  {
    hide DecisionsOk, RowFits;
  }

  lemma Boundaries(series: seq<Row>, mode: Mode, rules: Rules)
    requires |series| in {14, 28, 42} && forall p | 0 <= p < |series| / 2 :: PairAt(series, p, mode, rules)
    ensures DecisionsOk(series, |series| / 2, mode.workers, rules) <==>
            && (|series| == 14 ==> Stands(series, 7, mode, rules))
            && (|series| == 28 ==> !Stands(series, 7, mode, rules) && Stands(series, 14, mode, rules))
            && (|series| == 42 ==> !Stands(series, 7, mode, rules) && !Stands(series, 14, mode, rules))
  {
    hide PairAt, Stands, Extends;
    var count := |series| / 2;
    forall b | 1 <= b <= 3 && b * BATCH <= count
      ensures Extends(series, b * BATCH, mode.workers, rules) <==> b * BATCH < 21 && !Stands(series, b * BATCH, mode, rules)
    {
      ExtendsIffOpen(series, b * BATCH, mode, rules);
    }
    assert 1 * BATCH == 7 && 2 * BATCH == 14 && 3 * BATCH == 21;
    if DecisionsOk(series, count, mode.workers, rules) {
      assert Extends(series, 1 * BATCH, mode.workers, rules) <==> 7 < count;
      if count >= 14 {
        assert Extends(series, 2 * BATCH, mode.workers, rules) <==> 14 < count;
      }
    } else {
      var b :| 1 <= b <= 3 && b * BATCH <= count && !(Extends(series, b * BATCH, mode.workers, rules) <==> b * BATCH < count);
    }
  }

  /** The four modes in order, one worker and eight, timed and counting allocations. */
  ghost predicate FourSeries(rows: seq<Row>, rules: Rules) {
    exists a, b, c, d :: rows == a + b + c + d && Four(a, b, c, d, rules)
  }

  predicate Four(a: seq<Row>, b: seq<Row>, c: seq<Row>, d: seq<Row>, rules: Rules) {
    && Sampled(a, Mode(1, false), rules) && Sampled(b, Mode(1, true), rules)
    && Sampled(c, Mode(8, false), rules) && Sampled(d, Mode(8, true), rules)
  }

  lemma SampledStarts(series: seq<Row>, mode: Mode, rules: Rules)
    requires Sampled(series, mode, rules)
    ensures series != [] && series[0].mode == mode
  {
    hide Stands;
    assert PairAt(series, 0, mode, rules);
  }

  lemma AcceptsLast(series: seq<Row>, mode: Mode, rules: Rules)
    requires Sampled(series, mode, rules)
    ensures Accepts(series, [mode], rules)
  {
    hide Sampled, SeriesOk;
    SeriesIffSampled(series, mode, rules);
    NothingAccepted([], rules);
    AcceptsThen(series, [], [mode], rules);
    assert series + [] == series;
  }

  lemma AcceptsFirst(series: seq<Row>, rest: seq<Row>, modes: seq<Mode>, rules: Rules)
    requires modes != [] && Sampled(series, modes[0], rules) && Accepts(rest, modes[1..], rules)
    requires rest != [] && rest[0].mode != modes[0]
    ensures Accepts(series + rest, modes, rules) && series + rest != [] && (series + rest)[0].mode == modes[0]
  {
    hide Sampled, SeriesOk, Accepts;
    SeriesIffSampled(series, modes[0], rules);
    SampledStarts(series, modes[0], rules);
    AcceptsThen(series, rest, modes, rules);
  }

  lemma AcceptsSplit(rows: seq<Row>, modes: seq<Mode>, rules: Rules) returns (series: seq<Row>, rest: seq<Row>)
    requires modes != [] && Accepts(rows, modes, rules)
    ensures rows == series + rest && Sampled(series, modes[0], rules) && Accepts(rest, modes[1..], rules)
  {
    AcceptsParts(rows, modes, rules);
    var n := Stretch(rows, modes[0]);
    series, rest := rows[..n], rows[n..];
    SeriesIffSampled(series, modes[0], rules);
  }

  /** The main result: what the report accepts, pair by pair, is one sampled series for
      each of the four modes and nothing else. */
  lemma AcceptsIffSampled(rows: seq<Row>, rules: Rules)
    ensures Accepts(rows, MODES, rules) <==> FourSeries(rows, rules)
  {
    hide Accepts, Sampled;
    var last, two, three := [Mode(8, true)], [Mode(8, false), Mode(8, true)], [Mode(1, true), Mode(8, false), Mode(8, true)];
    assert MODES[1..] == three && three[1..] == two && two[1..] == last && last[1..] == [];
    if Accepts(rows, MODES, rules) {
      var a, abc := AcceptsSplit(rows, MODES, rules);
      var b, bc := AcceptsSplit(abc, three, rules);
      var c, cc := AcceptsSplit(bc, two, rules);
      var d, none := AcceptsSplit(cc, last, rules);
      AcceptsParts(none, [], rules);
      assert rows == a + b + c + d && Four(a, b, c, d, rules);
    }
    if FourSeries(rows, rules) {
      var a, b, c, d :| rows == a + b + c + d && Four(a, b, c, d, rules);
      AcceptsLast(d, Mode(8, true), rules);
      SampledStarts(d, Mode(8, true), rules);
      AcceptsFirst(c, d, two, rules);
      AcceptsFirst(b, c + d, three, rules);
      AcceptsFirst(a, b + (c + d), MODES, rules);
      assert rows == a + (b + (c + d));
    }
  }

  // --- what a capture takes from its host ----------------------------------------------------------

  /** Everything a successful capture ran was valid, the warm-ups included, and its rows
      hold the host's answers in the order they were asked for. */
  lemma {:induction false} CaptureRan(modes: seq<Mode>, host: Host, base: nat, rules: Rules)
    requires Captured(modes, host, base, rules).Accepted?
    ensures forall mode <- modes ::
              rules.valid(host.warmUp(mode, Go), mode, Go) && rules.valid(host.warmUp(mode, Rust), mode, Rust)
    ensures var rows := Captured(modes, host, base, rules).value;
            forall k: nat | k < |rows| :: rows[k].sample == host.run(base + k)
                                          && rules.valid(rows[k].sample, rows[k].mode, rows[k].runtime)
    decreases |modes|
  {
    hide Pairs, RuntimeAt;
    if modes != [] {
      var n := 2 * Pairs(modes[0], host, base, 1, rules);
      CaptureRan(modes[1..], host, base + n, rules);
      var series, rest := SeriesRows(modes[0], host, base, n), Captured(modes[1..], host, base + n, rules).value;
      var rows := series + rest;
      forall k: nat | k < |rows|
        ensures rows[k].sample == host.run(base + k) && rules.valid(rows[k].sample, rows[k].mode, rows[k].runtime)
      {
        if k >= n {
          assert rest[k - n].sample == host.run(base + n + (k - n));
        }
      }
      assert modes == [modes[0]] + modes[1..];
    }
  }

  /** A host that only ever gives valid answers is captured. */
  lemma {:induction false} ValidIsCaptured(modes: seq<Mode>, host: Host, base: nat, rules: Rules)
    requires forall k: nat, mode, runtime :: rules.valid(host.run(k), mode, runtime)
    requires forall mode, runtime :: rules.valid(host.warmUp(mode, runtime), mode, runtime)
    ensures Captured(modes, host, base, rules).Accepted?
    decreases |modes|
  {
    if modes != [] {
      ValidIsCaptured(modes[1..], host, base + 2 * Pairs(modes[0], host, base, 1, rules), rules);
    }
  }
}
