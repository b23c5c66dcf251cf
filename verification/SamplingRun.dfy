/** The capture loops and the validation loop of one benchmark. */
module SamplingRun {
  import opened Results
  import opened SamplingRule
  import opened SamplingProperties

  /** One recorded pair: both runtimes, in the order its index gives. */
  method CapturePair(mode: Mode, host: Host, base: nat, index: nat, rules: Rules) returns (r: Verdict<seq<Row>>)
    ensures r == if rules.valid(host.run(base + 2 * index), mode, RuntimeAt(2 * index))
                    && rules.valid(host.run(base + 2 * index + 1), mode, RuntimeAt(2 * index + 1))
                 then Accepted([SeriesRow(mode, host, base, 2 * index), SeriesRow(mode, host, base, 2 * index + 1)])
                 else Rejected
  {
    var order := if index % 2 == 0 then [Go, Rust] else [Rust, Go];
    PairOrder(index);
    var pair: seq<Row> := [];
    for side := 0 to 2
      invariant |pair| == side
      invariant side > 0 ==> rules.valid(host.run(base + 2 * index), mode, RuntimeAt(2 * index))
                             && pair[0] == SeriesRow(mode, host, base, 2 * index)
      invariant side > 1 ==> rules.valid(host.run(base + 2 * index + 1), mode, RuntimeAt(2 * index + 1))
                             && pair[1] == SeriesRow(mode, host, base, 2 * index + 1)
    {
      var sample := host.run(base + 2 * index + side);
      if !rules.valid(sample, mode, order[side]) {
        return Rejected;
      }
      pair := pair + [Row(mode, order[side], index, sample)];
    }
    assert pair == [pair[0], pair[1]];
    return Accepted(pair);
  }

  lemma PairOrder(index: nat)
    ensures (2 * index) / 2 == index == (2 * index + 1) / 2
    ensures [RuntimeAt(2 * index), RuntimeAt(2 * index + 1)] == if index % 2 == 0 then [Go, Rust] else [Rust, Go]
  {
    assert (2 * index) % 2 == 0 && (2 * index + 1) % 2 == 1;
  }

  /** `for index in range(from, from + 7)`: the pairs of one batch. */
  method CaptureBatch(mode: Mode, host: Host, base: nat, from_: nat, rules: Rules) returns (r: Verdict<seq<Row>>)
    ensures r.Accepted? <==> forall k: nat | 2 * from_ <= k < 2 * (from_ + BATCH) ::
                               rules.valid(host.run(base + k), mode, RuntimeAt(k))
    ensures r.Accepted? ==>
              SeriesRows(mode, host, base, 2 * from_) + r.value == SeriesRows(mode, host, base, 2 * (from_ + BATCH))
  {
    var rows: seq<Row> := [];
    assert SeriesRows(mode, host, base, 2 * from_) + rows == SeriesRows(mode, host, base, 2 * from_);
    for index := from_ to from_ + BATCH
      invariant SeriesRows(mode, host, base, 2 * from_) + rows == SeriesRows(mode, host, base, 2 * index)
      invariant forall k: nat | 2 * from_ <= k < 2 * index :: rules.valid(host.run(base + k), mode, RuntimeAt(k))
    {
      var pair := CapturePair(mode, host, base, index, rules);
      if pair.Rejected? {
        assert !rules.valid(host.run(base + 2 * index), mode, RuntimeAt(2 * index))
            || !rules.valid(host.run(base + (2 * index + 1)), mode, RuntimeAt(2 * index + 1));
        return Rejected;
      }
      assert SeriesRows(mode, host, base, 2 * (index + 1)) == SeriesRows(mode, host, base, 2 * index) + pair.value;
      rows := rows + pair.value;
    }
    return Accepted(rows);
  }

  /** One mode: two unrecorded warm-ups, one batch, then more while the rule asks for it. */
  method CaptureMode(mode: Mode, host: Host, base: nat, rules: Rules) returns (r: Verdict<seq<Row>>)
    ensures var n := 2 * Pairs(mode, host, base, 1, rules);
            if WarmUpsValid(mode, host, rules) && RunsValid(mode, host, base, n, rules)
            then r == Accepted(SeriesRows(mode, host, base, n)) else r.Rejected?
  {
    hide Pairs, Extends, SeriesRows;
    if !rules.valid(host.warmUp(mode, Go), mode, Go) || !rules.valid(host.warmUp(mode, Rust), mode, Rust) {
      return Rejected;
    }
    ghost var pairs := Pairs(mode, host, base, 1, rules);
    var first := CaptureBatch(mode, host, base, 0, rules);
    if first.Rejected? {
      return Rejected;
    }
    var rows := first.value;
    assert rows == SeriesRows(mode, host, base, 2 * BATCH) by { NoRows(mode, host, base, rows); }
    if mode.allocation {
      PairsUnfold(mode, host, base, 1, rules);
      return Accepted(rows);
    }
    ghost var batches: nat := 1;
    var more := NeedsMore(Walls(rows, Go), Walls(rows, Rust), mode.workers, rules);
    DecideHere(mode, host, base, 1, rules);
    while more
      invariant 1 <= batches <= 3
      invariant rows == SeriesRows(mode, host, base, 2 * batches * BATCH)
      invariant RunsValid(mode, host, base, 2 * batches * BATCH, rules)
      invariant more == Extends(rows, batches * BATCH, mode.workers, rules)
      invariant pairs == Pairs(mode, host, base, batches, rules)
      decreases 3 - batches
    {
      AllFit(mode, host, base, batches, rules);
      PairsUnfold(mode, host, base, batches, rules);
      var batch := CaptureBatch(mode, host, base, |rows| / 2, rules);
      if batch.Rejected? {
        return Rejected;
      }
      rows := rows + batch.value;
      batches := batches + 1;
      more := NeedsMore(Walls(rows, Go), Walls(rows, Rust), mode.workers, rules);
      DecideHere(mode, host, base, batches, rules);
    }
    PairsUnfold(mode, host, base, batches, rules);
    return Accepted(rows);
  }

  lemma NoRows(mode: Mode, host: Host, base: nat, rows: seq<Row>)
    ensures SeriesRows(mode, host, base, 0) + rows == rows
  {
  }

  lemma PairsUnfold(mode: Mode, host: Host, base: nat, batches: nat, rules: Rules)
    requires 1 <= batches <= 3
    ensures var n := batches * BATCH;
            Pairs(mode, host, base, batches, rules) ==
            if mode.allocation || !Extends(SeriesRows(mode, host, base, 2 * n), n, mode.workers, rules) || batches == 3 then n
            else Pairs(mode, host, base, batches + 1, rules)
  {
  }

  lemma DecideHere(mode: Mode, host: Host, base: nat, batches: nat, rules: Rules)
    ensures var rows := SeriesRows(mode, host, base, 2 * batches * BATCH);
            NeedsMore(Walls(rows, Go), Walls(rows, Rust), mode.workers, rules)
            == Extends(rows, batches * BATCH, mode.workers, rules)
  {
    var rows := SeriesRows(mode, host, base, 2 * batches * BATCH);
    assert rows[..2 * (batches * BATCH)] == rows;
  }

  /** The rule never asks for a fourth batch. */
  lemma AllFit(mode: Mode, host: Host, base: nat, batches: nat, rules: Rules)
    requires 1 <= batches <= 3
    requires RunsValid(mode, host, base, 2 * batches * BATCH, rules)
    ensures var rows := SeriesRows(mode, host, base, 2 * batches * BATCH);
            Extends(rows, batches * BATCH, mode.workers, rules) ==> batches < 3
  {
    var rows := SeriesRows(mode, host, base, 2 * batches * BATCH);
    if batches == 3 {
      RuleStops(rows, mode, rules);
    }
  }

  /** The whole capture. */
  method Capture(host: Host, rules: Rules) returns (r: Verdict<seq<Row>>)
    ensures r == Captured(MODES, host, 0, rules)
  {
    hide Pairs, SeriesRows, RunsValid, WarmUpsValid;
    var rows: seq<Row> := [];
    assert MODES[0..] == MODES;
    assert Captured(MODES, host, 0, rules).Accepted? ==>
             [] + Captured(MODES, host, 0, rules).value == Captured(MODES, host, 0, rules).value;
    for i := 0 to |MODES|
      invariant var rest := Captured(MODES[i..], host, |rows|, rules);
                Captured(MODES, host, 0, rules) == if rest.Rejected? then Rejected else Accepted(rows + rest.value)
    {
      assert MODES[i..][0] == MODES[i] && MODES[i..][1..] == MODES[i + 1..];
      ghost var n := 2 * Pairs(MODES[i], host, |rows|, 1, rules);
      ghost var rest := Captured(MODES[i + 1..], host, |rows| + n, rules);
      var series := CaptureMode(MODES[i], host, |rows|, rules);
      if series.Rejected? {
        return Rejected;
      }
      if rest.Accepted? {
        assert rows + (series.value + rest.value) == (rows + series.value) + rest.value;
      }
      rows := rows + series.value;
    }
    assert MODES[|MODES|..] == [] && rows + [] == rows;
    return Accepted(rows);
  }

  // --- the consumer --------------------------------------------------------------------------

  /** `for end in range(7, count + 1, 7)`: every decision of the series again. */
  method DecisionsFollow(series: seq<Row>, count: nat, workers: int, rules: Rules) returns (ok: bool)
    requires |series| == 2 * count && CountOk(count, false)
    ensures ok <==> DecisionsOk(series, count, workers, rules)
  {
    hide Extends;
    var end := BATCH;
    ghost var batch := 1;
    while end <= count
      invariant end == batch * BATCH && 1 <= batch <= 4 && (batch - 1) * BATCH <= count
      invariant forall b | 1 <= b < batch :: Extends(series, b * BATCH, workers, rules) <==> b * BATCH < count
      decreases count - end
    {
      if Extends(series, end, workers, rules) != (end < count) {
        return false;
      }
      end, batch := end + BATCH, batch + 1;
    }
    return true;
  }

  /** One mode of `validate_rows`: the rows that declare it, from the cursor on. */
  method ValidateSeries(rows: seq<Row>, start: nat, mode: Mode, rules: Rules) returns (ok: bool, cursor: nat)
    requires start <= |rows|
    ensures start <= cursor <= |rows|
    ensures ok <==> SeriesOk(rows[start..start + Stretch(rows[start..], mode)], mode, rules)
    ensures ok ==> cursor == start + Stretch(rows[start..], mode)
  {
    hide Extends, DecisionsOk, CountOk, RuntimeAt, Stretch;
    cursor := start;
    ghost var all := rows[start..start + Stretch(rows[start..], mode)];
    while cursor < |rows| && rows[cursor].mode == mode
      invariant start <= cursor <= |rows|
      invariant forall k | start <= k < cursor :: RowFits(rows[k], mode, k - start, rules)
      decreases |rows| - cursor
    {
      var row, k := rows[cursor], cursor - start;
      if row.index != k / 2 || row.runtime != RuntimeAt(k) || !rules.valid(row.sample, mode, RuntimeAt(k)) {
        StretchCovers(rows[start..], mode, k);
        assert rows[start..][k] == all[k] == row;
        return false, cursor;
      }
      cursor := cursor + 1;
    }
    var n := cursor - start;
    StretchIs(rows[start..], mode, n);
    var series := rows[start..cursor];
    assert all == series;
    forall k | 0 <= k < n ensures RowFits(series[k], mode, k, rules) {
      assert series[k] == rows[start + k];
    }
    var count := n / 2;
    if n % 2 != 0 || !CountOk(count, mode.allocation) {
      return false, cursor;
    }
    ok := true;
    if !mode.allocation {
      ok := DecisionsFollow(series, count, mode.workers, rules);
    }
  }

  lemma StretchCovers(rows: seq<Row>, mode: Mode, k: nat)
    requires k < |rows| && forall i | 0 <= i <= k :: rows[i].mode == mode
    ensures k < Stretch(rows, mode)
  {
  }

  /** The rows of the first mode are one good series, and the rest is accepted for the other modes. */
  lemma AcceptsNext(rows: seq<Row>, cursor: nat, modes: seq<Mode>, i: nat, rules: Rules)
    requires cursor <= |rows| && i < |modes|
    ensures var next := cursor + Stretch(rows[cursor..], modes[i]);
            Accepts(rows[cursor..], modes[i..], rules) <==>
            SeriesOk(rows[cursor..next], modes[i], rules) && Accepts(rows[next..], modes[i + 1..], rules)
  {
    hide SeriesOk, Stretch;
    var n := Stretch(rows[cursor..], modes[i]);
    assert modes[i..][0] == modes[i] && modes[i..][1..] == modes[i + 1..];
    assert rows[cursor..][..n] == rows[cursor..cursor + n] && rows[cursor..][n..] == rows[cursor + n..];
  }

  method ValidateModes(rows: seq<Row>, modes: seq<Mode>, rules: Rules) returns (ok: bool)
    ensures ok <==> Accepts(rows, modes, rules)
  {
    hide SeriesOk, Accepts, Stretch;
    var cursor: nat := 0;
    assert rows[0..] == rows && modes[0..] == modes;
    for i := 0 to |modes|
      invariant cursor <= |rows|
      invariant Accepts(rows, modes, rules) <==> Accepts(rows[cursor..], modes[i..], rules)
    {
      AcceptsNext(rows, cursor, modes, i, rules);
      var good, next := ValidateSeries(rows, cursor, modes[i], rules);
      if !good {
        return false;
      }
      cursor := next;
    }
    assert modes[|modes|..] == [];
    AcceptsNothing(rows[cursor..], rules);
    return cursor == |rows|;
  }

  lemma AcceptsNothing(rows: seq<Row>, rules: Rules)
    ensures Accepts(rows, [], rules) <==> rows == []
  {
  }

  method ValidateRows(rows: seq<Row>, rules: Rules) returns (ok: bool)
    ensures ok <==> Accepts(rows, MODES, rules)
  {
    hide Accepts;
    ok := ValidateModes(rows, MODES, rules);
  }
}
