/** Strided shards partition the roster (`shard` in scripts/parity.py), and a complete
    set of shard directories merges exactly when every directory is complete. */
module ParityShards {
  import opened Results
  import opened ParityResults

  ghost predicate Distinct<T>(items: seq<T>) {
    forall i, j | 0 <= i < j < |items| :: items[i] != items[j]
  }

  // --- strides ---------------------------------------------------------------------------------------

  lemma MultipleIsLarge(n: int, t: int)
    requires n > 0
    ensures (t >= 1 ==> n * t >= n) && (t <= -1 ==> n * t <= -n)
  {
    if t >= 1 {
      assert n * t == n + n * (t - 1) && n * (t - 1) >= 0;
    } else if t <= -1 {
      assert n * t == -n + n * (t + 1) && n * (t + 1) <= 0;
    }
  }

  lemma DivisionUnique(x: int, n: int, q: int, r: int)
    requires n > 0 && x == n * q + r && 0 <= r < n
    ensures x % n == r
  {
    var p, m := x / n, x % n;
    assert x == n * p + m && 0 <= m < n;
    assert n * (q - p) == n * q - n * p;
    MultipleIsLarge(n, q - p);
  }

  /** Position `k` is on the stride that starts at `start`. */
  predicate OnStride(k: int, start: nat, step: nat)
    requires step > 0
  {
    k >= start && (k - start) % step == 0
  }

  lemma OnStrideIff(k: nat, start: nat, step: nat)
    requires start < step
    ensures OnStride(k, start, step) <==> k % step == start
  {
    if k >= start {
      var q := (k - start) / step;
      if (k - start) % step == 0 {
        assert k == step * q + start;
        DivisionUnique(k, step, q, start);
      }
      if k % step == start {
        var p := k / step;
        assert k - start == step * p + 0;
        DivisionUnique(k - start, step, p, 0);
      }
    } else {
      DivisionUnique(k, step, 0, k);
    }
  }

  lemma StrideNext(k: int, start: nat, step: nat)
    requires step > 0
    ensures OnStride(k, start, step) <==> k == start || OnStride(k, start + step, step)
  {
    if k > start {
      var d := k - start;
      var q := d / step;
      assert d == step * q + d % step;
      if d >= step {
        assert d - step == step * (q - 1) + d % step;
        DivisionUnique(d - step, step, q - 1, d % step);
      } else {
        DivisionUnique(d, step, 0, d);
      }
    }
  }

  /** A stride holds exactly the elements at its positions. */
  lemma {:induction false} StridedHolds<T>(items: seq<T>, start: nat, step: nat, item: T)
    requires step > 0
    ensures item in Strided(items, start, step) <==> exists k :: 0 <= k < |items| && OnStride(k, start, step) && items[k] == item
    decreases |items| - start
  {
    if start < |items| {
      hide OnStride;
      StridedHolds(items, start + step, step, item);
      forall k | 0 <= k < |items|
        ensures OnStride(k, start, step) <==> k == start || OnStride(k, start + step, step)
      {
        StrideNext(k, start, step);
      }
      StrideNext(start, start, step);
    }
  }

  lemma {:induction false} StridedDistinct<T>(items: seq<T>, start: nat, step: nat)
    requires step > 0 && Distinct(items)
    ensures Distinct(Strided(items, start, step))
    decreases |items| - start
  {
    if start < |items| {
      var rest := Strided(items, start + step, step);
      StridedDistinct(items, start + step, step);
      StridedHolds(items, start + step, step, items[start]);
      forall j | 0 <= j < |rest|
        ensures rest[j] != items[start]
      {
        assert rest[j] in rest;
      }
    }
  }

  function ShardOf(roster: seq<string>, index: int, count: int): seq<string>
    requires 1 <= index <= count
  {
    Shard(roster, index, count).value
  }

  /** The element at position `k` is in shard `k % count + 1` and in no other. */
  lemma ShardsPartition(roster: seq<string>, count: int, index: int, k: nat)
    requires Distinct(roster) && 1 <= index <= count && k < |roster|
    ensures roster[k] in ShardOf(roster, index, count) <==> index == k % count + 1
  {
    hide OnStride;
    StridedHolds(roster, index - 1, count, roster[k]);
    OnStrideIff(k, index - 1, count);
  }

  lemma ShardWithin(roster: seq<string>, count: int, index: int)
    requires Distinct(roster) && 1 <= index <= count
    ensures Distinct(ShardOf(roster, index, count)) && forall v <- ShardOf(roster, index, count) :: v in roster
  {
    StridedDistinct(roster, index - 1, count);
    forall v <- ShardOf(roster, index, count)
      ensures v in roster
    {
      StridedHolds(roster, index - 1, count, v);
    }
  }

  lemma ShardsDisjoint(roster: seq<string>, count: int, i: int, j: int, v: string)
    requires Distinct(roster) && 1 <= i <= count && 1 <= j <= count && i != j && v in ShardOf(roster, i, count)
    ensures v !in ShardOf(roster, j, count)
  {
    ShardWithin(roster, count, i);
    var k :| 0 <= k < |roster| && roster[k] == v;
    ShardsPartition(roster, count, i, k);
    ShardsPartition(roster, count, j, k);
  }

  // --- a captured set of shards ----------------------------------------------------------------------------

  /** What all the runs of one capture have in common. */
  datatype Setup = Setup(suite: Suite, roster: seq<string>, pin: string, selection: string, identity: string)

  /** The roster is enumerated without repetition, and it is not empty. */
  ghost predicate GoodSetup(setup: Setup) {
    Distinct(setup.roster) && setup.roster != []
  }

  function MetaOf(setup: Setup, index: int, count: int): Meta
    requires 1 <= index <= count
  {
    Meta(setup.suite.name, setup.pin, index, count, |setup.roster|, ShardOf(setup.roster, index, count),
         false, if setup.suite.batch then Some(setup.selection) else None,
         if setup.suite.portable then Some(setup.identity) else None)
  }

  /** The rows of the variants, in the order they finished. */
  function Concat(answers: map<string, seq<Row>>, order: seq<string>): seq<Row>
    requires forall v <- order :: v in answers
  {
    if order == [] then [] else Concat(answers, order[..|order| - 1]) + answers[order[|order| - 1]]
  }

  ghost predicate Reorders(order: seq<string>, variants: seq<string>) {
    Distinct(order) && forall v :: v in order <==> v in variants
  }

  ghost predicate RowsOf(answers: map<string, seq<Row>>, variants: seq<string>, order: seq<string>, rows: seq<Row>) {
    Reorders(order, variants) && (forall v <- order :: v in answers) && rows == Concat(answers, order)
  }

  /** One directory of a capture into `count` shards. */
  ghost predicate CapturedOne(setup: Setup, answers: map<string, seq<Row>>, count: int, d: Directory) {
    && 1 <= d.meta.index <= count
    && d.meta == MetaOf(setup, d.meta.index, count)
    && exists order :: RowsOf(answers, d.meta.variants, order, d.rows)
  }

  /** A capture into `count` shards, its directories in any order. */
  ghost predicate Captured(setup: Setup, answers: map<string, seq<Row>>, count: int, dirs: seq<Directory>) {
    && |dirs| == count > 0
    && (forall k | 0 <= k < |dirs| :: CapturedOne(setup, answers, count, dirs[k]))
    && (forall k | 1 <= k <= count :: HasIndex(dirs, k))
    && forall i, j | 0 <= i < j < |dirs| :: dirs[i].meta.index != dirs[j].meta.index
  }

  lemma {:induction false} VariantsFrom(dirs: seq<Directory>, v: string)
    ensures v in AllVariants(dirs) <==> exists d <- dirs :: v in d.meta.variants
  {
    if dirs != [] {
      VariantsFrom(dirs[..|dirs| - 1], v);
      assert dirs == dirs[..|dirs| - 1] + [dirs[|dirs| - 1]];
    }
  }

  lemma {:induction false} DistinctSize(items: seq<string>)
    requires Distinct(items)
    ensures |Selected(items)| == |items|
  {
    if items != [] {
      var before, last := items[..|items| - 1], items[|items| - 1];
      DistinctSize(before);
      assert items == before + [last];
      assert Selected(items) == Selected(before) + {last};
      assert last !in Selected(before);
    }
  }

  /** The shards of a capture list every variant once. */
  lemma {:induction false} VariantsDistinct(setup: Setup, count: int, dirs: seq<Directory>)
    requires Distinct(setup.roster)
    requires forall k | 0 <= k < |dirs| :: 1 <= dirs[k].meta.index <= count && dirs[k].meta == MetaOf(setup, dirs[k].meta.index, count)
    requires forall i, j | 0 <= i < j < |dirs| :: dirs[i].meta.index != dirs[j].meta.index
    ensures Distinct(AllVariants(dirs))
  {
    hide Shard;
    if dirs != [] {
      var before, last := dirs[..|dirs| - 1], dirs[|dirs| - 1];
      VariantsDistinct(setup, count, before);
      forall v <- last.meta.variants
        ensures v !in AllVariants(before)
      {
        VariantsFrom(before, v);
        forall k | 0 <= k < |before|
          ensures v !in before[k].meta.variants
        {
          ShardsDisjoint(setup.roster, count, last.meta.index, before[k].meta.index, v);
        }
      }
      ShardWithin(setup.roster, count, last.meta.index);
      DistinctJoin(AllVariants(before), last.meta.variants);
    }
  }

  lemma DistinctJoin(a: seq<string>, b: seq<string>)
    requires Distinct(a) && Distinct(b) && forall v <- b :: v !in a
    ensures Distinct(a + b)
  {
    forall i, j | 0 <= i < j < |a + b|
      ensures (a + b)[i] != (a + b)[j]
    {
      if i < |a| <= j {
        assert b[j - |a|] in b && a[i] in a;
      }
    }
  }

  /** The shards together list the roster. */
  lemma VariantsCover(setup: Setup, answers: map<string, seq<Row>>, count: int, dirs: seq<Directory>)
    requires GoodSetup(setup) && Captured(setup, answers, count, dirs)
    ensures Selected(AllVariants(dirs)) == Selected(setup.roster)
    ensures |AllVariants(dirs)| == |Selected(AllVariants(dirs))| == |setup.roster|
  {
    hide Shard;
    var roster := setup.roster;
    VariantsDistinct(setup, count, dirs);
    DistinctSize(AllVariants(dirs));
    DistinctSize(roster);
    forall v
      ensures v in AllVariants(dirs) <==> v in roster
    {
      VariantsFrom(dirs, v);
      if v in roster {
        var k :| 0 <= k < |roster| && roster[k] == v;
        ShardsPartition(roster, count, k % count + 1, k);
        assert HasIndex(dirs, k % count + 1);
        var d :| d in dirs && d.meta.index == k % count + 1;
        assert v in d.meta.variants;
      }
      forall d <- dirs
        ensures v in d.meta.variants ==> v in roster
      {
        ShardWithin(roster, count, d.meta.index);
      }
    }
    assert Selected(AllVariants(dirs)) == Selected(roster);
  }

  /** A capture merges exactly when each of its directories is complete. */
  lemma MergesIffComplete(setup: Setup, answers: map<string, seq<Row>>, count: int, dirs: seq<Directory>)
    requires GoodSetup(setup) && Captured(setup, answers, count, dirs)
    ensures var merged := Merge(setup.suite, dirs);
            && (merged.Accepted? <==> forall d <- dirs :: CompleteOk(setup.suite.batch, d.meta.variants, d.rows))
            && (merged.Accepted? ==> merged.value == Merged(setup.pin, |setup.roster|,
                                       if setup.suite.portable then Some(setup.identity) else None, AllRows(dirs)))
  {
    hide CompleteOk, Shard;
    VariantsCover(setup, answers, count, dirs);
    assert forall d <- dirs :: CapturedOne(setup, answers, count, d);
    assert dirs[0] in dirs;
    assert Agree(setup.suite, dirs) && Whole(dirs);
  }

  // --- what any merge guarantees ---------------------------------------------------------------------------

  lemma {:induction false} SizeDistinct(items: seq<string>)
    ensures |Selected(items)| <= |items|
    ensures |Selected(items)| == |items| ==> Distinct(items)
  {
    if items != [] {
      var before, last := items[..|items| - 1], items[|items| - 1];
      SizeDistinct(before);
      assert items == before + [last];
      assert Selected(items) == Selected(before) + {last};
      if last in before {
        assert Selected(items) == Selected(before);
      } else {
        assert forall k | 0 <= k < |before| :: before[k] in before;
      }
    }
  }

  lemma {:induction false} DistinctDirectories(dirs: seq<Directory>, i: int, j: int, v: string)
    requires Distinct(AllVariants(dirs)) && 0 <= i < j < |dirs| && v in dirs[i].meta.variants
    ensures v !in dirs[j].meta.variants
  {
    var before, last := dirs[..|dirs| - 1], dirs[|dirs| - 1].meta.variants;
    var earlier := AllVariants(before);
    DistinctParts(earlier, last);
    if j < |dirs| - 1 {
      DistinctDirectories(before, i, j, v);
    } else {
      VariantsFrom(before, v);
      assert before[i] in before;
    }
  }

  lemma DistinctParts(a: seq<string>, b: seq<string>)
    requires Distinct(a + b)
    ensures Distinct(a) && forall v <- b :: v !in a
  {
    assert forall k | 0 <= k < |a| :: (a + b)[k] == a[k];
    forall v <- b
      ensures v !in a
    {
      var j :| 0 <= j < |b| && b[j] == v;
      assert (a + b)[|a| + j] == v;
    }
  }

  /** The variant is answered in this directory, and nowhere twice by one id. */
  ghost predicate AnsweredIn(d: Directory, v: string) {
    && v in d.meta.variants
    && (exists row <- d.rows :: VariantOf(row, Selected(d.meta.variants)) == v)
    && !Repeats(Answers(d.rows, Selected(d.meta.variants), v))
  }

  /** In any merge, each of the enumerated variants is answered in exactly one
      directory, and no directory holds a stranger's row. */
  lemma MergeAnswersOnce(suite: Suite, dirs: seq<Directory>)
    requires Merge(suite, dirs).Accepted?
    ensures |Selected(AllVariants(dirs))| == Merge(suite, dirs).value.total
    ensures forall v <- AllVariants(dirs) :: exists k :: 0 <= k < |dirs| && AnsweredIn(dirs[k], v)
    ensures forall v, i, j | 0 <= i < j < |dirs| :: !(v in dirs[i].meta.variants && v in dirs[j].meta.variants)
    ensures forall d <- dirs, row <- d.rows :: VariantOf(row, Selected(d.meta.variants)) in d.meta.variants
  {
    hide Agree, VariantOf, Answers, Repeats, Roots;
    assert forall d <- dirs :: DirectoryOk(suite, d);
    SizeDistinct(AllVariants(dirs));
    forall v <- AllVariants(dirs)
      ensures exists k :: 0 <= k < |dirs| && AnsweredIn(dirs[k], v)
    {
      VariantsFrom(dirs, v);
      var k :| 0 <= k < |dirs| && v in dirs[k].meta.variants;
      assert DirectoryOk(suite, dirs[k]);
      AnsweredBy(dirs[k].rows, Selected(dirs[k].meta.variants), v);
    }
    forall v, i, j | 0 <= i < j < |dirs| && v in dirs[i].meta.variants
      ensures v !in dirs[j].meta.variants
    {
      DistinctDirectories(dirs, i, j, v);
    }
  }
}
