/** The converse: whenever one variant's id is nested under another's, some answers are
    judged differently by a whole run and by a run with one shard a variant. */
module ParityNesting {
  import opened Results
  import opened ParityResults
  import opened ParityShards
  import opened ParityVerdict

  // --- captures for every shard count ------------------------------------------------------------------

  function DirectoryOf(setup: Setup, answers: map<string, seq<Row>>, index: int, count: int): Directory
    requires 1 <= index <= count
    requires forall v <- ShardOf(setup.roster, index, count) :: v in answers
  {
    Directory(MetaOf(setup, index, count), Concat(answers, ShardOf(setup.roster, index, count)))
  }

  /** Capture into `count` shards, everything in order. */
  function Capture(setup: Setup, answers: map<string, seq<Row>>, count: nat): seq<Directory>
    requires count > 0
    requires forall index | 1 <= index <= count :: forall v <- ShardOf(setup.roster, index, count) :: v in answers
  {
    seq(count, k requires 0 <= k < count => DirectoryOf(setup, answers, k + 1, count))
  }

  lemma CaptureIsCaptured(setup: Setup, answers: map<string, seq<Row>>, count: nat)
    requires GoodSetup(setup) && count > 0 && forall v <- setup.roster :: v in answers
    ensures forall index | 1 <= index <= count :: forall v <- ShardOf(setup.roster, index, count) :: v in answers
    ensures Captured(setup, answers, count, Capture(setup, answers, count))
  {
    hide Shard, Concat;
    forall index | 1 <= index <= count
      ensures Distinct(ShardOf(setup.roster, index, count)) && forall v <- ShardOf(setup.roster, index, count) :: v in answers
    {
      ShardWithin(setup.roster, count, index);
    }
    var dirs := Capture(setup, answers, count);
    forall k | 0 <= k < count
      ensures CapturedOne(setup, answers, count, dirs[k]) && dirs[k].meta.index == k + 1
    {
      var variants := ShardOf(setup.roster, k + 1, count);
      assert RowsOf(answers, variants, variants, dirs[k].rows);
    }
    forall k | 1 <= k <= count
      ensures HasIndex(dirs, k)
    {
      assert dirs[k - 1] in dirs && dirs[k - 1].meta.index == k;
    }
  }

  lemma {:induction false} StrideOne(roster: seq<string>, start: nat)
    requires start <= |roster|
    ensures Strided(roster, start, 1) == roster[start..]
    decreases |roster| - start
  {
    if start < |roster| {
      StrideOne(roster, start + 1);
    }
  }

  /** One shard is the whole roster; with as many shards as variants, each is one variant. */
  lemma ExtremeShards(roster: seq<string>)
    ensures ShardOf(roster, 1, 1) == roster
    ensures forall k | 0 <= k < |roster| :: ShardOf(roster, k + 1, |roster|) == [roster[k]]
  {
    StrideOne(roster, 0);
    forall k | 0 <= k < |roster|
      ensures ShardOf(roster, k + 1, |roster|) == [roster[k]]
    {
      assert Strided(roster, k + |roster|, |roster|) == [];
    }
  }

  /** The capture in one piece is judged as a whole. */
  lemma WholeMerges(setup: Setup, answers: map<string, seq<Row>>)
    requires GoodSetup(setup) && forall v <- setup.roster :: v in answers
    ensures exists dirs :: Captured(setup, answers, 1, dirs)
                           && (Merge(setup.suite, dirs).Accepted? <==> CompleteOk(setup.suite.batch, setup.roster, Concat(answers, setup.roster)))
  {
    hide CompleteOk, Merge, Concat;
    CaptureIsCaptured(setup, answers, 1);
    ExtremeShards(setup.roster);
    var dirs := Capture(setup, answers, 1);
    MergesIffComplete(setup, answers, 1, dirs);
    assert dirs == [DirectoryOf(setup, answers, 1, 1)];
  }

  lemma ConcatOne(answers: map<string, seq<Row>>, v: string)
    requires v in answers
    ensures Concat(answers, [v]) == answers[v]
  {
    assert [v][..0] == [] && [] + answers[v] == answers[v];
    assert Concat(answers, [v][..0]) == [];
  }

  /** The capture with one variant a shard is judged variant by variant. */
  lemma SinglesMerge(setup: Setup, answers: map<string, seq<Row>>)
    requires GoodSetup(setup) && forall v <- setup.roster :: v in answers
    ensures exists dirs :: Captured(setup, answers, |setup.roster|, dirs)
                           && (Merge(setup.suite, dirs).Accepted? <==> forall v <- setup.roster :: CompleteOk(setup.suite.batch, [v], answers[v]))
  {
    hide CompleteOk, Merge, Concat, Captured;
    var roster := setup.roster;
    CaptureIsCaptured(setup, answers, |roster|);
    ExtremeShards(roster);
    var dirs := Capture(setup, answers, |roster|);
    MergesIffComplete(setup, answers, |roster|, dirs);
    forall k | 0 <= k < |roster|
      ensures dirs[k].meta.variants == [roster[k]] && dirs[k].rows == answers[roster[k]]
    {
      ConcatOne(answers, roster[k]);
    }
    assert forall k | 0 <= k < |roster| :: dirs[k] in dirs && roster[k] in roster;
  }

  // --- answers that tell the two apart --------------------------------------------------------------------------

  function Line(id: string, state: Outcome): Row {
    Row(id, None, false, state, "", "")
  }

  /** A variant whose sub-test bears the name of the variant `w`; every other variant failed. */
  function DirectAnswers(roster: seq<string>, v: string, w: string): map<string, seq<Row>> {
    map u | u in roster :: if u == v then [Line(w, Pass)] else [Line(u, Fail)]
  }

  lemma OneRow(variants: seq<string>, u: string, row: Row)
    requires variants == [u]
    ensures CompleteOk(false, variants, [row]) <==> VariantOf(row, {u}) == u
  {
    var selected := Selected(variants);
    assert selected == {u};
    assert [row][..0] == [];
    assert Answers([row][..0], selected, u) == [];
    assert Answers([row], selected, u) == if VariantOf(row, selected) == u then [row.id] else [];
    assert row in [row];
  }

  /** Kept apart, the two variants are complete; taken together, `v` has no answer. */
  lemma DirectDiffers(setup: Setup, v: string, w: string)
    requires GoodSetup(setup) && v in setup.roster && w in setup.roster && v != w && Stem(w) == v
    ensures var answers := DirectAnswers(setup.roster, v, w);
            && !CompleteOk(false, setup.roster, Concat(answers, setup.roster))
            && forall u <- setup.roster :: CompleteOk(false, [u], answers[u])
  {
    hide Stem, Concat, Answers, Repeats, GoodSetup;
    var answers, roster := DirectAnswers(setup.roster, v, w), setup.roster;
    var selected, rows := Selected(roster), Concat(answers, roster);
    forall row <- rows
      ensures VariantOf(row, selected) != v
    {
      ConcatHolds(answers, roster, row);
    }
    AnsweredBy(rows, selected, v);
    assert !CompleteOk(false, roster, rows);
    hide CompleteOk;
    forall u <- roster
      ensures CompleteOk(false, [u], answers[u])
    {
      OneRow([u], u, answers[u][0]);
    }
  }

  lemma {:induction false} StemOfChild(v: string)
    ensures Stem(v + "/x") == v && Under(v + "/x", v)
  {
    var id := v + "/x";
    assert id[|v|] == '/' && id[..|id| - 1] == v + "/";
    assert (v + "/")[..|v|] == v;
    assert id[..|v| + 1] == v + "/";
  }

  lemma {:induction false} StemUnder(id: string)
    requires Stem(id) != id
    ensures Under(id, Stem(id))
  {
    if id[|id| - 1] == '/' {
      assert id == Stem(id) + "/";
    } else {
      var shorter := id[..|id| - 1];
      assert id == shorter + [id[|id| - 1]];
      if '/' in shorter {
        StemShorter(shorter);
        StemUnder(shorter);
        assert shorter <= id;
      }
    }
  }

  lemma {:induction false} StemShorter(id: string)
    requires '/' in id
    ensures |Stem(id)| < |id|
  {
    if id[|id| - 1] != '/' {
      assert id == id[..|id| - 1] + [id[|id| - 1]];
      StemShorter(id[..|id| - 1]);
    }
  }

  ghost predicate NoDirect(roster: seq<string>) {
    forall a, b | a in roster && b in roster && a != b :: Stem(b) != a
  }

  /** `v` has a sub-test `x` of its own and one that bears the name of `w`; `w`
      has a sub-test `y`; every other variant failed. */
  function DeepAnswers(roster: seq<string>, v: string, w: string, x: string, y: string): map<string, seq<Row>> {
    map u | u in roster ::
      if u == v then [Line(x, Pass), Line(w, Pass)] else if u == w then [Line(y, Pass)] else [Line(u, Fail)]
  }

  ghost predicate Fresh(roster: seq<string>, v: string, w: string, x: string, y: string) {
    && NoDirect(roster) && v in roster && w in roster && v != w
    && x !in roster && y !in roster && x != y && Stem(x) == v && Stem(y) == w
  }

  /** Sub-test ids that no variant bears. */
  lemma FreshChildren(roster: seq<string>, v: string, w: string)
    requires NoDirect(roster) && v in roster && w in roster && Under(w, v)
    ensures Fresh(roster, v, w, v + "/x", w + "/x")
  {
    hide Stem;
    StemOfChild(v);
    StemOfChild(w);
    assert |v| < |w| && |v + "/x"| > |v| && |w + "/x"| > |w|;
    assert |v + "/x"| < |w + "/x"|;
  }

  lemma {:induction false} IdsJoin(a: seq<Row>, b: seq<Row>)
    ensures Ids(a + b) == Ids(a) + Ids(b)
  {
    if b == [] {
      assert a + b == a;
    } else {
      assert (a + b)[..|a + b| - 1] == a + b[..|b| - 1];
      IdsJoin(a, b[..|b| - 1]);
    }
  }

  lemma {:induction false} IdsFrom(rows: seq<Row>, id: string)
    ensures id in Ids(rows) <==> exists row <- rows :: row.id == id
  {
    if rows != [] {
      IdsFrom(rows[..|rows| - 1], id);
      assert rows == rows[..|rows| - 1] + [rows[|rows| - 1]];
    }
  }

  /** Rows with distinct ids repeat none, however they are attributed. */
  lemma {:induction false} DistinctAnswers(rows: seq<Row>, selected: set<string>, t: string)
    requires Distinct(Ids(rows))
    ensures Distinct(Answers(rows, selected, t)) && forall id <- Answers(rows, selected, t) :: id in Ids(rows)
  {
    hide VariantOf;
    if rows != [] {
      var before, last := rows[..|rows| - 1], rows[|rows| - 1].id;
      assert Ids(rows) == Ids(before) + [last];
      DistinctLast(Ids(rows));
      assert Ids(rows)[..|Ids(rows)| - 1] == Ids(before);
      DistinctAnswers(before, selected, t);
    }
  }

  ghost predicate Apart(answers: map<string, seq<Row>>, order: seq<string>)
    requires forall u <- order :: u in answers
  {
    && (forall u <- order :: Distinct(Ids(answers[u])))
    && forall u, t | u in order && t in order && u != t :: forall a <- answers[u], b <- answers[t] :: a.id != b.id
  }

  lemma {:induction false} ConcatApart(answers: map<string, seq<Row>>, order: seq<string>)
    requires (forall u <- order :: u in answers) && Distinct(order) && Apart(answers, order)
    ensures Distinct(Ids(Concat(answers, order)))
  {
    if order != [] {
      var before, last := order[..|order| - 1], order[|order| - 1];
      DistinctLast(order);
      ConcatApart(answers, before);
      var rows, own := Concat(answers, before), answers[last];
      IdsJoin(rows, own);
      forall id <- Ids(own)
        ensures id !in Ids(rows)
      {
        IdsFrom(own, id);
        IdsFrom(rows, id);
        forall row <- rows
          ensures row.id != id
        {
          ConcatHolds(answers, before, row);
        }
      }
      DistinctJoin(Ids(rows), Ids(own));
    }
  }

  lemma DeepApart(roster: seq<string>, v: string, w: string, x: string, y: string)
    requires Fresh(roster, v, w, x, y)
    ensures Apart(DeepAnswers(roster, v, w, x, y), roster)
  {
    hide Stem, NoDirect, Ids;
    var answers := DeepAnswers(roster, v, w, x, y);
    forall u <- roster
      ensures Distinct(Ids(answers[u]))
    {
      IdsAt(answers[u]);
    }
    forall u, t | u in roster && t in roster && u != t
      ensures forall a: Row, b: Row | a in answers[u] && b in answers[t] :: a.id != b.id
    {
      DeepIds(roster, v, w, x, y, u);
      DeepIds(roster, v, w, x, y, t);
    }
  }

  /** Whose ids are whose. */
  lemma DeepIds(roster: seq<string>, v: string, w: string, x: string, y: string, u: string)
    requires Fresh(roster, v, w, x, y) && u in roster
    ensures forall row <- DeepAnswers(roster, v, w, x, y)[u] ::
              if row.id == x || row.id == w then u == v else if row.id == y then u == w else row.id == u
  {
    hide Stem, NoDirect;
  }

  lemma DeepHomes(roster: seq<string>, selected: set<string>, v: string, w: string, x: string, y: string, u: string, row: Row)
    requires Fresh(roster, v, w, x, y) && u in roster && row in DeepAnswers(roster, v, w, x, y)[u]
    requires forall t :: t in selected <==> t in roster
    ensures VariantOf(row, selected) == if row.id == w then w else u
  {
    hide Stem, NoDirect;
  }

  lemma DeepWhole(setup: Setup, v: string, w: string, x: string, y: string)
    requires GoodSetup(setup) && Fresh(setup.roster, v, w, x, y)
    ensures var answers := DeepAnswers(setup.roster, v, w, x, y); CompleteOk(false, setup.roster, Concat(answers, setup.roster))
  {
    hide Apart, VariantOf, Concat, Answers, Ids;
    var roster := setup.roster;
    var answers := DeepAnswers(roster, v, w, x, y);
    var selected, rows := Selected(roster), Concat(answers, roster);
    DeepApart(roster, v, w, x, y);
    ConcatApart(answers, roster);
    forall u <- roster, row <- answers[u]
      ensures VariantOf(row, selected) == (if row.id == w then w else u) && row in rows
    {
      DeepHomes(roster, selected, v, w, x, y, u, row);
      ConcatHolds(answers, roster, row);
    }
    hide Fresh;
    forall row <- rows
      ensures VariantOf(row, selected) in selected
    {
      ConcatHolds(answers, roster, row);
    }
    forall u <- roster
      ensures Answers(rows, selected, u) != [] && !Repeats(Answers(rows, selected, u))
    {
      DeepAnswered(roster, v, w, x, y, u);
      AnsweredBy(rows, selected, u);
      DistinctAnswers(rows, selected, u);
    }
  }

  lemma DeepAnswered(roster: seq<string>, v: string, w: string, x: string, y: string, u: string)
    requires Fresh(roster, v, w, x, y) && u in roster
    ensures exists row <- DeepAnswers(roster, v, w, x, y)[u] :: row.id != w || u == w
  {
    hide Stem, NoDirect;
    var rows := DeepAnswers(roster, v, w, x, y)[u];
    assert rows[0] in rows;
  }

  lemma DeepAlone(roster: seq<string>, v: string, w: string, x: string, y: string)
    requires Fresh(roster, v, w, x, y)
    ensures !CompleteOk(false, [v], DeepAnswers(roster, v, w, x, y)[v])
  {
    hide Stem;
    var rows := DeepAnswers(roster, v, w, x, y)[v];
    assert Selected([v]) == {v};
    assert rows[1] in rows && VariantOf(rows[1], {v}) == w;
  }

  lemma DeepRuns(setup: Setup, v: string, w: string, x: string, y: string)
    requires !setup.suite.batch && Under(x, v) && Under(w, v) && Under(y, w)
    ensures Answered(setup, DeepAnswers(setup.roster, v, w, x, y))
  {
    hide Under;
  }

  lemma DirectRuns(setup: Setup, v: string, w: string)
    requires !setup.suite.batch && Under(w, v)
    ensures Answered(setup, DirectAnswers(setup.roster, v, w))
  {
    hide Under;
  }

  // --- the condition is exact -----------------------------------------------------------------------------------

  lemma Differ(setup: Setup, answers: map<string, seq<Row>>)
    requires GoodSetup(setup) && Answered(setup, answers)
    requires CompleteOk(setup.suite.batch, setup.roster, Concat(answers, setup.roster)) <==>
             !forall u <- setup.roster :: CompleteOk(setup.suite.batch, [u], answers[u])
    ensures !Independent(setup)
  {
    hide CompleteOk, Captured, GoodSetup, RunRows, Merge, Accept, Passes;
    WholeMerges(setup, answers);
    SinglesMerge(setup, answers);
    var whole :| Captured(setup, answers, 1, whole)
                 && (Merge(setup.suite, whole).Accepted? <==> CompleteOk(setup.suite.batch, setup.roster, Concat(answers, setup.roster)));
    var singles :| Captured(setup, answers, |setup.roster|, singles)
                   && (Merge(setup.suite, singles).Accepted? <==> forall v <- setup.roster :: CompleteOk(setup.suite.batch, [v], answers[v]));
    var brief: string -> string := text => text;
    var none := Expectation("", 0, map[]);
    var accepted := if Merge(setup.suite, whole).Accepted? then whole else singles;
    AcceptedPasses(setup.suite, brief, none, whole);
    AcceptedPasses(setup.suite, brief, none, singles);
    PassesMerges(setup.suite, Accept(setup.suite, brief, none, accepted).value, whole);
    PassesMerges(setup.suite, Accept(setup.suite, brief, none, accepted).value, singles);
  }

  lemma PassesMerges(suite: Suite, expectation: Expectation, dirs: seq<Directory>)
    ensures Passes(suite, expectation, dirs) ==> Merge(suite, dirs).Accepted?
  {
  }

  /** The verdict is independent of the sharding exactly for batch suites, whose rows
      name their parents, and for rosters without nested variants. */
  lemma IndependentIffSeparable(setup: Setup)
    requires GoodSetup(setup)
    ensures Independent(setup) <==> setup.suite.batch || NoNested(setup.roster)
  {
    hide Independent, CompleteOk, Stem, Concat, Answered, Under, DeepAnswers, DirectAnswers;
    var roster := setup.roster;
    if setup.suite.batch || NoNested(roster) {
      SeparableIsIndependent(setup);
    } else if NoDirect(roster) {
      var v, w :| v in roster && w in roster && Under(w, v);
      var x, y := v + "/x", w + "/x";
      FreshChildren(roster, v, w);
      StemOfChild(v);
      StemOfChild(w);
      DeepRuns(setup, v, w, x, y);
      DeepWhole(setup, v, w, x, y);
      DeepAlone(roster, v, w, x, y);
      Differ(setup, DeepAnswers(roster, v, w, x, y));
    } else {
      var v, w :| v in roster && w in roster && v != w && Stem(w) == v;
      DirectDiffers(setup, v, w);
      StemUnder(w);
      DirectRuns(setup, v, w);
      Differ(setup, DirectAnswers(roster, v, w));
    }
  }

  // --- what is accepted ------------------------------------------------------------------------------------------

  /** The accepted file depends on nothing but the answers. */
  ghost predicate AcceptIndependent(setup: Setup) {
    forall answers, m, n, a, b, brief: string -> string, expectation |
      Answered(setup, answers) && Captured(setup, answers, m, a) && Captured(setup, answers, n, b) ::
      Accept(setup.suite, brief, expectation, a) == Accept(setup.suite, brief, expectation, b)
  }

  function BatchLine(id: string, parent: string, state: Outcome, reason: string): Row {
    Row(id, Some(parent), true, state, reason, "")
  }

  /** `w` fails, and so does a sub-test of `v` that bears its name, for another reason. */
  function BatchTwice(roster: seq<string>, v: string, w: string): map<string, seq<Row>> {
    map u | u in roster ::
      if u == v then [BatchLine(v, v, Pass, ""), BatchLine(w, v, Fail, "sub-test")]
      else [BatchLine(u, u, Fail, "variant")]
  }

  lemma BatchTwiceRuns(setup: Setup, v: string, w: string)
    requires setup.suite.batch && w in setup.roster && v != w && Under(w, v)
    ensures var answers := BatchTwice(setup.roster, v, w); Answered(setup, answers) && AllOwn(true, answers, setup.roster)
  {
    hide Under;
    var answers := BatchTwice(setup.roster, v, w);
    forall u <- setup.roster
      ensures RunRows(true, u, answers[u]) && AnswerOk(true, u, answers[u])
    {
      IdsAt(answers[u]);
      assert answers[u][0] in answers[u];
    }
  }

  lemma Listing(items: set<string>) returns (order: seq<string>)
    ensures Distinct(order) && forall v :: v in order <==> v in items
  {
    if items == {} {
      order := [];
    } else {
      var v :| v in items;
      var rest := Listing(items - {v});
      order := rest + [v];
    }
  }

  /** A capture in one piece, its variants finished in the given order. */
  lemma OnePiece(setup: Setup, answers: map<string, seq<Row>>, order: seq<string>)
    requires GoodSetup(setup) && (forall v <- setup.roster :: v in answers) && Reorders(order, setup.roster)
    ensures Captured(setup, answers, 1, [Directory(MetaOf(setup, 1, 1), Concat(answers, order))])
  {
    hide Concat, Shard;
    ExtremeShards(setup.roster);
    var dirs := [Directory(MetaOf(setup, 1, 1), Concat(answers, order))];
    assert RowsOf(answers, setup.roster, order, dirs[0].rows);
    assert CapturedOne(setup, answers, 1, dirs[0]) && dirs[0] in dirs;
    assert HasIndex(dirs, 1);
  }

  lemma OneDirectory(d: Directory)
    ensures AllRows([d]) == d.rows
  {
    assert [d][..0] == [];
  }

  /** The last row's reason is the one accepted for a failure nothing named before. */
  lemma LastReason(suite: Suite, brief: string -> string, dirs: seq<Directory>, rows: seq<Row>)
    requires Merge(suite, dirs).Accepted? && Merge(suite, dirs).value.rows == rows
    requires rows != [] && rows[|rows| - 1].state == Fail && rows[|rows| - 1].reason != ""
    ensures var r, last := Accept(suite, brief, Expectation("", 0, map[]), dirs), rows[|rows| - 1];
            r.Accepted? && last.id in r.value.failing && r.value.failing[last.id].reason == Some(last.reason)
  {
    hide Merge;
  }

  lemma LastRow(answers: map<string, seq<Row>>, order: seq<string>)
    requires order != [] && (forall v <- order :: v in answers) && answers[order[|order| - 1]] != []
    ensures var rows, own := Concat(answers, order), answers[order[|order| - 1]];
            rows != [] && rows[|rows| - 1] == own[|own| - 1]
  {
  }

  lemma LastTwo(roster: seq<string>, others: seq<string>, a: string, b: string)
    requires a in roster && b in roster && a != b
    requires Distinct(others) && forall u :: u in others <==> u in roster && u != a && u != b
    ensures Reorders(others + [a] + [b], roster)
  {
    DistinctJoin(others, [a]);
    DistinctJoin(others + [a], [b]);
  }

  /** The row that finished last is the one whose reason is accepted. */
  lemma LastAccepted(setup: Setup, brief: string -> string, v: string, w: string, order: seq<string>) returns (dirs: seq<Directory>)
    requires GoodSetup(setup) && setup.suite.batch && w in setup.roster && v != w && Under(w, v)
    requires order != [] && Reorders(order, setup.roster) && (order[|order| - 1] == v || order[|order| - 1] == w)
    ensures Captured(setup, BatchTwice(setup.roster, v, w), 1, dirs)
    ensures var r := Accept(setup.suite, brief, Expectation("", 0, map[]), dirs);
            && r.Accepted? && w in r.value.failing
            && r.value.failing[w].reason == Some(if order[|order| - 1] == v then "sub-test" else "variant")
  {
    var answers := BatchTwice(setup.roster, v, w);
    hide Concat, AllOwn, Answered, Shard, Under, Captured, Merge, AllRows, GoodSetup, Accept, Distinct;
    var d := Directory(MetaOf(setup, 1, 1), Concat(answers, order));
    assert order[|order| - 1] in order;
    LastRow(answers, order);
    OnePiece(setup, answers, order);
    BatchTwiceRuns(setup, v, w);
    MergesIffAnswers(setup, answers, 1, [d]);
    MergesIffComplete(setup, answers, 1, [d]);
    OneDirectory(d);
    LastReason(setup.suite, brief, [d], d.rows);
    dirs := [d];
  }

  /** What is accepted is independent of sharding and order exactly when no variants nest,
      for batch suites too: two rows may then share an id, and the later one counts. */
  lemma AcceptIffNoNested(setup: Setup)
    requires GoodSetup(setup)
    ensures AcceptIndependent(setup) <==> NoNested(setup.roster)
  {
    hide GoodSetup, Answered, Captured, Accept, Passes, Under;
    if NoNested(setup.roster) {
      forall answers, m, n, a, b, brief: string -> string, expectation |
        Answered(setup, answers) && Captured(setup, answers, m, a) && Captured(setup, answers, n, b)
        ensures Accept(setup.suite, brief, expectation, a) == Accept(setup.suite, brief, expectation, b)
      {
        AcceptSame(setup, answers, brief, expectation, m, n, a, b);
      }
    } else if !setup.suite.batch {
      IndependentIffSeparable(setup);
      AcceptToCheck(setup);
    } else {
      BatchDepends(setup);
    }
  }

  /** If the accepted file depends on the answers only, so does the verdict. */
  lemma AcceptToCheck(setup: Setup)
    ensures AcceptIndependent(setup) ==> Independent(setup)
  {
    hide Answered, Captured, Accept, Passes;
    var brief: string -> string := text => text;
    if AcceptIndependent(setup) {
      forall answers, m, n, a, b, expectation |
        Answered(setup, answers) && Captured(setup, answers, m, a) && Captured(setup, answers, n, b)
        ensures Passes(setup.suite, expectation, a) <==> Passes(setup.suite, expectation, b)
      {
        PassesIffAccepted(setup.suite, brief, expectation, a);
        PassesIffAccepted(setup.suite, brief, expectation, b);
      }
    }
  }

  lemma BatchDepends(setup: Setup)
    requires GoodSetup(setup) && setup.suite.batch && !NoNested(setup.roster)
    ensures !AcceptIndependent(setup)
  {
    hide Accept, Captured, Answered, GoodSetup, AllOwn, BatchTwice, Distinct, Reorders, Selected;
    var v, w :| v in setup.roster && w in setup.roster && Under(w, v);
    assert v != w;
    hide Under;
    var answers := BatchTwice(setup.roster, v, w);
    BatchTwiceRuns(setup, v, w);
    var others := Listing((set u | u in setup.roster) - {v, w});
    LastTwo(setup.roster, others, v, w);
    LastTwo(setup.roster, others, w, v);
    var brief: string -> string := text => text;
    var a := LastAccepted(setup, brief, v, w, others + [w] + [v]);
    var b := LastAccepted(setup, brief, v, w, others + [v] + [w]);
    assert "sub-test" != "variant";
    assert Accept(setup.suite, brief, Expectation("", 0, map[]), a) != Accept(setup.suite, brief, Expectation("", 0, map[]), b);
  }
}
