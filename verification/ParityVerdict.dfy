/** When the verdict of `check` (scripts/parity.py) does not depend on how the roster was
    split into shards, nor on the order of directories and rows. */
module ParityVerdict {
  import opened Results
  import opened ParityResults
  import opened ParityShards

  /** The id of a sub-test of `v`, or deeper. */
  predicate Under(id: string, v: string) {
    v + "/" <= id
  }

  /** No variant's id could be a sub-test id of another. */
  ghost predicate NoNested(roster: seq<string>) {
    forall v, w | v in roster && w in roster :: !Under(w, v)
  }

  /** What one process prints about its variant: the variant itself failed, or
      there are sub-tests. */
  predicate ProcessRows(v: string, rows: seq<Row>) {
    && rows != []
    && (forall row <- rows :: row.parent.None?)
    && ((|rows| == 1 && rows[0].id == v && rows[0].state == Fail) || forall row <- rows :: Under(row.id, v))
  }

  /** What a batch runner publishes about a variant: every row names it as its parent. */
  predicate BatchRows(v: string, rows: seq<Row>) {
    rows != [] && forall row <- rows :: row.parent == Some(v) && (row.id == v || Under(row.id, v))
  }

  predicate RunRows(batch: bool, v: string, rows: seq<Row>) {
    if batch then BatchRows(v, rows) else ProcessRows(v, rows)
  }

  ghost predicate Answered(setup: Setup, answers: map<string, seq<Row>>) {
    forall v <- setup.roster :: v in answers && RunRows(setup.suite.batch, v, answers[v])
  }

  /** The variant's rows would be complete on their own. */
  predicate AnswerOk(batch: bool, v: string, rows: seq<Row>) {
    && !Repeats(Ids(rows))
    && if batch then exists row <- rows :: row.id == v && row.native
       else forall row <- rows :: row.id == v || Stem(row.id) == v
  }

  /** The rosters whose rows can be told apart: a batch row names its parent, other
      rows have only their ids. */
  ghost predicate Separable(setup: Setup) {
    setup.suite.batch || NoNested(setup.roster)
  }

  function Ids(rows: seq<Row>): seq<string> {
    if rows == [] then [] else Ids(rows[..|rows| - 1]) + [rows[|rows| - 1].id]
  }

  // --- attribution -----------------------------------------------------------------------------------

  lemma {:induction false} StemKeeps(id: string, v: string)
    requires Under(id, v)
    ensures Stem(id) == v || Under(Stem(id), v)
  {
    var n := |v| + 1;
    assert id[|v|] == '/' && id[..n] == v + "/";
    if id[|id| - 1] == '/' {
      if |id| == n {
        assert id[..|id| - 1] == v;
      } else {
        assert id[..|id| - 1][..n] == id[..n];
      }
    } else {
      assert id[..|id| - 1][..n] == id[..n];
      StemKeeps(id[..|id| - 1], v);
    }
  }

  /** Without nested variants, a row belongs to the variant that printed it or to none. */
  lemma Attribution(roster: seq<string>, selected: set<string>, v: string, row: Row)
    requires NoNested(roster) && v in selected && (forall u <- selected :: u in roster)
    requires row.parent.None? && (row.id == v || Under(row.id, v))
    ensures VariantOf(row, selected) == if row.id == v || Stem(row.id) == v then v else row.id
    ensures row.id != v ==> row.id !in roster
  {
    hide Stem;
    if row.id != v {
      StemKeeps(row.id, v);
    }
  }

  lemma RowsOwned(batch: bool, v: string, rows: seq<Row>, row: Row)
    requires RunRows(batch, v, rows) && row in rows
    ensures row.parent == (if batch then Some(v) else None) && (row.id == v || Under(row.id, v))
  {
    hide Under;
  }

  // --- one directory -----------------------------------------------------------------------------------

  lemma {:induction false} AnswersJoin(a: seq<Row>, b: seq<Row>, selected: set<string>, v: string)
    ensures Answers(a + b, selected, v) == Answers(a, selected, v) + Answers(b, selected, v)
  {
    hide VariantOf;
    if b == [] {
      assert a + b == a;
    } else {
      var before := b[..|b| - 1];
      assert (a + b)[..|a + b| - 1] == a + before;
      AnswersJoin(a, before, selected, v);
    }
  }

  lemma {:induction false} AnswersAll(rows: seq<Row>, selected: set<string>, u: string, v: string)
    requires forall row <- rows :: VariantOf(row, selected) == u
    ensures Answers(rows, selected, v) == if u == v then Ids(rows) else []
  {
    hide VariantOf;
    if rows != [] {
      assert rows[|rows| - 1] in rows;
      AnswersAll(rows[..|rows| - 1], selected, u, v);
    }
  }

  ghost predicate OwnRows(answers: map<string, seq<Row>>, selected: set<string>, u: string)
    requires u in answers
  {
    forall row <- answers[u] :: VariantOf(row, selected) == u
  }

  /** When every row belongs to its variant, a directory's rows group as they were printed. */
  lemma {:induction false} AnswersPrinted(answers: map<string, seq<Row>>, order: seq<string>, selected: set<string>, v: string)
    requires Distinct(order) && forall u <- order :: u in answers && OwnRows(answers, selected, u)
    ensures Answers(Concat(answers, order), selected, v) == if v in order then Ids(answers[v]) else []
  {
    hide VariantOf, Ids, OwnRows, Answers;
    if order == [] {
      NoAnswers(selected, v);
    } else {
      var before, last := order[..|order| - 1], order[|order| - 1];
      DistinctLast(order);
      AnswersPrinted(answers, before, selected, v);
      AnswersJoin(Concat(answers, before), answers[last], selected, v);
      OwnAnswers(answers, selected, last, v);
    }
  }

  lemma NoAnswers(selected: set<string>, v: string)
    ensures Answers([], selected, v) == []
  {
  }

  lemma OwnAnswers(answers: map<string, seq<Row>>, selected: set<string>, u: string, v: string)
    requires u in answers && OwnRows(answers, selected, u)
    ensures Answers(answers[u], selected, v) == if u == v then Ids(answers[u]) else []
  {
    AnswersAll(answers[u], selected, u, v);
  }

  lemma DistinctLast(order: seq<string>)
    requires Distinct(order) && order != []
    ensures Distinct(order[..|order| - 1])
    ensures forall v :: v in order <==> v in order[..|order| - 1] || v == order[|order| - 1]
    ensures order[|order| - 1] !in order[..|order| - 1]
  {
    assert order == order[..|order| - 1] + [order[|order| - 1]];
  }

  lemma {:induction false} ConcatHolds(answers: map<string, seq<Row>>, order: seq<string>, row: Row)
    requires forall v <- order :: v in answers
    ensures row in Concat(answers, order) <==> exists v <- order :: row in answers[v]
  {
    if order != [] {
      var before, last := order[..|order| - 1], order[|order| - 1];
      assert order == before + [last];
      ConcatHolds(answers, before, row);
    }
  }

  ghost predicate AllOwn(batch: bool, answers: map<string, seq<Row>>, variants: seq<string>) {
    forall v <- variants :: v in answers && AnswerOk(batch, v, answers[v])
  }

  /** Without nested variants, a directory of process rows is complete exactly when
      the answers of its variants are. */
  lemma CompleteIffProcesses(setup: Setup, answers: map<string, seq<Row>>, variants: seq<string>, order: seq<string>, rows: seq<Row>)
    requires !setup.suite.batch && NoNested(setup.roster) && Answered(setup, answers) && (forall v <- variants :: v in setup.roster)
    requires RowsOf(answers, variants, order, rows)
    ensures CompleteOk(false, variants, rows) <==> AllOwn(false, answers, variants)
  {
    var selected := Selected(variants);
    hide Repeats, RunRows, Stem, Concat, Answers, NoNested, Selected;
    forall v <- variants, row <- answers[v]
      ensures row in rows
      ensures VariantOf(row, selected) == if row.id == v || Stem(row.id) == v then v else row.id
      ensures row.id != v ==> row.id !in setup.roster
    {
      ConcatHolds(answers, order, row);
      RowsOwned(false, v, answers[v], row);
      InSelected(variants, setup.roster);
      Attribution(setup.roster, selected, v, row);
    }
    hide VariantOf;
    if CompleteOk(false, variants, rows) {
      forall v <- variants, row <- answers[v]
        ensures row.id == v || Stem(row.id) == v
      {
        InSelected(variants, setup.roster);
        assert VariantOf(row, selected) in selected;
      }
      forall v <- variants
        ensures AnswerOk(false, v, answers[v])
      {
        assert forall u <- order :: OwnRows(answers, selected, u);
        AnswersPrinted(answers, order, selected, v);
      }
    }
    if AllOwn(false, answers, variants) {
      forall v <- variants
        ensures Answers(rows, selected, v) == Ids(answers[v]) != []
      {
        assert forall u <- order :: OwnRows(answers, selected, u);
        AnswersPrinted(answers, order, selected, v);
        IdsNonempty(false, v, answers[v]);
      }
      forall row <- rows
        ensures VariantOf(row, selected) in selected
      {
        ConcatHolds(answers, order, row);
        InSelected(variants, setup.roster);
      }
    }
  }

  /** A directory of batch rows likewise, with no condition on the roster. */
  lemma CompleteIffBatches(setup: Setup, answers: map<string, seq<Row>>, variants: seq<string>, order: seq<string>, rows: seq<Row>)
    requires setup.suite.batch && Answered(setup, answers) && (forall v <- variants :: v in setup.roster)
    requires RowsOf(answers, variants, order, rows)
    ensures CompleteOk(true, variants, rows) <==> AllOwn(true, answers, variants)
  {
    var selected := Selected(variants);
    hide Repeats, RunRows, Concat, Answers, Under, Ids;
    forall v <- variants, row <- answers[v]
      ensures row in rows && row.parent == Some(v) && VariantOf(row, selected) == v
    {
      ConcatHolds(answers, order, row);
      RowsOwned(true, v, answers[v], row);
      ParentOwns(selected, v, row);
    }
    forall row <- rows
      ensures exists v <- variants :: row in answers[v]
    {
      ConcatHolds(answers, order, row);
    }
    hide VariantOf, RowsOf;
    BatchAnswers(setup, answers, variants, order, rows);
    BatchRoots(answers, variants, rows);
  }

  lemma ParentOwns(selected: set<string>, v: string, row: Row)
    requires v in selected && row.parent == Some(v) && (row.id == v || Under(row.id, v))
    ensures VariantOf(row, selected) == v
  {
  }

  lemma BatchAnswers(setup: Setup, answers: map<string, seq<Row>>, variants: seq<string>, order: seq<string>, rows: seq<Row>)
    requires setup.suite.batch && Answered(setup, answers) && (forall v <- variants :: v in setup.roster)
    requires RowsOf(answers, variants, order, rows)
    requires forall v <- variants :: forall row <- answers[v] :: VariantOf(row, Selected(variants)) == v
    ensures forall v <- variants :: Answers(rows, Selected(variants), v) == Ids(answers[v]) != []
  {
    hide Repeats, RunRows, Concat, Answers, VariantOf, Ids;
    forall v <- variants
      ensures Answers(rows, Selected(variants), v) == Ids(answers[v]) != []
    {
      assert forall u <- order :: OwnRows(answers, Selected(variants), u);
      AnswersPrinted(answers, order, Selected(variants), v);
      IdsNonempty(true, v, answers[v]);
    }
  }

  /** The roots are the selected variants exactly when each has its own measured root. */
  lemma BatchRoots(answers: map<string, seq<Row>>, variants: seq<string>, rows: seq<Row>)
    requires forall v <- variants :: v in answers && forall row <- answers[v] :: row in rows && row.parent == Some(v)
    requires forall row <- rows :: exists v <- variants :: row in answers[v]
    ensures Roots(rows) == Selected(variants) <==> forall v <- variants :: exists row <- answers[v] :: row.id == v && row.native
  {
    forall v <- variants
      ensures v in Roots(rows) <==> exists row <- answers[v] :: row.id == v && row.native
    {
      if v in Roots(rows) {
        var row :| row in rows && row.parent == Some(row.id) && row.native && row.id == v;
        var u :| u in variants && row in answers[u];
      }
    }
    assert forall id <- Roots(rows) :: id in variants;
    assert Roots(rows) == Selected(variants) <==> forall v <- variants :: v in Roots(rows);
  }

  /** A directory is complete exactly when the answers of its variants are. */
  lemma CompleteIffAnswers(setup: Setup, answers: map<string, seq<Row>>, variants: seq<string>, order: seq<string>, rows: seq<Row>)
    requires Separable(setup) && Answered(setup, answers) && (forall v <- variants :: v in setup.roster)
    requires RowsOf(answers, variants, order, rows)
    ensures CompleteOk(setup.suite.batch, variants, rows) <==> AllOwn(setup.suite.batch, answers, variants)
  {
    hide CompleteOk, AnswerOk, NoNested, RunRows;
    if setup.suite.batch {
      CompleteIffBatches(setup, answers, variants, order, rows);
    } else {
      CompleteIffProcesses(setup, answers, variants, order, rows);
    }
  }

  lemma InSelected(variants: seq<string>, roster: seq<string>)
    requires forall v <- variants :: v in roster
    ensures (forall v :: v in Selected(variants) <==> v in variants) && forall v <- Selected(variants) :: v in roster
  {
  }

  lemma IdsNonempty(batch: bool, v: string, rows: seq<Row>)
    requires RunRows(batch, v, rows)
    ensures Ids(rows) != []
  {
  }

  // --- the whole capture ------------------------------------------------------------------------------------

  lemma {:induction false} AllRowsHold(dirs: seq<Directory>, row: Row)
    ensures row in AllRows(dirs) <==> exists d <- dirs :: row in d.rows
  {
    if dirs != [] {
      AllRowsHold(dirs[..|dirs| - 1], row);
      assert dirs == dirs[..|dirs| - 1] + [dirs[|dirs| - 1]];
    }
  }

  /** Every variant of the roster is in some directory. */
  lemma HasDirectory(setup: Setup, answers: map<string, seq<Row>>, count: int, dirs: seq<Directory>, v: string)
    requires GoodSetup(setup) && Captured(setup, answers, count, dirs)
    ensures v in setup.roster <==> exists d <- dirs :: v in d.meta.variants
  {
    hide Captured, GoodSetup;
    VariantsCover(setup, answers, count, dirs);
    VariantsFrom(dirs, v);
    assert v in Selected(AllVariants(dirs)) <==> v in Selected(setup.roster);
  }

  /** The rows of a capture are those of the roster's variants. */
  lemma CapturedRows(setup: Setup, answers: map<string, seq<Row>>, count: int, dirs: seq<Directory>, row: Row)
    requires GoodSetup(setup) && Captured(setup, answers, count, dirs) && forall v <- setup.roster :: v in answers
    ensures row in AllRows(dirs) <==> exists v <- setup.roster :: row in answers[v]
  {
    hide Shard, Concat;
    AllRowsHold(dirs, row);
    forall d <- dirs
      ensures row in d.rows <==> exists v <- d.meta.variants :: v in answers && row in answers[v]
      ensures forall v <- d.meta.variants :: v in setup.roster
    {
      assert CapturedOne(setup, answers, count, d);
      var order :| RowsOf(answers, d.meta.variants, order, d.rows);
      ConcatHolds(answers, order, row);
      ShardWithin(setup.roster, count, d.meta.index);
    }
    forall v <- setup.roster
      ensures exists d <- dirs :: v in d.meta.variants
    {
      HasDirectory(setup, answers, count, dirs, v);
    }
  }

  ghost predicate Fails(setup: Setup, answers: map<string, seq<Row>>, id: string)
    requires forall v <- setup.roster :: v in answers
  {
    exists v <- setup.roster :: exists row <- answers[v] :: row.state == Fail && row.id == id
  }

  lemma FailingIffFails(setup: Setup, answers: map<string, seq<Row>>, count: int, dirs: seq<Directory>, id: string)
    requires GoodSetup(setup) && Captured(setup, answers, count, dirs) && forall v <- setup.roster :: v in answers
    ensures id in Failing(AllRows(dirs)) <==> Fails(setup, answers, id)
  {
    hide Captured, GoodSetup, AllRows, Failing;
    var rows := AllRows(dirs);
    FailingHolds(rows);
    if id in Failing(rows) {
      CapturedRows(setup, answers, count, dirs, Failing(rows)[id]);
    }
    if Fails(setup, answers, id) {
      var v :| v in setup.roster && exists row <- answers[v] :: row.state == Fail && row.id == id;
      var row :| row in answers[v] && row.state == Fail && row.id == id;
      CapturedRows(setup, answers, count, dirs, row);
    }
  }

  /** A capture merges exactly when every variant's answer is complete on its own. */
  lemma MergesIffAnswers(setup: Setup, answers: map<string, seq<Row>>, count: int, dirs: seq<Directory>)
    requires GoodSetup(setup) && Separable(setup) && Answered(setup, answers) && Captured(setup, answers, count, dirs)
    ensures Merge(setup.suite, dirs).Accepted? <==> AllOwn(setup.suite.batch, answers, setup.roster)
  {
    hide CompleteOk, AnswerOk, Separable, RunRows, RowsOf, Merge, Shard;
    MergesIffComplete(setup, answers, count, dirs);
    forall d <- dirs
      ensures CompleteOk(setup.suite.batch, d.meta.variants, d.rows) <==> AllOwn(setup.suite.batch, answers, d.meta.variants)
      ensures forall v <- d.meta.variants :: v in setup.roster
    {
      assert CapturedOne(setup, answers, count, d);
      var order :| RowsOf(answers, d.meta.variants, order, d.rows);
      ShardWithin(setup.roster, count, d.meta.index);
      CompleteIffAnswers(setup, answers, d.meta.variants, order, d.rows);
    }
    forall v <- setup.roster
      ensures exists d <- dirs :: v in d.meta.variants
    {
      HasDirectory(setup, answers, count, dirs, v);
    }
  }

  /** The verdict in terms of the roster and the answers alone: shards, orders and
      directories do not occur in it. */
  lemma PassesIff(setup: Setup, answers: map<string, seq<Row>>, count: int, dirs: seq<Directory>, expectation: Expectation)
    requires GoodSetup(setup) && Separable(setup) && Answered(setup, answers) && Captured(setup, answers, count, dirs)
    ensures Passes(setup.suite, expectation, dirs) <==>
              && AllOwn(setup.suite.batch, answers, setup.roster)
              && expectation.pin == setup.pin && expectation.total == |setup.roster|
              && forall id :: id in expectation.failing <==> Fails(setup, answers, id)
  {
    hide AllOwn, Separable, Fails, Merge, Captured, GoodSetup, RunRows, AllRows, Failing;
    MergesIffAnswers(setup, answers, count, dirs);
    MergesIffComplete(setup, answers, count, dirs);
    forall id
      ensures id in Failing(AllRows(dirs)) <==> Fails(setup, answers, id)
    {
      FailingIffFails(setup, answers, count, dirs, id);
    }
  }

  // --- accepting -------------------------------------------------------------------------------------------------

  lemma {:induction false} IdsAt(rows: seq<Row>)
    ensures |Ids(rows)| == |rows| && forall k | 0 <= k < |rows| :: Ids(rows)[k] == rows[k].id
  {
    if rows != [] {
      IdsAt(rows[..|rows| - 1]);
    }
  }

  /** An id under two names puts one under the other. */
  lemma OneOwner(v: string, w: string, id: string)
    requires (id == v || Under(id, v)) && (id == w || Under(id, w))
    ensures v == w || Under(v, w) || Under(w, v)
  {
    if |v| < |w| {
      assert w <= id;
      assert v + "/" == id[..|v| + 1] == w[..|v| + 1];
    } else if |w| < |v| {
      assert v <= id;
      assert w + "/" == id[..|w| + 1] == v[..|w| + 1];
    } else {
      assert v == id[..|v|] == w;
    }
  }

  /** Without nested variants, complete answers never share an id. */
  lemma IdsUnique(setup: Setup, answers: map<string, seq<Row>>, v: string, w: string, a: Row, b: Row)
    requires NoNested(setup.roster) && Answered(setup, answers) && AllOwn(setup.suite.batch, answers, setup.roster)
    requires v in setup.roster && w in setup.roster && a in answers[v] && b in answers[w] && a.id == b.id
    ensures a == b
  {
    var batch := setup.suite.batch;
    RowsOwned(batch, v, answers[v], a);
    RowsOwned(batch, w, answers[w], b);
    OneOwner(v, w, a.id);
    var rows := answers[v];
    assert AnswerOk(batch, v, rows) && v == w;
    hide RunRows, Stem, Under, NoNested, AllOwn, Answered;
    IdsAt(rows);
    var i :| 0 <= i < |rows| && rows[i] == a;
    var j :| 0 <= j < |rows| && rows[j] == b;
    assert i != j ==> Repeats(Ids(rows));
  }

  /** Two captures of the same answers accept to the same expectation. */
  lemma AcceptSame(setup: Setup, answers: map<string, seq<Row>>, brief: string -> string, expectation: Expectation,
                   m: int, n: int, a: seq<Directory>, b: seq<Directory>)
    requires GoodSetup(setup) && NoNested(setup.roster) && Answered(setup, answers)
    requires Captured(setup, answers, m, a) && Captured(setup, answers, n, b)
    ensures Accept(setup.suite, brief, expectation, a) == Accept(setup.suite, brief, expectation, b)
  {
    hide AllOwn, NoNested, Fails, Merge, Captured, GoodSetup, RunRows, AllRows, Failing, Refreshed, Named;
    MergesIffAnswers(setup, answers, m, a);
    MergesIffAnswers(setup, answers, n, b);
    MergesIffComplete(setup, answers, m, a);
    MergesIffComplete(setup, answers, n, b);
    if AllOwn(setup.suite.batch, answers, setup.roster) {
      var first, second := Failing(AllRows(a)), Failing(AllRows(b));
      FailingHolds(AllRows(a));
      FailingHolds(AllRows(b));
      forall id
        ensures id in first <==> id in second
        ensures id in first ==> first[id] == second[id]
      {
        FailingIffFails(setup, answers, m, a, id);
        FailingIffFails(setup, answers, n, b, id);
        if id in first {
          CapturedRows(setup, answers, m, a, first[id]);
          CapturedRows(setup, answers, n, b, second[id]);
          var v :| v in setup.roster && first[id] in answers[v];
          var w :| w in setup.roster && second[id] in answers[w];
          IdsUnique(setup, answers, v, w, first[id], second[id]);
        }
      }
      assert first == second;
    }
  }

  /** The verdict depends on nothing but the answers. */
  ghost predicate Independent(setup: Setup) {
    forall answers, m, n, a, b, expectation |
      Answered(setup, answers) && Captured(setup, answers, m, a) && Captured(setup, answers, n, b) ::
      Passes(setup.suite, expectation, a) <==> Passes(setup.suite, expectation, b)
  }

  lemma SeparableIsIndependent(setup: Setup)
    requires GoodSetup(setup) && Separable(setup)
    ensures Independent(setup)
  {
    hide GoodSetup, Separable, Answered, Captured, Passes, AllOwn, Fails;
    forall answers, m, n, a, b, expectation |
      Answered(setup, answers) && Captured(setup, answers, m, a) && Captured(setup, answers, n, b)
      ensures Passes(setup.suite, expectation, a) <==> Passes(setup.suite, expectation, b)
    {
      PassesIff(setup, answers, m, a, expectation);
      PassesIff(setup, answers, n, b, expectation);
    }
  }
}
