/** What merging, checking and accepting decide, row by row (`complete`, `merge`, `check`
    and `accept` in scripts/parity.py). */
module ParityReport {
  import opened Results
  import opened ParityResults
  import opened ParityShards

  /** One level below. */
  ghost predicate ChildOf(id: string, v: string) {
    exists last :: '/' !in last && id == v + "/" + last
  }

  /** The variant a row is counted for: its parent, if it is selected and the id is the
      parent's or below it; without a parent the id itself, or else the one it is a child of. */
  ghost predicate Owns(v: string, row: Row, variants: seq<string>) {
    match row.parent
    case Some(p) =>
      if p in variants && (row.id == p || p + "/" <= row.id) then v == p else v == "invalid-parent:" + row.id
    case None => row.id == v || (row.id !in variants && ChildOf(row.id, v))
  }

  ghost predicate Answered(v: string, variants: seq<string>, rows: seq<Row>) {
    exists row <- rows :: Owns(v, row, variants)
  }

  ghost predicate Claimed(row: Row, variants: seq<string>) {
    exists v <- variants :: Owns(v, row, variants)
  }

  predicate IsRoot(row: Row) {
    row.parent == Some(row.id) && row.native
  }

  predicate HasRoot(v: string, rows: seq<Row>) {
    exists row <- rows :: IsRoot(row) && row.id == v
  }

  /** Every row is some selected variant's, every selected variant has a row and no id
      twice, and in a batch each has its own measured root. */
  ghost predicate DirectoryComplete(batch: bool, variants: seq<string>, rows: seq<Row>) {
    && (forall row <- rows :: Claimed(row, variants))
    && (forall v <- variants :: Answered(v, variants, rows))
    && (forall v <- variants :: forall i, j | 0 <= i < j < |rows| && Owns(v, rows[i], variants) && Owns(v, rows[j], variants) ::
          rows[i].id != rows[j].id)
    && (batch ==>
          && (forall row <- rows :: row.parent.Some? && (IsRoot(row) ==> row.id in variants))
          && forall v <- variants :: HasRoot(v, rows))
  }

  // --- whose rows ---------------------------------------------------------------------------------------

  lemma {:induction false} StemIs(id: string)
    requires '/' in id
    ensures exists last :: '/' !in last && id == Stem(id) + "/" + last
    ensures forall v | ChildOf(id, v) :: v == Stem(id)
  {
    var n := |id| - 1;
    if id[n] == '/' {
      assert id == id[..n] + "/" + "";
    } else {
      assert id == id[..n] + [id[n]];
      StemIs(id[..n]);
      var last :| '/' !in last && id[..n] == Stem(id[..n]) + "/" + last;
      assert id == Stem(id) + "/" + (last + [id[n]]);
    }
    forall v | ChildOf(id, v) ensures v == Stem(id) {
      var last :| '/' !in last && id == v + "/" + last;
      var other :| '/' !in other && id == Stem(id) + "/" + other;
      SlashPlaced(id, v, last, Stem(id), other);
    }
  }

  lemma SlashLast(id: string, v: string, last: string)
    requires '/' !in last && id == v + "/" + last
    ensures |v| < |id| && id[|v|] == '/' && id[..|v|] == v
    ensures forall k | |v| < k < |id| :: id[k] != '/'
  {
    forall k | |v| < k < |id| ensures id[k] != '/' {
      assert id[k] == last[k - |v| - 1] && last[k - |v| - 1] in last;
    }
  }

  /** The last slash of an id splits it in one way. */
  lemma SlashPlaced(id: string, v: string, last: string, w: string, other: string)
    requires '/' !in last && '/' !in other && id == v + "/" + last == w + "/" + other
    ensures v == w
  {
    SlashLast(id, v, last);
    SlashLast(id, w, other);
    assert |v| == |w|;
  }

  lemma StemIff(id: string, v: string)
    ensures ChildOf(id, v) <==> '/' in id && Stem(id) == v
  {
    if '/' in id {
      StemIs(id);
    }
    if ChildOf(id, v) {
      var last :| '/' !in last && id == v + "/" + last;
      assert id[|v|] == '/';
    }
  }

  lemma OwnsIff(v: string, row: Row, variants: seq<string>)
    requires v in variants
    ensures VariantOf(row, Selected(variants)) == v <==> Owns(v, row, variants)
  {
    hide Stem, ChildOf;
    StemIff(row.id, v);
    if '/' !in row.id {
      NoStem(row.id);
    }
  }

  lemma NoStem(id: string)
    requires '/' !in id
    ensures Stem(id) == id
  {
  }

  lemma ClaimedIff(row: Row, variants: seq<string>)
    ensures Claimed(row, variants) <==> VariantOf(row, Selected(variants)) in Selected(variants)
  {
    hide VariantOf, Owns;
    forall v <- variants
      ensures VariantOf(row, Selected(variants)) == v <==> Owns(v, row, variants)
    {
      OwnsIff(v, row, variants);
    }
  }

  lemma AnsweredIff(v: string, variants: seq<string>, rows: seq<Row>)
    requires v in variants
    ensures Answered(v, variants, rows) <==> Answers(rows, Selected(variants), v) != []
  {
    hide VariantOf, Owns;
    AnsweredBy(rows, Selected(variants), v);
    forall row <- rows
      ensures VariantOf(row, Selected(variants)) == v <==> Owns(v, row, variants)
    {
      OwnsIff(v, row, variants);
    }
  }

  ghost predicate Twice(v: string, rows: seq<Row>, selected: set<string>) {
    exists i, j :: TwiceAt(v, rows, selected, i, j)
  }

  predicate TwiceAt(v: string, rows: seq<Row>, selected: set<string>, i: int, j: int) {
    0 <= i < j < |rows| && VariantOf(rows[i], selected) == v == VariantOf(rows[j], selected) && rows[i].id == rows[j].id
  }

  lemma {:induction false} AnswerHolds(rows: seq<Row>, selected: set<string>, v: string, id: string)
    ensures id in Answers(rows, selected, v) <==> exists i :: 0 <= i < |rows| && VariantOf(rows[i], selected) == v && rows[i].id == id
  {
    hide VariantOf;
    if rows != [] {
      AnswerHolds(rows[..|rows| - 1], selected, v, id);
    }
  }

  lemma {:induction false} RepeatsIff(rows: seq<Row>, selected: set<string>, v: string)
    ensures Repeats(Answers(rows, selected, v)) <==> Twice(v, rows, selected)
  {
    hide VariantOf, Repeats, Answers;
    if rows == [] {
      NoRepeats(selected, v);
    } else {
      var n := |rows| - 1;
      var before, last := rows[..n], rows[n];
      RepeatsIff(before, selected, v);
      AnswerHolds(before, selected, v, last.id);
      RepeatsSnoc(rows, selected, v);
      if Twice(v, before, selected) {
        var i, j :| TwiceAt(v, before, selected, i, j);
        assert TwiceAt(v, rows, selected, i, j);
      }
      if VariantOf(last, selected) == v && last.id in Answers(before, selected, v) {
        var i :| 0 <= i < |before| && VariantOf(before[i], selected) == v && before[i].id == last.id;
        assert TwiceAt(v, rows, selected, i, n);
      }
      if Twice(v, rows, selected) {
        var i, j :| TwiceAt(v, rows, selected, i, j);
        if j < n {
          assert TwiceAt(v, before, selected, i, j);
        } else {
          assert before[i] == rows[i];
        }
      }
    }
  }

  lemma NoRepeats(selected: set<string>, v: string)
    ensures !Repeats(Answers([], selected, v))
  {
  }

  lemma RepeatsSnoc(rows: seq<Row>, selected: set<string>, v: string)
    requires rows != []
    ensures var before, last := rows[..|rows| - 1], rows[|rows| - 1];
            Repeats(Answers(rows, selected, v)) <==>
              || Repeats(Answers(before, selected, v))
              || (VariantOf(last, selected) == v && last.id in Answers(before, selected, v))
  {
    hide VariantOf;
    var before, last := rows[..|rows| - 1], rows[|rows| - 1];
    var ids := Answers(before, selected, v);
    hide Answers;
    if VariantOf(last, selected) == v {
      RepeatsAdd(ids, last.id);
      assert Answers(rows, selected, v) == ids + [last.id] by { AnswersSnoc(rows, selected, v); }
    } else {
      assert Answers(rows, selected, v) == ids + [] by { AnswersSnoc(rows, selected, v); }
      assert ids + [] == ids;
    }
  }

  lemma AnswersSnoc(rows: seq<Row>, selected: set<string>, v: string)
    requires rows != []
    ensures Answers(rows, selected, v) ==
            Answers(rows[..|rows| - 1], selected, v) + if VariantOf(rows[|rows| - 1], selected) == v then [rows[|rows| - 1].id] else []
  {
    hide VariantOf;
  }

  lemma RepeatsAdd(ids: seq<string>, id: string)
    ensures Repeats(ids + [id]) <==> Repeats(ids) || id in ids
  {
    var all := ids + [id];
    if Repeats(ids) {
      var i, j :| 0 <= i < j < |ids| && ids[i] == ids[j];
      assert all[i] == all[j];
    }
    if id in ids {
      var i :| 0 <= i < |ids| && ids[i] == id;
      assert all[i] == all[|ids|];
    }
  }

  lemma OnceIff(v: string, variants: seq<string>, rows: seq<Row>)
    requires v in variants
    ensures !Repeats(Answers(rows, Selected(variants), v)) <==>
            forall i, j | 0 <= i < j < |rows| && Owns(v, rows[i], variants) && Owns(v, rows[j], variants) :: rows[i].id != rows[j].id
  {
    hide VariantOf, Owns, Repeats, Answers;
    RepeatsIff(rows, Selected(variants), v);
    forall i | 0 <= i < |rows|
      ensures VariantOf(rows[i], Selected(variants)) == v <==> Owns(v, rows[i], variants)
    {
      OwnsIff(v, rows[i], variants);
    }
    if i, j :| 0 <= i < j < |rows| && Owns(v, rows[i], variants) && Owns(v, rows[j], variants) && rows[i].id == rows[j].id {
      assert TwiceAt(v, rows, Selected(variants), i, j);
    }
  }

  lemma RootsIff(variants: seq<string>, rows: seq<Row>)
    ensures Roots(rows) == Selected(variants) <==>
            (forall row <- rows :: IsRoot(row) ==> row.id in variants) && forall v <- variants :: HasRoot(v, rows)
  {
    forall id
      ensures id in Roots(rows) <==> HasRoot(id, rows)
    {
    }
    hide Roots;
    if Roots(rows) == Selected(variants) {
      forall row <- rows | IsRoot(row) ensures row.id in variants {
        assert HasRoot(row.id, rows) && row.id in Selected(variants);
      }
      forall v <- variants ensures HasRoot(v, rows) {
        assert v in Selected(variants);
      }
    }
    if (forall row <- rows :: IsRoot(row) ==> row.id in variants) && forall v <- variants :: HasRoot(v, rows) {
      assert forall v :: v in Roots(rows) <==> v in Selected(variants);
    }
  }

  /** A directory is found complete exactly when it is. */
  lemma CompleteIff(batch: bool, variants: seq<string>, rows: seq<Row>)
    ensures CompleteOk(batch, variants, rows) <==> DirectoryComplete(batch, variants, rows)
  {
    hide VariantOf, Owns, Repeats, Answers, Roots, IsRoot, Claimed, Answered, Selected;
    forall row <- rows
      ensures Claimed(row, variants) <==> VariantOf(row, Selected(variants)) in Selected(variants)
    {
      ClaimedIff(row, variants);
    }
    forall v <- variants
      ensures Answered(v, variants, rows) <==> Answers(rows, Selected(variants), v) != []
      ensures !Repeats(Answers(rows, Selected(variants), v)) <==>
              forall i, j | 0 <= i < j < |rows| && Owns(v, rows[i], variants) && Owns(v, rows[j], variants) :: rows[i].id != rows[j].id
    {
      AnsweredIff(v, variants, rows);
      OnceIff(v, variants, rows);
    }
    RootsIff(variants, rows);
  }

  // --- merging ----------------------------------------------------------------------------------------------

  /** A whole directory of a capture into `count` shards. */
  ghost predicate PartOf(d: Directory, suite: Suite, count: nat, pin: string, total: int, selection: Option<string>, identity: Option<string>) {
    && d.meta.suite == suite.name && d.meta.count == count && d.meta.pin == pin && d.meta.total == total && !d.meta.partial
    && (suite.batch ==> d.meta.selection == selection != None)
    && (suite.portable ==> d.meta.identity == identity != None)
    && DirectoryComplete(suite.batch, d.meta.variants, d.rows)
  }

  ghost predicate Parts(dirs: seq<Directory>, suite: Suite, pin: string, total: int, selection: Option<string>, identity: Option<string>) {
    && dirs != []
    && (forall d <- dirs :: PartOf(d, suite, |dirs|, pin, total, selection, identity))
    && (forall k | 1 <= k <= |dirs| :: PartIn(dirs, k))
    && Distinct(AllVariants(dirs)) && |AllVariants(dirs)| == total
  }

  /** Part `k` is there. */
  predicate PartIn(dirs: seq<Directory>, k: int) {
    exists d <- dirs :: d.meta.index == k
  }

  lemma WholeIff(dirs: seq<Directory>, total: int)
    ensures |AllVariants(dirs)| == total && |Selected(AllVariants(dirs))| == total <==>
            Distinct(AllVariants(dirs)) && |AllVariants(dirs)| == total
  {
    SizeDistinct(AllVariants(dirs));
    if Distinct(AllVariants(dirs)) {
      DistinctSize(AllVariants(dirs));
    }
  }

  /** The main result. Directories merge exactly when they are the complete parts of one
      capture: one suite, pin, total, selection and identity, each part once and each variant
      once; the merge holds those and all the rows in order. */
  lemma MergesIff(suite: Suite, dirs: seq<Directory>, m: Merged)
    ensures Merge(suite, dirs) == Accepted(m) <==>
            && (exists selection, identity :: Parts(dirs, suite, m.pin, m.total, selection, identity)
                  && m.identity == if suite.portable then identity else None)
            && m.rows == AllRows(dirs)
  {
    hide CompleteOk, DirectoryComplete, AllVariants, AllRows, Distinct;
    forall d <- dirs
      ensures CompleteOk(suite.batch, d.meta.variants, d.rows) <==> DirectoryComplete(suite.batch, d.meta.variants, d.rows)
    {
      CompleteIff(suite.batch, d.meta.variants, d.rows);
    }
    WholeIff(dirs, m.total);
    if dirs != [] {
      WholeIff(dirs, dirs[0].meta.total);
      assert dirs[0] in dirs;
    }
    if Merge(suite, dirs) == Accepted(m) {
      MergeGives(suite, dirs, m);
    }
    if selection, identity :| Parts(dirs, suite, m.pin, m.total, selection, identity)
                              && m.identity == if suite.portable then identity else None {
      PartsMerge(suite, dirs, m, selection, identity);
    }
  }

  lemma MergeGives(suite: Suite, dirs: seq<Directory>, m: Merged)
    requires Merge(suite, dirs) == Accepted(m)
    requires forall d <- dirs :: CompleteOk(suite.batch, d.meta.variants, d.rows) <==> DirectoryComplete(suite.batch, d.meta.variants, d.rows)
    requires |AllVariants(dirs)| == m.total && |Selected(AllVariants(dirs))| == m.total <==>
             Distinct(AllVariants(dirs)) && |AllVariants(dirs)| == m.total
    ensures exists selection, identity :: Parts(dirs, suite, m.pin, m.total, selection, identity)
              && m.identity == if suite.portable then identity else None
  {
    hide CompleteOk, DirectoryComplete, AllVariants, AllRows, Distinct;
    var first := dirs[0].meta;
    assert dirs[0] in dirs;
    forall d <- dirs
      ensures PartOf(d, suite, |dirs|, m.pin, m.total, first.selection, first.identity)
    {
      assert DirectoryOk(suite, d);
    }
    assert forall k | 1 <= k <= |dirs| :: HasIndex(dirs, k) <==> PartIn(dirs, k);
    assert Parts(dirs, suite, m.pin, m.total, first.selection, first.identity);
  }

  lemma PartsMerge(suite: Suite, dirs: seq<Directory>, m: Merged, selection: Option<string>, identity: Option<string>)
    requires Parts(dirs, suite, m.pin, m.total, selection, identity)
    requires m.identity == if suite.portable then identity else None
    requires forall d <- dirs :: CompleteOk(suite.batch, d.meta.variants, d.rows) <==> DirectoryComplete(suite.batch, d.meta.variants, d.rows)
    requires |AllVariants(dirs)| == m.total && |Selected(AllVariants(dirs))| == m.total <==>
             Distinct(AllVariants(dirs)) && |AllVariants(dirs)| == m.total
    ensures Merge(suite, dirs) == Accepted(m.(rows := AllRows(dirs)))
  {
    hide CompleteOk, DirectoryComplete, AllVariants, AllRows, Distinct;
    assert dirs[0] in dirs;
    assert forall d <- dirs :: PartOf(d, suite, |dirs|, m.pin, m.total, selection, identity);
    forall d <- dirs ensures DirectoryOk(suite, d) {
      assert PartOf(d, suite, |dirs|, m.pin, m.total, selection, identity);
    }
    assert forall k | 1 <= k <= |dirs| :: HasIndex(dirs, k) <==> PartIn(dirs, k);
    assert Agree(suite, dirs) && Whole(dirs);
  }

  // --- checking and accepting --------------------------------------------------------------------------------

  /** The failing row of this id that comes last. */
  predicate LastFailure(rows: seq<Row>, id: string, k: int) {
    && 0 <= k < |rows| && rows[k].id == id && rows[k].state == Fail
    && forall j | k < j < |rows| :: !(rows[j].id == id && rows[j].state == Fail)
  }

  lemma {:induction false} FailingLast(rows: seq<Row>, id: string)
    ensures id in Failing(rows) <==> exists k :: LastFailure(rows, id, k)
    ensures forall k | LastFailure(rows, id, k) :: id in Failing(rows) && Failing(rows)[id] == rows[k]
  {
    if rows != [] {
      var n := |rows| - 1;
      FailingLast(rows[..n], id);
      if rows[n].id == id && rows[n].state == Fail {
        assert LastFailure(rows, id, n);
      } else {
        assert forall k :: LastFailure(rows[..n], id, k) <==> LastFailure(rows, id, k);
      }
    }
  }

  predicate Fails(dirs: seq<Directory>, id: string) {
    exists d <- dirs :: exists row <- d.rows :: row.id == id && row.state == Fail
  }

  /** Kept, if it has a reason and is approved or the suite does not refresh; otherwise the
      row's reason and the beginning of its detail, with the approval as it was. */
  predicate Written(suite: Suite, brief: string -> string, named: Option<Entry>, row: Row, entry: Entry) {
    var approved := named.Some? && named.value.approved;
    if named.Some? && named.value.reason.Some? && (named.value.approved || !suite.refresh) then entry == named.value
    else
      && entry.approved == approved
      && entry.reason == Some(if |row.reason| == 0 then "unexplained" else row.reason)
      && entry.detail == if |row.detail| == 0 then None else Some(brief(row.detail))
  }

  function Previous(before: Expectation, id: string): Option<Entry> {
    if id in before.failing then Some(before.failing[id]) else None
  }

  ghost predicate Accepts(suite: Suite, brief: string -> string, before: Expectation, m: Merged, after: Expectation) {
    && after.pin == m.pin && after.total == m.total
    && (forall id :: id in after.failing <==> exists k :: LastFailure(m.rows, id, k))
    && forall id, k | LastFailure(m.rows, id, k) ::
         id in after.failing &&
         Written(suite, brief, Previous(before, id), m.rows[k], after.failing[id])
  }

  lemma WrittenIff(suite: Suite, brief: string -> string, before: Expectation, id: string, row: Row, entry: Entry)
    ensures Refreshed(suite, brief, Named(before, id), row) == entry <==>
            Written(suite, brief, Previous(before, id), row, entry)
  {
  }

  /** Accepting merges and writes the failing ids with their entries, or is refused. */
  lemma AcceptsIff(suite: Suite, brief: string -> string, before: Expectation, dirs: seq<Directory>, after: Expectation)
    ensures Accept(suite, brief, before, dirs) == Accepted(after) <==>
            Merge(suite, dirs).Accepted? && Accepts(suite, brief, before, Merge(suite, dirs).value, after)
  {
    hide Merge, Refreshed, Written, Named, Failing;
    if Merge(suite, dirs).Accepted? {
      var m := Merge(suite, dirs).value;
      forall id
        ensures id in Failing(m.rows) <==> exists k :: LastFailure(m.rows, id, k)
        ensures forall k | LastFailure(m.rows, id, k) :: id in Failing(m.rows) && Failing(m.rows)[id] == m.rows[k]
      {
        FailingLast(m.rows, id);
      }
      assert LastOnes(m.rows, Failing(m.rows));
      EntriesIff(suite, brief, before, m, after);
    }
  }

  /** The failing rows by id are the last ones. */
  ghost predicate LastOnes(rows: seq<Row>, failing: map<string, Row>) {
    && (forall id :: id in failing <==> exists k :: LastFailure(rows, id, k))
    && forall id, k | LastFailure(rows, id, k) :: id in failing && failing[id] == rows[k]
  }

  lemma EntriesIff(suite: Suite, brief: string -> string, before: Expectation, m: Merged, after: Expectation)
    requires LastOnes(m.rows, Failing(m.rows))
    ensures (after.pin == m.pin && after.total == m.total &&
             after.failing == map id | id in Failing(m.rows) :: Refreshed(suite, brief, Named(before, id), Failing(m.rows)[id]))
            <==> Accepts(suite, brief, before, m, after)
  {
    hide Refreshed, Written, Named, Failing, Previous;
    var failing := Failing(m.rows);
    var written := map id | id in failing :: Refreshed(suite, brief, Named(before, id), failing[id]);
    forall id <- failing
      ensures Written(suite, brief, Previous(before, id), failing[id], written[id])
    {
      WrittenIff(suite, brief, before, id, failing[id], written[id]);
    }
    if Accepts(suite, brief, before, m, after) {
      forall id <- failing
        ensures id in after.failing && after.failing[id] == written[id]
      {
        var k :| LastFailure(m.rows, id, k);
        WrittenIff(suite, brief, before, id, failing[id], after.failing[id]);
      }
      assert after.failing.Keys == written.Keys;
      assert after.failing == written;
    }
  }

  /** Checking passes exactly when the directories merge with the expected pin and total,
      and the failing ids are the expected ones. */
  lemma PassesIffExpected(suite: Suite, expectation: Expectation, dirs: seq<Directory>)
    ensures Passes(suite, expectation, dirs) <==>
            && (exists selection, identity :: Parts(dirs, suite, expectation.pin, expectation.total, selection, identity))
            && forall id :: id in expectation.failing <==> Fails(dirs, id)
  {
    hide Failing, Parts, AllRows, Merge;
    forall m: Merged
      ensures Merge(suite, dirs) == Accepted(m) <==>
            && (exists selection, identity :: Parts(dirs, suite, m.pin, m.total, selection, identity)
                  && m.identity == if suite.portable then identity else None)
            && m.rows == AllRows(dirs)
    {
      MergesIff(suite, dirs, m);
    }
    if selection, identity :| Parts(dirs, suite, expectation.pin, expectation.total, selection, identity) {
      var m := Merged(expectation.pin, expectation.total, if suite.portable then identity else None, AllRows(dirs));
      assert Merge(suite, dirs) == Accepted(m);
    }
    FailingFails(dirs);
  }

  lemma FailingFails(dirs: seq<Directory>)
    ensures forall id :: id in Failing(AllRows(dirs)) <==> Fails(dirs, id)
  {
    hide Failing, AllRows;
    FailingHolds(AllRows(dirs));
    forall row: Row
      ensures row in AllRows(dirs) <==> exists d <- dirs :: row in d.rows
    {
      RowsHold(dirs, row);
    }
  }

  lemma {:induction false} RowsHold(dirs: seq<Directory>, row: Row)
    ensures row in AllRows(dirs) <==> exists d <- dirs :: row in d.rows
  {
    if dirs != [] {
      RowsHold(dirs[..|dirs| - 1], row);
      assert dirs == dirs[..|dirs| - 1] + [dirs[|dirs| - 1]];
    }
  }
}
