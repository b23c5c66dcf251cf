/** Parity results (`shard`, `variant_of`, `complete`, `merge`, `check` and `accept` in
    scripts/parity.py). A `sys.exit` is `Rejected`. */
module ParityResults {
  import opened Results

  datatype Outcome = Pass | Fail | Skip

  /** A result line. `native` says whether its native state is one of the three;
      an absent reason or detail is empty. */
  datatype Row = Row(id: string, parent: Option<string>, native: bool, state: Outcome, reason: string, detail: string)

  /** `identity` is absent when a portable identity is missing or invalid. */
  datatype Meta = Meta(suite: string, pin: string, index: int, count: int, total: int, variants: seq<string>,
                       partial: bool, selection: Option<string>, identity: Option<string>)

  datatype Directory = Directory(meta: Meta, rows: seq<Row>)

  datatype Suite = Suite(name: string, batch: bool, portable: bool, refresh: bool)

  // --- shards ------------------------------------------------------------------------------------------

  function Strided<T>(items: seq<T>, start: nat, step: nat): seq<T>
    requires step > 0
    decreases |items| - start
  {
    if start >= |items| then [] else [items[start]] + Strided(items, start + step, step)
  }

  function Shard(variants: seq<string>, index: int, count: int): Verdict<seq<string>> {
    if !(1 <= index <= count) then Rejected else Accepted(Strided(variants, index - 1, count))
  }

  // --- whose row a row is --------------------------------------------------------------------------------

  /** The id without its last segment. */
  function Stem(id: string): string {
    if '/' !in id then id
    else if id[|id| - 1] == '/' then id[..|id| - 1]
    else Stem(id[..|id| - 1])
  }

  function VariantOf(row: Row, selected: set<string>): string {
    match row.parent
    case Some(parent) =>
      if parent in selected && (row.id == parent || parent + "/" <= row.id) then parent else "invalid-parent:" + row.id
    case None =>
      if row.id in selected then row.id
      else if Stem(row.id) in selected then Stem(row.id) else row.id
  }

  function Selected(variants: seq<string>): set<string> {
    set v | v in variants
  }

  /** The ids of the rows attributed to a variant, in order. */
  function Answers(rows: seq<Row>, selected: set<string>, variant: string): seq<string> {
    if rows == [] then []
    else
      var last := rows[|rows| - 1];
      Answers(rows[..|rows| - 1], selected, variant) + if VariantOf(last, selected) == variant then [last.id] else []
  }

  predicate Repeats(ids: seq<string>) {
    exists i, j | 0 <= i < j < |ids| :: ids[i] == ids[j]
  }

  function Roots(rows: seq<Row>): set<string> {
    set row | row in rows && row.parent == Some(row.id) && row.native :: row.id
  }

  predicate CompleteOk(batch: bool, variants: seq<string>, rows: seq<Row>) {
    var selected := Selected(variants);
    && (batch ==> Roots(rows) == selected && forall row <- rows :: row.parent.Some?)
    && (forall v <- variants :: Answers(rows, selected, v) != [])
    && (forall row <- rows :: VariantOf(row, selected) in selected)
    && forall v <- variants :: !Repeats(Answers(rows, selected, v))
  }

  lemma {:induction false} AnsweredBy(rows: seq<Row>, selected: set<string>, variant: string)
    ensures Answers(rows, selected, variant) != [] <==> exists row <- rows :: VariantOf(row, selected) == variant
  {
    if rows != [] {
      AnsweredBy(rows[..|rows| - 1], selected, variant);
      assert rows == rows[..|rows| - 1] + [rows[|rows| - 1]];
    }
  }

  /** The dictionary the loop builds: the ids of every variant that has rows. */
  ghost predicate Grouped(answered: map<string, seq<string>>, rows: seq<Row>, selected: set<string>) {
    && (forall v <- answered :: answered[v] == Answers(rows, selected, v) != [])
    && (forall row <- rows :: VariantOf(row, selected) in answered)
    && forall v | v !in answered :: Answers(rows, selected, v) == []
  }

  lemma GroupOne(answered: map<string, seq<string>>, rows: seq<Row>, selected: set<string>, row: Row)
    requires Grouped(answered, rows, selected)
    ensures var v := VariantOf(row, selected);
            Grouped(answered[v := (if v in answered then answered[v] else []) + [row.id]], rows + [row], selected)
  {
    hide VariantOf;
    assert (rows + [row])[..|rows|] == rows;
  }

  lemma GroupsDecide(answered: map<string, seq<string>>, variants: seq<string>, rows: seq<Row>)
    requires Grouped(answered, rows, Selected(variants))
    ensures var selected := Selected(variants);
            && (selected - answered.Keys == {} <==> forall v <- variants :: Answers(rows, selected, v) != [])
            && (answered.Keys - selected == {} <==> forall row <- rows :: VariantOf(row, selected) in selected)
  {
    hide VariantOf, Answers;
    var selected := Selected(variants);
    forall v <- answered
      ensures exists row <- rows :: VariantOf(row, selected) == v
    {
      AnsweredBy(rows, selected, v);
    }
    assert forall v :: v in selected - answered.Keys <==> v in variants && Answers(rows, selected, v) == [];
    assert forall v :: v in answered.Keys - selected <==> v in answered && v !in variants;
    EmptyIffNone(selected - answered.Keys);
    EmptyIffNone(answered.Keys - selected);
  }

  lemma EmptyIffNone<T>(items: set<T>)
    ensures items == {} <==> forall v :: v !in items
  {
  }

  /** The loop that groups the rows, and the three findings it leads to. */
  method Complete(batch: bool, variants: seq<string>, rows: seq<Row>) returns (ok: bool)
    ensures ok <==> CompleteOk(batch, variants, rows)
  {
    hide VariantOf, Repeats, Roots, Grouped, Answers;
    var selected := Selected(variants);
    var answered: map<string, seq<string>> := map[];
    GroupNone(selected);
    for i := 0 to |rows|
      invariant Grouped(answered, rows[..i], selected)
    {
      var variant := VariantOf(rows[i], selected);
      GroupOne(answered, rows[..i], selected, rows[i]);
      assert rows[..i + 1] == rows[..i] + [rows[i]];
      answered := answered[variant := (if variant in answered then answered[variant] else []) + [rows[i].id]];
    }
    assert rows[..|rows|] == rows;
    if batch && (Roots(rows) != selected || exists row <- rows :: row.parent.None?) {
      return false;
    }
    GroupsDecide(answered, variants, rows);
    if selected - answered.Keys != {} || answered.Keys - selected != {} {
      return false;
    }
    ok := forall v <- answered :: !Repeats(answered[v]);
    SameRepeats(answered, variants, rows);
  }

  lemma GroupNone(selected: set<string>)
    ensures Grouped(map[], [], selected)
  {
  }

  lemma SameRepeats(answered: map<string, seq<string>>, variants: seq<string>, rows: seq<Row>)
    requires Grouped(answered, rows, Selected(variants))
    requires Selected(variants) - answered.Keys == {} && answered.Keys - Selected(variants) == {}
    ensures (forall v <- answered :: !Repeats(answered[v])) <==>
            forall v <- variants :: !Repeats(Answers(rows, Selected(variants), v))
  {
    hide Repeats, Answers, VariantOf;
    forall v
      ensures v in answered <==> v in variants
    {
      assert v in Selected(variants) - answered.Keys <==> v in variants && v !in answered;
      assert v in answered.Keys - Selected(variants) <==> v !in variants && v in answered;
    }
  }

  // --- merging ---------------------------------------------------------------------------------------------

  datatype Merged = Merged(pin: string, total: int, identity: Option<string>, rows: seq<Row>)

  function AllRows(dirs: seq<Directory>): seq<Row> {
    if dirs == [] then [] else AllRows(dirs[..|dirs| - 1]) + dirs[|dirs| - 1].rows
  }

  function AllVariants(dirs: seq<Directory>): seq<string> {
    if dirs == [] then [] else AllVariants(dirs[..|dirs| - 1]) + dirs[|dirs| - 1].meta.variants
  }

  predicate HasIndex(dirs: seq<Directory>, k: int) {
    exists d <- dirs :: d.meta.index == k
  }

  /** The sorted indices are 1, 2, ..., count. */
  predicate EachOnce(dirs: seq<Directory>, count: int) {
    |dirs| == count && forall k | 1 <= k <= count :: HasIndex(dirs, k)
  }

  predicate Agree(suite: Suite, dirs: seq<Directory>)
    requires dirs != []
  {
    var first := dirs[0].meta;
    && (suite.batch ==> first.selection.Some? && forall d <- dirs :: d.meta.selection == first.selection)
    && (suite.portable ==> first.identity.Some? && forall d <- dirs :: d.meta.identity == first.identity)
    && forall d <- dirs :: d.meta.count == first.count && d.meta.pin == first.pin && d.meta.total == first.total
  }

  predicate Whole(dirs: seq<Directory>)
    requires dirs != []
  {
    var first := dirs[0].meta;
    && EachOnce(dirs, first.count)
    && (forall d <- dirs :: !d.meta.partial)
    && |AllVariants(dirs)| == first.total && |Selected(AllVariants(dirs))| == first.total
  }

  predicate DirectoryOk(suite: Suite, d: Directory) {
    d.meta.suite == suite.name && CompleteOk(suite.batch, d.meta.variants, d.rows)
  }

  function Merge(suite: Suite, dirs: seq<Directory>): Verdict<Merged> {
    if dirs == [] || (exists d <- dirs :: !DirectoryOk(suite, d)) || !Agree(suite, dirs) || !Whole(dirs) then Rejected
    else
      var first := dirs[0].meta;
      Accepted(Merged(first.pin, first.total, if suite.portable then first.identity else None, AllRows(dirs)))
  }

  method MergeDirectories(suite: Suite, dirs: seq<Directory>) returns (r: Verdict<Merged>)
    ensures r == Merge(suite, dirs)
  {
    hide CompleteOk;
    var rows: seq<Row> := [];
    var variants: seq<string> := [];
    for i := 0 to |dirs|
      invariant rows == AllRows(dirs[..i]) && variants == AllVariants(dirs[..i])
      invariant forall k | 0 <= k < i :: DirectoryOk(suite, dirs[k])
    {
      assert dirs[..i + 1][..i] == dirs[..i] && dirs[i] in dirs;
      if dirs[i].meta.suite != suite.name {
        return Rejected;
      }
      var complete := Complete(suite.batch, dirs[i].meta.variants, dirs[i].rows);
      if !complete {
        return Rejected;
      }
      rows := rows + dirs[i].rows;
      variants := variants + dirs[i].meta.variants;
    }
    assert dirs[..|dirs|] == dirs;
    if dirs == [] || !Agree(suite, dirs) {
      return Rejected;
    }
    var first := dirs[0].meta;
    if !EachOnce(dirs, first.count) || exists d <- dirs :: d.meta.partial {
      return Rejected;
    }
    if |variants| != first.total || |Selected(variants)| != first.total {
      return Rejected;
    }
    return Accepted(Merged(first.pin, first.total, if suite.portable then first.identity else None, rows));
  }

  // --- checking and accepting ----------------------------------------------------------------------------------

  /** An approved or unapproved named failure; an absent reason or detail is `None`. */
  datatype Entry = Entry(reason: Option<string>, detail: Option<string>, approved: bool)

  datatype Expectation = Expectation(pin: string, total: int, failing: map<string, Entry>)

  /** The failing rows by id; a later row of the same id replaces an earlier one. */
  function Failing(rows: seq<Row>): map<string, Row> {
    if rows == [] then map[]
    else
      var last := rows[|rows| - 1];
      var before := Failing(rows[..|rows| - 1]);
      if last.state == Fail then before[last.id := last] else before
  }

  predicate Passes(suite: Suite, expectation: Expectation, dirs: seq<Directory>) {
    var merged := Merge(suite, dirs);
    && merged.Accepted?
    && merged.value.pin == expectation.pin
    && merged.value.total == expectation.total
    && Failing(merged.value.rows).Keys == expectation.failing.Keys
  }

  /** `brief` is the first line of a detail, at most 200 characters of it. */
  function Refreshed(suite: Suite, brief: string -> string, entry: Entry, row: Row): Entry {
    if entry.reason.None? || (suite.refresh && !entry.approved) then
      Entry(Some(if row.reason == "" then "unexplained" else row.reason),
            if row.detail == "" then None else Some(brief(row.detail)), entry.approved)
    else entry
  }

  const UNNAMED := Entry(None, None, false)

  function Named(expectation: Expectation, id: string): Entry {
    if id in expectation.failing then expectation.failing[id] else UNNAMED
  }

  function Accept(suite: Suite, brief: string -> string, expectation: Expectation, dirs: seq<Directory>): Verdict<Expectation> {
    var merged :- Merge(suite, dirs);
    var failing := Failing(merged.rows);
    Accepted(Expectation(merged.pin, merged.total,
                         map id | id in failing :: Refreshed(suite, brief, Named(expectation, id), failing[id])))
  }

  method FailingIds(rows: seq<Row>) returns (failing: map<string, Row>)
    ensures failing == Failing(rows)
  {
    failing := map[];
    for i := 0 to |rows|
      invariant failing == Failing(rows[..i])
    {
      assert rows[..i + 1][..i] == rows[..i];
      if rows[i].state == Fail {
        failing := failing[rows[i].id := rows[i]];
      }
    }
    assert rows[..|rows|] == rows;
  }

  method Check(suite: Suite, expectation: Expectation, dirs: seq<Directory>) returns (passed: bool)
    ensures passed <==> Passes(suite, expectation, dirs)
  {
    hide Merge;
    var merged := MergeDirectories(suite, dirs);
    if merged.Rejected? {
      return false;
    }
    var failing := FailingIds(merged.value.rows);
    var newFailures := failing.Keys - expectation.failing.Keys;
    var nowPassing := expectation.failing.Keys - failing.Keys;
    var problems := merged.value.pin != expectation.pin || merged.value.total != expectation.total;
    passed := !problems && newFailures == {} && nowPassing == {};
    assert newFailures == {} && nowPassing == {} ==> failing.Keys == expectation.failing.Keys by {
      assert failing.Keys <= newFailures + expectation.failing.Keys;
      assert expectation.failing.Keys <= nowPassing + failing.Keys;
    }
  }

  method RefreshEntry(suite: Suite, brief: string -> string, named: Entry, row: Row) returns (entry: Entry)
    ensures entry == Refreshed(suite, brief, named, row)
  {
    entry := named;
    if entry.reason.None? || (suite.refresh && !entry.approved) {
      entry := entry.(reason := Some(if row.reason == "" then "unexplained" else row.reason), detail := None);
      if row.detail != "" {
        entry := entry.(detail := Some(brief(row.detail)));
      }
    }
  }

  method AcceptResults(suite: Suite, brief: string -> string, expectation: Expectation, dirs: seq<Directory>)
    returns (r: Verdict<Expectation>)
    ensures r == Accept(suite, brief, expectation, dirs)
  {
    hide Merge, Refreshed, Named, Failing;
    var merged :- MergeDirectories(suite, dirs);
    var rows := FailingIds(merged.rows);
    var pending := rows.Keys;
    var failing: map<string, Entry> := map[];
    while pending != {}
      invariant pending <= rows.Keys && failing.Keys == rows.Keys - pending
      invariant forall id <- failing :: failing[id] == Refreshed(suite, brief, Named(expectation, id), rows[id])
      decreases |pending|
    {
      var key :| key in pending;
      var entry := RefreshEntry(suite, brief, Named(expectation, key), rows[key]);
      failing := failing[key := entry];
      pending := pending - {key};
    }
    assert failing == map id | id in rows :: Refreshed(suite, brief, Named(expectation, id), rows[id]);
    return Accepted(Expectation(merged.pin, merged.total, failing));
  }

  /** What was just accepted passes. */
  lemma AcceptedPasses(suite: Suite, brief: string -> string, expectation: Expectation, dirs: seq<Directory>)
    ensures var accepted := Accept(suite, brief, expectation, dirs);
            accepted.Accepted? <==> Merge(suite, dirs).Accepted?
    ensures var accepted := Accept(suite, brief, expectation, dirs);
            accepted.Accepted? ==> Passes(suite, accepted.value, dirs)
  {
    hide Merge;
  }

  /** Accepting the same results again changes nothing, and an approved reason never changes. */
  lemma AcceptIdempotent(suite: Suite, brief: string -> string, expectation: Expectation, dirs: seq<Directory>)
    requires Accept(suite, brief, expectation, dirs).Accepted?
    ensures var accepted := Accept(suite, brief, expectation, dirs).value;
            && Accept(suite, brief, accepted, dirs) == Accepted(accepted)
            && forall id <- expectation.failing.Keys * accepted.failing.Keys ::
                 expectation.failing[id].approved && expectation.failing[id].reason.Some? ==>
                   accepted.failing[id] == expectation.failing[id]
  {
    hide Merge;
    var accepted := Accept(suite, brief, expectation, dirs).value;
    var again := Accept(suite, brief, accepted, dirs).value;
    assert again.failing.Keys == accepted.failing.Keys;
    assert forall id <- accepted.failing :: again.failing[id] == accepted.failing[id];
    assert again.failing == accepted.failing;
  }

  lemma {:induction false} FailingHolds(rows: seq<Row>)
    ensures forall id <- Failing(rows) :: Failing(rows)[id] in rows && Failing(rows)[id].id == id && Failing(rows)[id].state == Fail
    ensures forall row <- rows :: row.state == Fail ==> row.id in Failing(rows)
  {
    if rows != [] {
      FailingHolds(rows[..|rows| - 1]);
      assert rows == rows[..|rows| - 1] + [rows[|rows| - 1]];
    }
  }

  /** Every accepted failure is one of the results: it keeps its approval, and its
      reason and detail are those it had, or else those of a failing row with its id. */
  lemma AcceptReasons(suite: Suite, brief: string -> string, expectation: Expectation, dirs: seq<Directory>, id: string)
    requires Accept(suite, brief, expectation, dirs).Accepted?
    requires id in Accept(suite, brief, expectation, dirs).value.failing
    ensures var entry := Accept(suite, brief, expectation, dirs).value.failing[id];
            && entry.approved == Named(expectation, id).approved
            && exists row <- Merge(suite, dirs).value.rows :: row.id == id && row.state == Fail &&
                 if Named(expectation, id).reason.Some? && (entry.approved || !suite.refresh) then entry == Named(expectation, id)
                 else entry.reason == Some(if row.reason == "" then "unexplained" else row.reason)
                      && entry.detail == if row.detail == "" then None else Some(brief(row.detail))
  {
    hide Merge;
    var rows := Merge(suite, dirs).value.rows;
    FailingHolds(rows);
    assert Failing(rows)[id] in rows;
  }

  /** A check passes only for the failing set that accepting would write. */
  lemma PassesIffAccepted(suite: Suite, brief: string -> string, expectation: Expectation, dirs: seq<Directory>)
    ensures Passes(suite, expectation, dirs) <==>
            var accepted := Accept(suite, brief, expectation, dirs);
            && accepted.Accepted? && accepted.value.pin == expectation.pin && accepted.value.total == expectation.total
            && accepted.value.failing.Keys == expectation.failing.Keys
  {
    hide Merge;
    if Merge(suite, dirs).Accepted? {
      assert Accept(suite, brief, expectation, dirs).value.failing.Keys == Failing(Merge(suite, dirs).value.rows).Keys;
    }
  }
}
