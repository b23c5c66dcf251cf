/** Runs of ledger regenerations, with statuses and Rust paths edited by hand in between:
    what a recorded pin says about the history of the file's bytes. */
module LedgerRuns {
  import opened Results
  import opened LedgerPins

  datatype Generation = Generation(pin: Commit, input: Ledger, output: seq<Entry>)

  ghost predicate GoodRepo(repo: Repo) {
    && (forall a, b | repo.hash(a) == repo.hash(b) :: a == b)
    && (forall a :: repo.hash(a) != [])
    && (forall c, i, j | 0 <= i < j < |repo.sources(c)| :: repo.sources(c)[i] != repo.sources(c)[j])
  }

  predicate SameRecord(a: Entry, b: Entry) {
    a.go == b.go && a.pin == b.pin && a.hash == b.hash
  }

  /** The hand may change statuses and Rust paths only. */
  predicate Edits(before: seq<Entry>, after: seq<Entry>) {
    |before| == |after| && forall k | 0 <= k < |before| :: SameRecord(after[k], before[k])
  }

  /** The source files of a commit, as the generator reads them. */
  function Blobs(repo: Repo, pin: Commit, paths: seq<Path>): (r: Verdict<seq<File>>)
    ensures r.Accepted? ==> |r.value| == |paths|
  {
    if paths == [] then Accepted([])
    else
      var path := paths[|paths| - 1];
      var before :- Blobs(repo, pin, paths[..|paths| - 1]);
      var content := repo.blob(pin, path);
      if content.None? then Rejected else Accepted(before + [File(path, content.value)])
  }

  predicate Generates(repo: Repo, g: Generation) {
    && g.pin != "" && repo.resolve(g.pin) == Some(g.pin)
    && var blobs := Blobs(repo, g.pin, repo.sources(g.pin));
       blobs.Accepted? && Regenerate(repo, g.pin, g.input, blobs.value) == Accepted(g.output)
  }

  /** The first generation starts from nothing, every other from the one before it. */
  predicate Linked(run: seq<Generation>, i: nat)
    requires i < |run|
  {
    if i == 0 then run[i].input == Ledger("", [])
    else run[i].input.pin == run[i - 1].pin && Edits(run[i - 1].output, run[i].input.files)
  }

  predicate IsRun(repo: Repo, run: seq<Generation>) {
    forall i | 0 <= i < |run| :: Generates(repo, run[i]) && Linked(run, i)
  }

  predicate Present(repo: Repo, run: seq<Generation>, i: nat, path: Path)
    requires i < |run|
  {
    path in repo.sources(run[i].pin)
  }

  /** Where the file's presence in generation `i` began. */
  function Entered(repo: Repo, run: seq<Generation>, i: nat, path: Path): (start: nat)
    requires i < |run| && Present(repo, run, i, path)
    ensures start <= i
    ensures forall j | start <= j <= i :: Present(repo, run, j, path)
    ensures start == 0 || !Present(repo, run, start - 1, path)
  {
    if i == 0 || !Present(repo, run, i - 1, path) then i else Entered(repo, run, i - 1, path)
  }

  /** The file's bytes at a generation's commit. */
  function BytesAt(repo: Repo, run: seq<Generation>, i: nat, path: Path): Option<Content>
    requires i < |run|
  {
    repo.blob(run[i].pin, path)
  }

  // --- one generation -------------------------------------------------------------------------------

  lemma {:induction false} BlobsRead(repo: Repo, pin: Commit, paths: seq<Path>)
    requires Blobs(repo, pin, paths).Accepted?
    ensures forall k | 0 <= k < |paths| ::
              var file := Blobs(repo, pin, paths).value[k];
              file.path == paths[k] && repo.blob(pin, paths[k]) == Some(file.content)
  {
    if paths != [] {
      BlobsRead(repo, pin, paths[..|paths| - 1]);
    }
  }

  lemma {:induction false} EntriesAlign(repo: Repo, pin: Commit, previous: Ledger, base: Option<Commit>,
                                        existing: map<Path, Entry>, blobs: seq<File>)
    requires Entries(repo, pin, previous, base, existing, blobs).Accepted?
    ensures forall k | 0 <= k < |blobs| ::
              EntryOf(repo, pin, previous, base, At(existing, blobs[k].path), blobs[k])
              == Accepted(Entries(repo, pin, previous, base, existing, blobs).value[k])
  {
    hide EntryOf;
    if blobs != [] {
      EntriesAlign(repo, pin, previous, base, existing, blobs[..|blobs| - 1]);
    }
  }

  /** Entry `k` of the output is about source path `k`, hashes its current
      bytes, keeps its Rust paths and never claims to be verified. */
  lemma OutputEntries(repo: Repo, g: Generation)
    requires Generates(repo, g)
    ensures |g.output| == |repo.sources(g.pin)|
    ensures forall k | 0 <= k < |g.output| ::
              && g.output[k].go == repo.sources(g.pin)[k]
              && repo.blob(g.pin, g.output[k].go).Some?
              && g.output[k].hash == repo.hash(repo.blob(g.pin, g.output[k].go).value)
              && g.output[k].status.Some? && g.output[k].status.value in STATUSES
              && g.output[k].rust == (var prev := At(Existing(g.input.files), g.output[k].go);
                                      if prev.Some? then prev.value.rust else [])
  {
    hide SyncedPin, Existing;
    var paths := repo.sources(g.pin);
    var blobs := Blobs(repo, g.pin, paths).value;
    BlobsRead(repo, g.pin, paths);
    var base := OldPin(repo, g.input).value;
    EntriesAlign(repo, g.pin, g.input, base, Existing(g.input.files), blobs);
    forall k | 0 <= k < |g.output|
      ensures EntryOf(repo, g.pin, g.input, base, At(Existing(g.input.files), paths[k]), blobs[k]) == Accepted(g.output[k])
    {
      assert blobs[k].path == paths[k];
    }
  }

  function Find(files: seq<Entry>, path: Path): (r: Option<Entry>)
    ensures r.Some? ==> r.value in files && r.value.go == path
    ensures r.None? ==> forall entry <- files :: entry.go != path
  {
    if files == [] then None else if files[0].go == path then Some(files[0]) else Find(files[1..], path)
  }

  /** The pin a generation records for a path. */
  function PinAt(run: seq<Generation>, i: nat, path: Path): Name
    requires i < |run|
  {
    var entry := Find(run[i].output, path);
    if entry.None? then "" else entry.value.pin
  }

  /** A generation lists exactly the files of its commit, with the digests of their bytes. */
  lemma ListedIffPresent(repo: Repo, run: seq<Generation>, i: nat, path: Path)
    requires IsRun(repo, run) && i < |run|
    ensures var entry := Find(run[i].output, path);
            && (entry.Some? <==> Present(repo, run, i, path))
            && (entry.Some? ==> BytesAt(repo, run, i, path).Some? && entry.value.hash == repo.hash(BytesAt(repo, run, i, path).value))
  {
    hide Find;
    assert Generates(repo, run[i]);
    OutputEntries(repo, run[i]);
    hide Generates;
    var paths, output := repo.sources(run[i].pin), run[i].output;
    if path in paths {
      var k :| 0 <= k < |paths| && paths[k] == path;
      assert output[k].go == path && output[k] in output;
    }
  }

  // --- what is carried into the next generation ----------------------------------------------------------

  lemma {:induction false} ExistingAfter(files: seq<Entry>)
    requires forall i, j | 0 <= i < j < |files| :: files[i].go != files[j].go
    ensures |Existing(files)| == |files|
  {
    if files != [] {
      var before, last := files[..|files| - 1], files[|files| - 1];
      ExistingAfter(before);
      ExistingNamed(before);
      SameKeys(Existing(before), last.go, last);
    }
  }

  /** The edited entries are still about the source paths, in order, and all distinct. */
  lemma CarriedPaths(repo: Repo, run: seq<Generation>, i: nat)
    requires GoodRepo(repo) && IsRun(repo, run) && 0 < i < |run|
    ensures var paths, files := repo.sources(run[i - 1].pin), run[i].input.files;
            |files| == |paths| && forall k | 0 <= k < |files| :: files[k].go == paths[k] == run[i - 1].output[k].go
    ensures |Existing(run[i].input.files)| == |run[i].input.files|
  {
    hide Existing, Regenerate, Blobs;
    assert Linked(run, i) && Generates(repo, run[i - 1]);
    OutputEntries(repo, run[i - 1]);
    var paths, files := repo.sources(run[i - 1].pin), run[i].input.files;
    forall k | 0 <= k < |files|
      ensures files[k].go == paths[k] == run[i - 1].output[k].go
    {
    }
    ExistingAfter(files);
  }

  /** The previous entry a generation finds for a path: the one the generation
      before wrote, up to status and Rust paths, or none. */
  lemma Carried(repo: Repo, run: seq<Generation>, i: nat, path: Path)
    requires GoodRepo(repo) && IsRun(repo, run) && i < |run|
    ensures var prev := At(Existing(run[i].input.files), path);
            if i == 0 || Find(run[i - 1].output, path).None? then prev == None
            else prev.Some? && SameRecord(prev.value, Find(run[i - 1].output, path).value)
  {
    hide Existing, Generates, GoodRepo, Find;
    var files := run[i].input.files;
    assert Linked(run, i);
    hide IsRun;
    ExistingNamed(files);
    if i > 0 {
      var before := run[i - 1].output;
      CarriedPaths(repo, run, i);
      ExistingAll(files);
      assert path in Existing(files) ==> exists e <- before :: e.go == path by {
        if path in Existing(files) {
          var k :| 0 <= k < |files| && files[k] == Existing(files)[path];
          assert SameRecord(files[k], before[k]) && before[k] in before;
        }
      }
      var entry := Find(before, path);
      if entry.Some? {
        var k :| 0 <= k < |before| && before[k] == entry.value;
        assert SameRecord(files[k], before[k]) && files[k] in files;
      }
    }
  }

  /** What one regeneration does to the pin of an entry that carries its digest
      and a full commit name. */
  lemma MovedPin(repo: Repo, pin: Commit, previous: Ledger, held: Entry, was: Content, file: File, entry: Entry)
    requires GoodRepo(repo) && previous.pin != "" && repo.resolve(previous.pin) == Some(previous.pin)
    requires held.pin != "" && repo.resolve(held.pin) == Some(held.pin) && held.hash == repo.hash(was)
    requires EntryOf(repo, pin, previous, Some(previous.pin), Some(held), file) == Accepted(entry)
    ensures entry.pin == if was == file.content && held.pin == previous.pin then pin else held.pin
  {
    hide StatusOf;
  }

  /** How the recorded pin moves in one generation. */
  lemma PinStep(repo: Repo, run: seq<Generation>, i: nat, path: Path)
    requires GoodRepo(repo) && IsRun(repo, run) && i < |run| && Present(repo, run, i, path)
    requires i > 0 && Present(repo, run, i - 1, path) ==>
               PinAt(run, i - 1, path) != "" && repo.resolve(PinAt(run, i - 1, path)) == Some(PinAt(run, i - 1, path))
    ensures PinAt(run, i, path) ==
            if i == 0 || !Present(repo, run, i - 1, path) then run[i].pin
            else if BytesAt(repo, run, i, path) == BytesAt(repo, run, i - 1, path) && PinAt(run, i - 1, path) == run[i - 1].pin
            then run[i].pin
            else PinAt(run, i - 1, path)
  {
    hide Existing, EntryOf, Regenerate, Find, GoodRepo, Blobs, Edits, Generates;
    assert Linked(run, i) && Generates(repo, run[i]);
    Carried(repo, run, i, path);
    ListedIffPresent(repo, run, i, path);
    var prev, entry := At(Existing(run[i].input.files), path), Find(run[i].output, path).value;
    WrittenEntry(repo, run[i], path, entry);
    var file := File(path, BytesAt(repo, run, i, path).value);
    if i > 0 {
      ListedIffPresent(repo, run, i - 1, path);
      PinsResolve(repo, run, i - 1);
      if prev.Some? {
        MovedPin(repo, run[i].pin, run[i].input, prev.value, BytesAt(repo, run, i - 1, path).value, file, entry);
      }
    }
    if prev.None? {
      NewPin(repo, run[i].pin, run[i].input, OldPin(repo, run[i].input).value, file, entry);
    }
  }

  lemma NewPin(repo: Repo, pin: Commit, previous: Ledger, base: Option<Commit>, file: File, entry: Entry)
    requires EntryOf(repo, pin, previous, base, None, file) == Accepted(entry)
    ensures entry.pin == pin
  {
  }

  /** An output entry is the one computed for its file. */
  lemma WrittenEntry(repo: Repo, g: Generation, path: Path, entry: Entry)
    requires Generates(repo, g) && entry in g.output && entry.go == path
    ensures OldPin(repo, g.input).Accepted? && repo.blob(g.pin, path).Some?
    ensures EntryOf(repo, g.pin, g.input, OldPin(repo, g.input).value, At(Existing(g.input.files), path),
                    File(path, repo.blob(g.pin, path).value)) == Accepted(entry)
  {
    hide EntryOf, Existing;
    var paths := repo.sources(g.pin);
    var blobs := Blobs(repo, g.pin, paths).value;
    BlobsRead(repo, g.pin, paths);
    OutputEntries(repo, g);
    EntriesAlign(repo, g.pin, g.input, OldPin(repo, g.input).value, Existing(g.input.files), blobs);
    var k :| 0 <= k < |g.output| && g.output[k] == entry;
    assert blobs[k].path == paths[k] == path;
  }

  lemma PinsResolve(repo: Repo, run: seq<Generation>, i: nat)
    requires IsRun(repo, run) && i < |run|
    ensures run[i].pin != "" && repo.resolve(run[i].pin) == Some(run[i].pin)
  {
    assert Generates(repo, run[i]);
  }

  // --- over a whole run ---------------------------------------------------------------------------------

  /** No generation goes back to a commit that another has replaced. */
  predicate NoReturn(run: seq<Generation>, i: nat)
    requires i < |run|
  {
    forall a, b, c | 0 <= a < b < c <= i :: run[a].pin == run[c].pin ==> run[b].pin == run[a].pin
  }

  /** The generation `k` the recorded pin belongs to: the last one at which the
      entry was in step with the ledger. */
  lemma {:induction false} LastInStep(repo: Repo, run: seq<Generation>, i: nat, path: Path) returns (k: nat)
    requires GoodRepo(repo) && IsRun(repo, run) && i < |run| && Present(repo, run, i, path)
    ensures Entered(repo, run, i, path) <= k <= i
    ensures PinAt(run, i, path) == run[k].pin
    ensures forall j | k < j <= i :: run[j].pin != run[k].pin
    ensures BytesAt(repo, run, k, path) == BytesAt(repo, run, Entered(repo, run, i, path), path)
    ensures k < i ==> BytesAt(repo, run, k + 1, path) != BytesAt(repo, run, k, path)
    ensures NoReturn(run, i) ==>
              forall j | Entered(repo, run, i, path) <= j <= k ::
                BytesAt(repo, run, j, path) == BytesAt(repo, run, Entered(repo, run, i, path), path)
  {
    hide GoodRepo, IsRun, PinAt, Present;
    if i == 0 || !Present(repo, run, i - 1, path) {
      PinStep(repo, run, i, path);
      return i;
    }
    var before := LastInStep(repo, run, i - 1, path);
    PinsResolve(repo, run, before);
    PinStep(repo, run, i, path);
    var held := run[before].pin;
    if BytesAt(repo, run, i, path) == BytesAt(repo, run, i - 1, path) && held == run[i - 1].pin {
      assert before == i - 1;
      return i;
    }
    if run[i].pin == held {
      assert before < i - 1;
      assert run[i - 1].pin != held;
      return i;
    }
    return before;
  }

  /** The main result, for every run: the bytes at the recorded pin are those the
      file had when it entered the ledger. */
  lemma PinHoldsEntryBytes(repo: Repo, run: seq<Generation>, i: nat, path: Path)
    requires GoodRepo(repo) && IsRun(repo, run) && i < |run| && Present(repo, run, i, path)
    ensures repo.blob(PinAt(run, i, path), path) == BytesAt(repo, run, Entered(repo, run, i, path), path)
  {
    hide GoodRepo, IsRun;
    var k := LastInStep(repo, run, i, path);
  }

  /** Unless the ledger went back to an earlier commit, an entry is in step with
      it exactly when the bytes never changed since the file entered. */
  lemma InStepIffUnchanged(repo: Repo, run: seq<Generation>, i: nat, path: Path)
    requires GoodRepo(repo) && IsRun(repo, run) && i < |run| && Present(repo, run, i, path) && NoReturn(run, i)
    ensures PinAt(run, i, path) == run[i].pin <==>
            forall j | Entered(repo, run, i, path) <= j <= i ::
              BytesAt(repo, run, j, path) == BytesAt(repo, run, Entered(repo, run, i, path), path)
  {
    hide GoodRepo, IsRun;
    var k := LastInStep(repo, run, i, path);
  }

  /** Going back to the commit an entry is recorded at puts it in step again,
      whatever happened to its bytes in between. */
  lemma ReturnIsInStep(repo: Repo, run: seq<Generation>, i: nat, path: Path)
    requires GoodRepo(repo) && IsRun(repo, run) && 0 < i < |run|
    requires Present(repo, run, i, path) && Present(repo, run, i - 1, path)
    requires PinAt(run, i - 1, path) == run[i].pin
    ensures PinAt(run, i, path) == run[i].pin
  {
    hide GoodRepo, IsRun, PinAt, Present;
    PinsResolve(repo, run, i);
    PinStep(repo, run, i, path);
  }

  // --- without the condition --------------------------------------------------------------------------------

  const SMALL := Repo(name => Some(name), commit => ["f"],
                      (commit, path) => if commit == "b" then Some([1]) else Some([0]),
                      content => [0] + content, (path, content) => false)

  function SmallOutput(pin: Commit, content: Content): seq<Entry> {
    [Entry("f", Some("planned"), [], pin, [0] + content)]
  }

  /** Commits a, b, a, where b changed the file: the first pin is recorded throughout. */
  function ReturnRun(): seq<Generation> {
    [ Generation("a", Ledger("", []), SmallOutput("a", [0])),
      Generation("b", Ledger("a", SmallOutput("a", [0])), SmallOutput("a", [1])),
      Generation("a", Ledger("b", SmallOutput("a", [1])), SmallOutput("a", [0])) ]
  }

  lemma SmallBlobs(pin: Commit, content: Content)
    requires SMALL.blob(pin, "f") == Some(content)
    ensures SMALL.sources(pin) == ["f"] && Blobs(SMALL, pin, ["f"]) == Accepted([File("f", content)])
  {
    assert ["f"][..0] == [] && [] + [File("f", content)] == [File("f", content)];
    assert Blobs(SMALL, pin, []) == Accepted([]);
  }

  /** One entry, one file: the regeneration is that of the file. */
  lemma SmallRegenerates(pin: Commit, previous: Ledger, base: Option<Commit>, file: File, entry: Entry)
    requires OldPin(SMALL, previous) == Accepted(base)
    requires |previous.files| <= 1 && Legible(SMALL, previous, base, pin)
    requires previous.files != [] ==> previous.files[0].go == file.path
    requires EntryOf(SMALL, pin, previous, base, if previous.files == [] then None else Some(previous.files[0]), file) == Accepted(entry)
    ensures Regenerate(SMALL, pin, previous, [file]) == Accepted([entry])
  {
    hide EntryOf, Legible, OldPin;
    var existing := Existing(previous.files);
    if previous.files != [] {
      assert previous.files[..|previous.files| - 1] == [];
      assert Existing(previous.files) == Existing([])[file.path := previous.files[0]];
      assert existing == map[file.path := previous.files[0]];
    }
    assert |existing| == |previous.files|;
    assert [file][..0] == [] && [] + [entry] == [entry];
    assert Entries(SMALL, pin, previous, base, existing, []) == Accepted([]);
  }

  lemma SmallGenerates(g: Generation, content: Content, first: bool, pinBefore: Commit, before: Content)
    requires g.pin != "" && pinBefore != "" && SMALL.blob(g.pin, "f") == Some(content)
    requires g.input == if first then Ledger("", []) else Ledger(pinBefore, SmallOutput("a", before))
    requires g.output == SmallOutput(if first || (before == content && pinBefore == "a") then g.pin else "a", content)
    ensures Generates(SMALL, g)
  {
    hide Regenerate, Blobs;
    SmallBlobs(g.pin, content);
    var base := if first then None else Some(pinBefore);
    assert SMALL.hash(content) == [0] + content;
    assert ([0] + content)[1..] == content && ([0] + before)[1..] == before;
    SmallRegenerates(g.pin, g.input, base, File("f", content), g.output[0]);
  }

  lemma ReturnBreaksTheRule()
    ensures var run := ReturnRun();
            && IsRun(SMALL, run) && Present(SMALL, run, 2, "f") && Entered(SMALL, run, 2, "f") == 0
            && PinAt(run, 2, "f") == run[2].pin
            && BytesAt(SMALL, run, 1, "f") != BytesAt(SMALL, run, 0, "f")
  {
    hide Generates;
    var run := ReturnRun();
    SmallGenerates(run[0], [0], true, "a", [0]);
    SmallGenerates(run[1], [1], false, "a", [0]);
    SmallGenerates(run[2], [0], false, "b", [1]);
    assert Linked(run, 0) && Linked(run, 1) && Linked(run, 2);
    assert Present(SMALL, run, 0, "f") && Present(SMALL, run, 1, "f") && Present(SMALL, run, 2, "f");
  }
}
