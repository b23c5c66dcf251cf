/** What one regeneration writes, field by field, and when it is refused
    (`build_ledger` in scripts/ledger-init.py). */
module LedgerEntries {
  import opened Results
  import opened LedgerPins
  import opened LedgerRuns

  /** The commit an entry was recorded from: the one it names, or without a name that of
      the previous ledger, or this one. The previous ledger's pin is resolved once. */
  predicate StoodAt(repo: Repo, pin: Commit, previous: Ledger, entry: Entry, commit: Commit) {
    if previous.pin == "" then repo.resolve(if entry.pin == "" then pin else entry.pin) == Some(commit)
    else if entry.pin == "" || entry.pin == previous.pin || repo.resolve(previous.pin) == Some(entry.pin) then
      repo.resolve(previous.pin) == Some(commit)
    else repo.resolve(entry.pin) == Some(commit)
  }

  /** The digest the entry had: written in it, or that of its file at the commit it was recorded from. */
  ghost predicate Digest(repo: Repo, pin: Commit, previous: Ledger, entry: Entry, digest: Hash) {
    if entry.hash != [] then digest == entry.hash
    else exists commit :: StoodAt(repo, pin, previous, entry, commit) && FileDigest(repo, commit, entry.go, digest)
  }

  predicate FileDigest(repo: Repo, commit: Commit, path: Path, digest: Hash) {
    repo.blob(commit, path).Some? && digest == repo.hash(repo.blob(commit, path).value)
  }

  /** The pin moves with the ledger when the bytes are the old ones and the entry was in step. */
  ghost predicate PinFits(repo: Repo, pin: Commit, previous: Ledger, prev: Option<Entry>, file: File, written: Commit) {
    if prev.None? then written == pin
    else
      exists commit, digest ::
        && StoodAt(repo, pin, previous, prev.value, commit) && Digest(repo, pin, previous, prev.value, digest)
        && written == if digest == repo.hash(file.content) && previous.pin != "" && repo.resolve(previous.pin) == Some(commit)
                      then pin else commit
  }

  /** Out of scope is out of scope; otherwise the status is the previous one, with `planned`
      for none and `ported` for a claim of being verified. */
  predicate StatusFits(repo: Repo, prev: Option<Entry>, file: File, status: Option<string>) {
    if repo.outOfScope(file.path, file.content) then status == Some("out-of-scope")
    else if prev.None? || prev.value.status.None? then status == Some("planned")
    else if prev.value.status == Some("verified") then status == Some("ported")
    else status == prev.value.status && status.value in {"planned", "in-progress", "ported", "out-of-scope"}
  }

  ghost predicate EntryFits(repo: Repo, pin: Commit, previous: Ledger, file: File, entry: Entry) {
    var prev := Find(previous.files, file.path);
    && entry.go == file.path
    && entry.hash == repo.hash(file.content)
    && entry.rust == (if prev.Some? then prev.value.rust else [])
    && StatusFits(repo, prev, file, entry.status)
    && PinFits(repo, pin, previous, prev, file, entry.pin)
  }

  ghost predicate Readable(repo: Repo, pin: Commit, previous: Ledger) {
    && (forall i, j | 0 <= i < j < |previous.files| :: previous.files[i].go != previous.files[j].go)
    && (previous.pin != "" ==> repo.resolve(previous.pin).Some?)
    && forall entry <- previous.files :: exists digest :: Digest(repo, pin, previous, entry, digest)
  }

  // --- the pieces ------------------------------------------------------------------------------------

  lemma FullIsStood(repo: Repo, pin: Commit, previous: Ledger, entry: Entry, commit: Commit)
    requires OldPin(repo, previous).Accepted?
    ensures var base := OldPin(repo, previous).value;
            FullPin(repo, previous, base, Recorded(entry, base, pin)) == Accepted(commit)
            <==> StoodAt(repo, pin, previous, entry, commit)
  {
  }

  lemma KnownIsDigest(repo: Repo, pin: Commit, previous: Ledger, entry: Entry, digest: Hash)
    requires OldPin(repo, previous).Accepted?
    ensures KnownHash(repo, previous, OldPin(repo, previous).value, pin, entry) == Accepted(digest)
            <==> Digest(repo, pin, previous, entry, digest)
  {
    hide OldPin, FullPin, Recorded, StoodAt;
    var base := OldPin(repo, previous).value;
    var full := FullPin(repo, previous, base, Recorded(entry, base, pin));
    if full.Accepted? {
      FullIsStood(repo, pin, previous, entry, full.value);
    }
    if entry.hash == [] && Digest(repo, pin, previous, entry, digest) {
      var commit :| StoodAt(repo, pin, previous, entry, commit) && FileDigest(repo, commit, entry.go, digest);
      FullIsStood(repo, pin, previous, entry, commit);
    }
  }

  lemma SyncedFits(repo: Repo, pin: Commit, previous: Ledger, entry: Entry, file: File, written: Commit)
    requires OldPin(repo, previous).Accepted?
    ensures SyncedPin(repo, pin, previous, OldPin(repo, previous).value, entry, file.content) == Accepted(written)
            <==> PinFits(repo, pin, previous, Some(entry), file, written)
  {
    OldPinIs(repo, previous);
    hide OldPin, FullPin, KnownHash, Recorded, StoodAt, Digest;
    var base := OldPin(repo, previous).value;
    var full := FullPin(repo, previous, base, Recorded(entry, base, pin));
    var known := KnownHash(repo, previous, base, pin, entry);
    forall commit
      ensures full == Accepted(commit) <==> StoodAt(repo, pin, previous, entry, commit)
    {
      FullIsStood(repo, pin, previous, entry, commit);
    }
    forall digest
      ensures known == Accepted(digest) <==> Digest(repo, pin, previous, entry, digest)
    {
      KnownIsDigest(repo, pin, previous, entry, digest);
    }
    if full.Accepted? && known.Accepted? {
      assert StoodAt(repo, pin, previous, entry, full.value) && Digest(repo, pin, previous, entry, known.value);
    }
    if PinFits(repo, pin, previous, Some(entry), file, written) {
      var commit, digest :| StoodAt(repo, pin, previous, entry, commit) && Digest(repo, pin, previous, entry, digest)
        && written == if digest == repo.hash(file.content) && previous.pin != "" && repo.resolve(previous.pin) == Some(commit)
                      then pin else commit;
      assert full == Accepted(commit) && known == Accepted(digest);
    }
  }

  lemma OldPinIs(repo: Repo, previous: Ledger)
    ensures OldPin(repo, previous).Accepted? <==> (previous.pin != "" ==> repo.resolve(previous.pin).Some?)
    ensures OldPin(repo, previous).Accepted? ==>
              OldPin(repo, previous).value == if previous.pin == "" then None else repo.resolve(previous.pin)
  {
  }

  lemma EntryIffFits(repo: Repo, pin: Commit, previous: Ledger, file: File, entry: Entry)
    requires OldPin(repo, previous).Accepted?
    ensures EntryOf(repo, pin, previous, OldPin(repo, previous).value, Find(previous.files, file.path), file) == Accepted(entry)
            <==> EntryFits(repo, pin, previous, file, entry)
  {
    hide OldPin, SyncedPin;
    var prev := Find(previous.files, file.path);
    if prev.Some? {
      SyncedFits(repo, pin, previous, prev.value, file, entry.pin);
    }
    hide Find;
  }

  lemma {:induction false} DistinctIffAll(files: seq<Entry>)
    ensures |Existing(files)| == |files| <==> forall i, j | 0 <= i < j < |files| :: files[i].go != files[j].go
  {
    if forall i, j | 0 <= i < j < |files| :: files[i].go != files[j].go {
      ExistingAfter(files);
    }
    if files != [] && |Existing(files)| == |files| {
      var before, last := files[..|files| - 1], files[|files| - 1];
      DistinctIffAll(before);
      ExistingNamed(before);
      SameKeys(Existing(before), last.go, last);
      forall i, j | 0 <= i < j < |files| ensures files[i].go != files[j].go {
        if j == |files| - 1 {
          assert before[i] in before;
        } else {
          assert before[i].go != before[j].go;
        }
      }
    }
  }

  lemma FoundIsExisting(files: seq<Entry>, path: Path)
    requires |Existing(files)| == |files|
    ensures At(Existing(files), path) == Find(files, path)
  {
    hide Existing, Find;
    ExistingAll(files);
    ExistingNamed(files);
  }

  lemma {:induction false} EntriesIff(repo: Repo, pin: Commit, previous: Ledger, blobs: seq<File>, entries: seq<Entry>)
    requires OldPin(repo, previous).Accepted? && |Existing(previous.files)| == |previous.files|
    ensures Entries(repo, pin, previous, OldPin(repo, previous).value, Existing(previous.files), blobs) == Accepted(entries) <==>
            |entries| == |blobs| && forall k | 0 <= k < |blobs| :: EntryFits(repo, pin, previous, blobs[k], entries[k])
    decreases |blobs|
  {
    hide OldPin, Existing, EntryOf, EntryFits, Find;
    var base, existing := OldPin(repo, previous).value, Existing(previous.files);
    if blobs != [] {
      var n := |blobs| - 1;
      var file := blobs[n];
      FoundIsExisting(previous.files, file.path);
      if entries != [] {
        EntriesIff(repo, pin, previous, blobs[..n], entries[..|entries| - 1]);
        EntryIffFits(repo, pin, previous, file, entries[|entries| - 1]);
        assert entries == entries[..|entries| - 1] + [entries[|entries| - 1]];
      }
    }
  }

  lemma ReadableIff(repo: Repo, pin: Commit, previous: Ledger)
    ensures Readable(repo, pin, previous) <==>
            && OldPin(repo, previous).Accepted? && |Existing(previous.files)| == |previous.files|
            && Legible(repo, previous, OldPin(repo, previous).value, pin)
  {
    hide Existing, KnownHash, Digest;
    DistinctIffAll(previous.files);
    OldPinIs(repo, previous);
    hide OldPin;
    if OldPin(repo, previous).Accepted? {
      var base := OldPin(repo, previous).value;
      forall entry <- previous.files
        ensures KnownHash(repo, previous, base, pin, entry).Accepted? <==> exists digest :: Digest(repo, pin, previous, entry, digest)
      {
        var known := KnownHash(repo, previous, base, pin, entry);
        if known.Accepted? {
          KnownIsDigest(repo, pin, previous, entry, known.value);
        }
        if digest :| Digest(repo, pin, previous, entry, digest) {
          KnownIsDigest(repo, pin, previous, entry, digest);
        }
      }
    }
  }

  /** The main result. A regeneration writes one entry for each file, with these paths,
      digests, Rust paths, statuses and pins, and is refused in every other case: on
      repeated paths, commits or files that cannot be read, and unsupported statuses. */
  lemma RegeneratesIff(repo: Repo, pin: Commit, previous: Ledger, blobs: seq<File>, entries: seq<Entry>)
    ensures Regenerate(repo, pin, previous, blobs) == Accepted(entries) <==>
            && Readable(repo, pin, previous)
            && |entries| == |blobs|
            && forall k | 0 <= k < |blobs| :: EntryFits(repo, pin, previous, blobs[k], entries[k])
  {
    hide OldPin, Existing, Legible, Readable, Entries, EntryFits;
    ReadableIff(repo, pin, previous);
    if Readable(repo, pin, previous) {
      EntriesIff(repo, pin, previous, blobs, entries);
    }
  }

  // --- statuses over runs ----------------------------------------------------------------------------------

  function StatusAt(files: seq<Entry>, path: Path): Option<string> {
    var entry := Find(files, path);
    if entry.None? then None else entry.value.status
  }

  /** In generation `i` the file is there and in scope. */
  predicate InScope(repo: Repo, run: seq<Generation>, i: nat, path: Path)
    requires i < |run|
  {
    && Present(repo, run, i, path)
    && BytesAt(repo, run, i, path).Some? && !repo.outOfScope(path, BytesAt(repo, run, i, path).value)
  }

  /** What a generation makes of the status it finds. */
  lemma StatusStep(repo: Repo, run: seq<Generation>, i: nat, path: Path)
    requires IsRun(repo, run) && i < |run| && InScope(repo, run, i, path)
    ensures var found, written := StatusAt(run[i].input.files, path), StatusAt(run[i].output, path);
            && written == (if found.None? then Some("planned") else if found == Some("verified") then Some("ported") else found)
            && written.value in {"planned", "in-progress", "ported", "out-of-scope"}
  {
    assert Generates(repo, run[i]);
    ListedIffPresent(repo, run, i, path);
    var g := run[i];
    var blobs := Blobs(repo, g.pin, repo.sources(g.pin)).value;
    RegeneratesIff(repo, g.pin, g.input, blobs, g.output);
    var entry := Find(g.output, path).value;
    var k :| 0 <= k < |g.output| && g.output[k] == entry;
    BlobsRead(repo, g.pin, repo.sources(g.pin));
    hide Find, PinFits, Readable, Blobs, Regenerate;
    assert EntryFits(repo, g.pin, g.input, blobs[k], g.output[k]);
    assert blobs[k] == File(path, BytesAt(repo, run, i, path).value);
  }

  /** Between generation `i` and the one before it the hand left this status alone. */
  predicate HandKeeps(run: seq<Generation>, i: nat, path: Path)
    requires 0 < i < |run|
  {
    StatusAt(run[i].input.files, path) == StatusAt(run[i - 1].output, path)
  }

  lemma StatusKept(repo: Repo, run: seq<Generation>, i: nat, path: Path)
    requires IsRun(repo, run) && 0 < i < |run|
    requires InScope(repo, run, i - 1, path) && InScope(repo, run, i, path) && HandKeeps(run, i, path)
    ensures StatusAt(run[i].output, path) == StatusAt(run[i - 1].output, path)
  {
    hide IsRun, InScope, StatusAt;
    StatusStep(repo, run, i, path);
    StatusStep(repo, run, i - 1, path);
  }

  /** A status stays as long as the file is in scope and the hand leaves it. */
  lemma {:induction false} StatusStays(repo: Repo, run: seq<Generation>, i: nat, j: nat, path: Path)
    requires IsRun(repo, run) && i <= j < |run|
    requires forall m: nat | i <= m <= j :: InScope(repo, run, m, path)
    requires forall m: nat | i < m <= j :: HandKeeps(run, m, path)
    ensures StatusAt(run[j].output, path) == StatusAt(run[i].output, path)
    decreases j
  {
    hide IsRun, InScope, StatusAt, HandKeeps;
    if i < j {
      StatusStays(repo, run, i, j - 1, path);
      StatusKept(repo, run, j, path);
    }
  }
}
