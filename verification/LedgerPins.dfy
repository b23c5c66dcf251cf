/** The port ledger across regenerations (`build_ledger` in scripts/ledger-init.py):
    which commit each entry is recorded as synchronised with. */
module LedgerPins {
  import opened Results

  type Name = string
  type Commit = string
  type Path = string
  type Content = seq<int>
  type Hash = seq<int>

  /** What the generator asks of the checkout: resolving a commit name, the Go
      source paths of a commit, one file of a commit, the digest of a file's
      bytes, and whether a file is out of scope. */
  datatype Repo = Repo(
    resolve: Name -> Option<Commit>,
    sources: Commit -> seq<Path>,
    blob: (Commit, Path) -> Option<Content>,
    hash: Content -> Hash,
    outOfScope: (Path, Content) -> bool)

  /** An empty `pin` or `hash` is a missing field. */
  datatype Entry = Entry(go: Path, status: Option<string>, rust: seq<string>, pin: Name, hash: Hash)

  datatype Ledger = Ledger(pin: Name, files: seq<Entry>)

  datatype File = File(path: Path, content: Content)

  const STATUSES: set<string> := {"planned", "in-progress", "ported", "out-of-scope"}

  // --- one regeneration ----------------------------------------------------------------------------

  /** The ledger as a dictionary: a later entry for a path replaces an earlier one. */
  function Existing(files: seq<Entry>): map<Path, Entry> {
    if files == [] then map[]
    else
      var last := files[|files| - 1];
      Existing(files[..|files| - 1])[last.go := last]
  }

  function OldPin(repo: Repo, previous: Ledger): Verdict<Option<Commit>> {
    if previous.pin == "" then Accepted(None)
    else
      var commit := repo.resolve(previous.pin);
      if commit.None? then Rejected else Accepted(commit)
  }

  function FullPin(repo: Repo, previous: Ledger, base: Option<Commit>, recorded: Name): Verdict<Commit> {
    if base.Some? && (recorded == previous.pin || recorded == base.value) then Accepted(base.value)
    else
      var commit := repo.resolve(recorded);
      if commit.None? then Rejected else Accepted(commit.value)
  }

  function Recorded(entry: Entry, base: Option<Commit>, pin: Commit): Name {
    if entry.pin != "" then entry.pin else if base.Some? then base.value else pin
  }

  /** The digest an entry vouches for: its own, or that of the recorded commit's file. */
  function KnownHash(repo: Repo, previous: Ledger, base: Option<Commit>, pin: Commit, entry: Entry): Verdict<Hash> {
    if entry.hash != [] then Accepted(entry.hash)
    else
      var commit :- FullPin(repo, previous, base, Recorded(entry, base, pin));
      var content := repo.blob(commit, entry.go);
      if content.None? then Rejected else Accepted(repo.hash(content.value))
  }

  function StatusOf(repo: Repo, prev: Option<Entry>, file: File): Verdict<string> {
    var kept := if prev.Some? && prev.value.status.Some? then prev.value.status.value else "planned";
    var status := if repo.outOfScope(file.path, file.content) then "out-of-scope"
                  else if kept == "verified" then "ported" else kept;
    if status in STATUSES then Accepted(status) else Rejected
  }

  /** The commit an entry is synchronised with after this regeneration. */
  function SyncedPin(repo: Repo, pin: Commit, previous: Ledger, base: Option<Commit>, entry: Entry, content: Content): Verdict<Commit> {
    var full :- FullPin(repo, previous, base, Recorded(entry, base, pin));
    var known :- KnownHash(repo, previous, base, pin, entry);
    Accepted(if known == repo.hash(content) && base == Some(full) then pin else full)
  }

  function EntryOf(repo: Repo, pin: Commit, previous: Ledger, base: Option<Commit>, prev: Option<Entry>, file: File): Verdict<Entry> {
    var status :- StatusOf(repo, prev, file);
    match prev
    case None => Accepted(Entry(file.path, Some(status), [], pin, repo.hash(file.content)))
    case Some(entry) =>
      var synced :- SyncedPin(repo, pin, previous, base, entry, file.content);
      Accepted(Entry(file.path, Some(status), entry.rust, synced, repo.hash(file.content)))
  }

  function At(existing: map<Path, Entry>, path: Path): Option<Entry> {
    if path in existing then Some(existing[path]) else None
  }

  function Entries(repo: Repo, pin: Commit, previous: Ledger, base: Option<Commit>, existing: map<Path, Entry>, blobs: seq<File>)
    : (r: Verdict<seq<Entry>>)
    ensures r.Accepted? ==> |r.value| == |blobs|
  {
    if blobs == [] then Accepted([])
    else
      var file := blobs[|blobs| - 1];
      var before :- Entries(repo, pin, previous, base, existing, blobs[..|blobs| - 1]);
      var entry :- EntryOf(repo, pin, previous, base, At(existing, file.path), file);
      Accepted(before + [entry])
  }

  predicate Legible(repo: Repo, previous: Ledger, base: Option<Commit>, pin: Commit) {
    forall entry <- previous.files :: KnownHash(repo, previous, base, pin, entry).Accepted?
  }

  /** One regeneration: the whole new list of entries. */
  function Regenerate(repo: Repo, pin: Commit, previous: Ledger, blobs: seq<File>): Verdict<seq<Entry>> {
    var base :- OldPin(repo, previous);
    var existing := Existing(previous.files);
    if |existing| != |previous.files| || !Legible(repo, previous, base, pin) then Rejected
    else Entries(repo, pin, previous, base, existing, blobs)
  }

  // --- the loops --------------------------------------------------------------------------------------

  /** The closure over the commits already resolved. */
  class PinCache {
    const repo: Repo
    const previous: Ledger
    const base: Option<Commit>
    var resolved: map<Name, Commit>

    ghost predicate Valid()
      reads this
    {
      && (forall name <- resolved :: FullPin(repo, previous, base, name) == Accepted(resolved[name]))
      && (base.Some? ==> previous.pin in resolved && base.value in resolved)
    }

    constructor (repo: Repo, previous: Ledger, base: Option<Commit>)
      ensures Valid() && this.repo == repo && this.previous == previous && this.base == base
    {
      this.repo := repo;
      this.previous := previous;
      this.base := base;
      resolved := if base.Some? then map[previous.pin := base.value, base.value := base.value] else map[];
    }

    method Full(recorded: Name) returns (r: Verdict<Commit>)
      requires Valid()
      modifies this`resolved
      ensures Valid() && r == FullPin(repo, previous, base, recorded)
      ensures old(resolved).Keys <= resolved.Keys
    {
      if recorded !in resolved {
        var commit := repo.resolve(recorded);
        if commit.None? {
          return Rejected;
        }
        resolved := resolved[recorded := commit.value];
      }
      return Accepted(resolved[recorded]);
    }

    /** The digest of the file an entry without one was recorded from. */
    method LegacyHash(pin: Commit, entry: Entry) returns (r: Verdict<Hash>)
      requires Valid() && entry.hash == []
      modifies this`resolved
      ensures Valid() && r == KnownHash(repo, previous, base, pin, entry)
    {
      var commit :- Full(Recorded(entry, base, pin));
      var content := repo.blob(commit, entry.go);
      return if content.None? then Rejected else Accepted(repo.hash(content.value));
    }
  }

  lemma {:induction false} ExistingNamed(files: seq<Entry>)
    ensures |Existing(files)| <= |files|
    ensures forall path <- Existing(files) :: Existing(files)[path].go == path && Existing(files)[path] in files
    ensures forall entry <- files :: entry.go in Existing(files)
  {
    if files != [] {
      ExistingNamed(files[..|files| - 1]);
    }
  }

  /** The digests of the entries that carry none. */
  method OldHashes(cache: PinCache, pin: Commit, existing: map<Path, Entry>, paths: seq<Path>)
    returns (r: Verdict<map<Path, Hash>>)
    requires cache.Valid()
    requires forall path <- paths :: path in existing && existing[path].go == path
    modifies cache`resolved
    ensures cache.Valid()
    ensures r.Accepted? <==> forall path <- paths :: KnownHash(cache.repo, cache.previous, cache.base, pin, existing[path]).Accepted?
    ensures r.Accepted? ==> forall path <- paths | existing[path].hash == [] ::
                              path in r.value && KnownHash(cache.repo, cache.previous, cache.base, pin, existing[path]) == Accepted(r.value[path])
  {
    hide KnownHash;
    var hashes: map<Path, Hash> := map[];
    for i := 0 to |paths|
      invariant cache.Valid()
      invariant forall k | 0 <= k < i :: KnownHash(cache.repo, cache.previous, cache.base, pin, existing[paths[k]]).Accepted?
      invariant forall k | 0 <= k < i && existing[paths[k]].hash == [] ::
                  paths[k] in hashes && KnownHash(cache.repo, cache.previous, cache.base, pin, existing[paths[k]]) == Accepted(hashes[paths[k]])
    {
      var path := paths[i];
      if existing[path].hash == [] {
        var known := cache.LegacyHash(pin, existing[path]);
        if known.Rejected? {
          assert path in paths;
          return Rejected;
        }
        hashes := hashes[path := known.value];
      } else {
        CarriedHash(cache.repo, cache.previous, cache.base, pin, existing[path]);
      }
    }
    return Accepted(hashes);
  }

  lemma CarriedHash(repo: Repo, previous: Ledger, base: Option<Commit>, pin: Commit, entry: Entry)
    requires entry.hash != []
    ensures KnownHash(repo, previous, base, pin, entry) == Accepted(entry.hash)
  {
  }

  /** One file of the new ledger. */
  method BuildEntry(cache: PinCache, pin: Commit, prev: Option<Entry>, oldHashes: map<Path, Hash>, file: File)
    returns (r: Verdict<Entry>)
    requires cache.Valid()
    requires prev.Some? ==> prev.value.go == file.path
    requires prev.Some? && prev.value.hash == [] ==>
               && file.path in oldHashes
               && KnownHash(cache.repo, cache.previous, cache.base, pin, prev.value) == Accepted(oldHashes[file.path])
    modifies cache`resolved
    ensures cache.Valid()
    ensures r == EntryOf(cache.repo, pin, cache.previous, cache.base, prev, file)
  {
    hide FullPin;
    var status := if cache.repo.outOfScope(file.path, file.content) then "out-of-scope"
                  else if prev.Some? && prev.value.status.Some? then prev.value.status.value else "planned";
    if status == "verified" {
      status := "ported";
    }
    if status !in STATUSES {
      return Rejected;
    }
    var sourceHash := cache.repo.hash(file.content);
    var synced := pin;
    if prev.Some? {
      synced :- cache.Full(Recorded(prev.value, cache.base, pin));
      var previousHash := if prev.value.hash != [] then prev.value.hash else oldHashes[file.path];
      if previousHash == sourceHash && cache.base == Some(synced) {
        synced := pin;
      }
    }
    return Accepted(Entry(file.path, Some(status), if prev.Some? then prev.value.rust else [], synced, sourceHash));
  }

  method BuildLedger(repo: Repo, pin: Commit, previous: Ledger, blobs: seq<File>) returns (r: Verdict<seq<Entry>>)
    ensures r == Regenerate(repo, pin, previous, blobs)
  {
    hide FullPin, KnownHash, EntryOf;
    var base :- OldPin(repo, previous);
    var cache := new PinCache(repo, previous, base);
    var existing := map[];
    var paths := [];
    for i := 0 to |previous.files|
      invariant existing == Existing(previous.files[..i])
      invariant forall path :: path in paths <==> path in existing
    {
      var entry := previous.files[i];
      assert previous.files[..i + 1][..i] == previous.files[..i];
      if entry.go !in existing {
        paths := paths + [entry.go];
      }
      existing := existing[entry.go := entry];
    }
    assert previous.files[..|previous.files|] == previous.files;
    if |existing| != |previous.files| {
      return Rejected;
    }
    ExistingNamed(previous.files);
    ExistingAll(previous.files);
    var hashes := OldHashes(cache, pin, existing, paths);
    assert Legible(repo, previous, base, pin) <==> hashes.Accepted? by {
      if !hashes.Accepted? {
        var path :| path in paths && KnownHash(repo, previous, base, pin, existing[path]).Rejected?;
        assert existing[path] in previous.files;
      }
    }
    if hashes.Rejected? {
      return Rejected;
    }
    var entries := [];
    for i := 0 to |blobs|
      invariant cache.Valid()
      invariant Entries(repo, pin, previous, base, existing, blobs[..i]) == Accepted(entries)
      invariant Regenerate(repo, pin, previous, blobs) == Entries(repo, pin, previous, base, existing, blobs)
    {
      var file := blobs[i];
      assert blobs[..i + 1][..i] == blobs[..i];
      var entry := BuildEntry(cache, pin, At(existing, file.path), hashes.value, file);
      if entry.Rejected? {
        RejectedPrefix(repo, pin, previous, base, existing, blobs, i + 1);
        return Rejected;
      }
      entries := entries + [entry.value];
    }
    assert blobs[..|blobs|] == blobs;
    return Accepted(entries);
  }

  lemma {:induction false} RejectedPrefix(repo: Repo, pin: Commit, previous: Ledger, base: Option<Commit>,
                                          existing: map<Path, Entry>, blobs: seq<File>, n: nat)
    requires n <= |blobs| && Entries(repo, pin, previous, base, existing, blobs[..n]).Rejected?
    ensures Entries(repo, pin, previous, base, existing, blobs).Rejected?
    decreases |blobs|
  {
    hide EntryOf;
    if n < |blobs| {
      assert blobs[..|blobs| - 1][..n] == blobs[..n];
      RejectedPrefix(repo, pin, previous, base, existing, blobs[..|blobs| - 1], n);
    } else {
      assert blobs[..n] == blobs;
    }
  }

  lemma SameKeys<K, V>(m: map<K, V>, key: K, value: V)
    ensures key in m ==> |m[key := value]| == |m|
    ensures key !in m ==> |m[key := value]| == |m| + 1
  {
    if key in m {
      assert m[key := value].Keys == m.Keys;
    } else {
      assert m[key := value].Keys == m.Keys + {key};
    }
  }

  /** Without duplicate paths, the dictionary holds every entry. */
  lemma {:induction false} ExistingAll(files: seq<Entry>)
    requires |Existing(files)| == |files|
    ensures forall entry <- files :: entry.go in Existing(files) && Existing(files)[entry.go] == entry
  {
    if files != [] {
      var before, last := files[..|files| - 1], files[|files| - 1];
      ExistingNamed(before);
      var smaller := Existing(before);
      SameKeys(smaller, last.go, last);
      assert |smaller[last.go := last]| == |smaller| + 1;
      ExistingAll(before);
    }
  }

  // --- ledgers without digests -----------------------------------------------------------------------------

  /** The entry with the digest its recorded commit vouches for. */
  function Filled(repo: Repo, previous: Ledger, base: Option<Commit>, pin: Commit, entry: Entry): (filled: Entry)
    ensures filled.go == entry.go
  {
    var known := KnownHash(repo, previous, base, pin, entry);
    if known.Rejected? then entry else entry.(hash := known.value)
  }

  function FillAll(repo: Repo, previous: Ledger, base: Option<Commit>, pin: Commit, files: seq<Entry>): (filled: seq<Entry>)
    ensures |filled| == |files|
    ensures forall k | 0 <= k < |files| :: filled[k] == Filled(repo, previous, base, pin, files[k])
  {
    if files == [] then []
    else FillAll(repo, previous, base, pin, files[..|files| - 1]) + [Filled(repo, previous, base, pin, files[|files| - 1])]
  }

  lemma {:induction false} ExistingFilled(repo: Repo, previous: Ledger, base: Option<Commit>, pin: Commit, files: seq<Entry>)
    ensures var plain, filled := Existing(files), Existing(FillAll(repo, previous, base, pin, files));
            plain.Keys == filled.Keys && forall path <- plain :: filled[path] == Filled(repo, previous, base, pin, plain[path])
  {
    hide Filled;
    if files != [] {
      var before := files[..|files| - 1];
      ExistingFilled(repo, previous, base, pin, before);
      assert FillAll(repo, previous, base, pin, files)[..|files| - 1] == FillAll(repo, previous, base, pin, before);
    }
  }

  /** Filling one digest in changes neither what the entry vouches for nor its pin. */
  lemma FilledEntry(repo: Repo, pin: Commit, previous: Ledger, filled: Ledger, base: Option<Commit>, entry: Entry, file: File)
    requires (forall c :: repo.hash(c) != []) && filled.pin == previous.pin
    requires KnownHash(repo, previous, base, pin, entry).Accepted?
    ensures var full := Filled(repo, previous, base, pin, entry);
            && KnownHash(repo, filled, base, pin, full) == KnownHash(repo, previous, base, pin, entry)
            && EntryOf(repo, pin, filled, base, Some(full), file) == EntryOf(repo, pin, previous, base, Some(entry), file)
  {
  }

  lemma {:induction false} FilledEntries(repo: Repo, pin: Commit, previous: Ledger, filled: Ledger, base: Option<Commit>, blobs: seq<File>)
    requires (forall c :: repo.hash(c) != []) && Legible(repo, previous, base, pin)
    requires filled == Ledger(previous.pin, FillAll(repo, previous, base, pin, previous.files))
    ensures Entries(repo, pin, filled, base, Existing(filled.files), blobs)
            == Entries(repo, pin, previous, base, Existing(previous.files), blobs)
  {
    hide KnownHash, EntryOf, Filled, Existing;
    if blobs != [] {
      var file := blobs[|blobs| - 1];
      FilledEntries(repo, pin, previous, filled, base, blobs[..|blobs| - 1]);
      ExistingFilled(repo, previous, base, pin, previous.files);
      ExistingNamed(previous.files);
      var prev := At(Existing(previous.files), file.path);
      if prev.Some? {
        FilledEntry(repo, pin, previous, filled, base, prev.value, file);
      } else {
        FreshEntry(repo, pin, previous, filled, base, file);
      }
    }
  }

  lemma FreshEntry(repo: Repo, pin: Commit, previous: Ledger, filled: Ledger, base: Option<Commit>, file: File)
    ensures EntryOf(repo, pin, filled, base, None, file) == EntryOf(repo, pin, previous, base, None, file)
  {
  }

  /** A ledger without digests regenerates as if each entry had carried the
      digest of its file at the commit it was recorded from. */
  lemma LegacyAsFilled(repo: Repo, pin: Commit, previous: Ledger, blobs: seq<File>)
    requires (forall c :: repo.hash(c) != []) && Regenerate(repo, pin, previous, blobs).Accepted?
    ensures var base := OldPin(repo, previous).value;
            var filled := Ledger(previous.pin, FillAll(repo, previous, base, pin, previous.files));
            && (forall entry <- filled.files :: entry.hash != [])
            && Regenerate(repo, pin, filled, blobs) == Regenerate(repo, pin, previous, blobs)
  {
    hide EntryOf, Existing, Entries, KnownHash, Filled;
    var base := OldPin(repo, previous).value;
    var filled := Ledger(previous.pin, FillAll(repo, previous, base, pin, previous.files));
    ExistingFilled(repo, previous, base, pin, previous.files);
    FilledEntries(repo, pin, previous, filled, base, blobs);
    forall k | 0 <= k < |filled.files|
      ensures filled.files[k].hash != [] && KnownHash(repo, filled, base, pin, filled.files[k]).Accepted?
    {
      assert previous.files[k] in previous.files;
      FilledEntry(repo, pin, previous, filled, base, previous.files[k], File("", []));
      FilledHash(repo, pin, previous, base, previous.files[k]);
    }
    assert |Existing(filled.files).Keys| == |Existing(previous.files).Keys|;
  }

  lemma FilledHash(repo: Repo, pin: Commit, previous: Ledger, base: Option<Commit>, entry: Entry)
    requires (forall c :: repo.hash(c) != []) && KnownHash(repo, previous, base, pin, entry).Accepted?
    ensures Filled(repo, previous, base, pin, entry).hash != []
  {
  }
}
