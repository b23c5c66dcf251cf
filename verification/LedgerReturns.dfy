/** The converse for ledger runs: whenever the generated commits go back to one that was
    replaced, some repository's history makes an entry look unchanged that is not. */
module LedgerReturns {
  import opened Results
  import opened LedgerPins
  import opened LedgerRuns

  /** A repository in which every name and every file can be read. */
  ghost predicate Readable(repo: Repo) {
    && (forall name :: repo.resolve(name) == Some(name))
    && (forall commit, path :: repo.blob(commit, path).Some?)
  }

  predicate StatusesOk(files: seq<Entry>) {
    forall entry <- files :: entry.status.Some? && entry.status.value in STATUSES
  }

  // --- a regeneration that cannot fail -------------------------------------------------------------------

  lemma EntryAccepted(repo: Repo, pin: Commit, previous: Ledger, base: Option<Commit>, prev: Option<Entry>, file: File)
    requires Readable(repo) && (prev.Some? ==> prev.value.status.Some? && prev.value.status.value in STATUSES)
    ensures EntryOf(repo, pin, previous, base, prev, file).Accepted?
  {
  }

  lemma {:induction false} EntriesAccepted(repo: Repo, pin: Commit, previous: Ledger, base: Option<Commit>,
                                           existing: map<Path, Entry>, blobs: seq<File>)
    requires Readable(repo)
    requires forall path <- existing :: existing[path].status.Some? && existing[path].status.value in STATUSES
    ensures Entries(repo, pin, previous, base, existing, blobs).Accepted?
  {
    hide EntryOf, Readable;
    if blobs != [] {
      var file := blobs[|blobs| - 1];
      EntriesAccepted(repo, pin, previous, base, existing, blobs[..|blobs| - 1]);
      EntryAccepted(repo, pin, previous, base, At(existing, file.path), file);
    }
  }

  lemma RegenerateAccepted(repo: Repo, pin: Commit, previous: Ledger, blobs: seq<File>)
    requires Readable(repo) && StatusesOk(previous.files) && |Existing(previous.files)| == |previous.files|
    ensures Regenerate(repo, pin, previous, blobs).Accepted?
  {
    var base := OldPin(repo, previous).value;
    forall entry <- previous.files
      ensures KnownHash(repo, previous, base, pin, entry).Accepted?
    {
    }
    hide Readable, KnownHash;
    ExistingNamed(previous.files);
    EntriesAccepted(repo, pin, previous, base, Existing(previous.files), blobs);
  }

  lemma {:induction false} BlobsAccepted(repo: Repo, pin: Commit, paths: seq<Path>)
    requires Readable(repo)
    ensures Blobs(repo, pin, paths).Accepted?
  {
    if paths != [] {
      BlobsAccepted(repo, pin, paths[..|paths| - 1]);
    }
  }

  /** One more commit can always be generated. */
  lemma NextGeneration(repo: Repo, before: seq<Generation>, pin: Commit) returns (last: Generation)
    requires GoodRepo(repo) && Readable(repo) && pin != "" && IsRun(repo, before)
    ensures last.pin == pin && Generates(repo, last) && Linked(before + [last], |before|)
  {
    hide Regenerate, Existing, Blobs, GoodRepo, IsRun, StatusesOk, Edits;
    var n := |before|;
    var input := if n == 0 then Ledger("", []) else Ledger(before[n - 1].pin, before[n - 1].output);
    InputFits(repo, before, n, input);
    BlobsAccepted(repo, pin, repo.sources(pin));
    var blobs := Blobs(repo, pin, repo.sources(pin)).value;
    RegenerateAccepted(repo, pin, input, blobs);
    last := Generation(pin, input, Regenerate(repo, pin, input, blobs).value);
  }

  /** Any list of commits can be generated one after the other. */
  lemma {:induction false} AnyPinsRun(repo: Repo, pins: seq<Commit>) returns (run: seq<Generation>)
    requires GoodRepo(repo) && Readable(repo) && forall pin <- pins :: pin != ""
    ensures IsRun(repo, run) && |run| == |pins| && forall i | 0 <= i < |run| :: run[i].pin == pins[i]
  {
    hide Generates, GoodRepo, Readable, Linked;
    if pins == [] {
      return [];
    }
    var n := |pins| - 1;
    assert forall pin <- pins[..n] :: pin in pins;
    var before := AnyPinsRun(repo, pins[..n]);
    assert pins[n] in pins;
    var last := NextGeneration(repo, before, pins[n]);
    run := before + [last];
    forall i | 0 <= i < |run|
      ensures Generates(repo, run[i]) && Linked(run, i)
    {
      if i < n {
        LinkStays(before, last, i);
      }
    }
  }

  lemma LinkStays(before: seq<Generation>, last: Generation, i: nat)
    requires i < |before|
    ensures Linked(before + [last], i) == Linked(before, i)
  {
  }

  /** What the generation before wrote is a good input. */
  lemma InputFits(repo: Repo, before: seq<Generation>, n: nat, input: Ledger)
    requires GoodRepo(repo) && IsRun(repo, before) && |before| == n
    requires input == if n == 0 then Ledger("", []) else Ledger(before[n - 1].pin, before[n - 1].output)
    ensures StatusesOk(input.files) && |Existing(input.files)| == |input.files|
    ensures n > 0 ==> Edits(before[n - 1].output, input.files)
  {
    hide Regenerate, Blobs;
    if n > 0 {
      assert Generates(repo, before[n - 1]);
      OutputEntries(repo, before[n - 1]);
      hide Existing;
      var files := input.files;
      assert forall k | 0 <= k < |files| :: files[k].go == repo.sources(before[n - 1].pin)[k];
      ExistingAfter(files);
    }
  }

  // --- the first return -----------------------------------------------------------------------------------

  /** Commit `c` brings back the commit of `a`, which `a + 1` replaced. */
  predicate Returns(pins: seq<Commit>, a: int, c: int) {
    && 0 <= a < a + 1 < c < |pins| && pins[a] == pins[c]
    && forall j | a < j < c :: pins[j] != pins[a]
  }

  predicate Straight(pins: seq<Commit>) {
    forall a, b, c | 0 <= a < b < c < |pins| :: pins[a] == pins[c] ==> pins[b] == pins[a]
  }

  lemma StraightUse(pins: seq<Commit>, m: nat, x: int, y: int, z: int)
    requires m <= |pins| && Straight(pins[..m]) && 0 <= x < y < z < m && pins[x] == pins[z]
    ensures pins[y] == pins[x]
  {
    assert pins[..m][x] == pins[x] && pins[..m][y] == pins[y] && pins[..m][z] == pins[z];
  }

  lemma NotBefore(pins: seq<Commit>, s: nat, k: int, pin: Commit)
    requires 0 <= k < |pins| && s <= |pins| && pin !in pins[..s]
    ensures k < s ==> pins[k] != pin
  {
    assert k < s ==> pins[..s][k] == pins[k];
  }

  /** The first time a replaced commit comes back: before it no commit does. */
  lemma {:induction false} FirstReturn(pins: seq<Commit>) returns (a: int, c: int)
    requires !Straight(pins)
    ensures Returns(pins, a, c) && Straight(pins[..c])
  {
    var n := |pins| - 1;
    if !Straight(pins[..n]) {
      a, c := FirstReturn(pins[..n]);
      assert pins[..n][..c] == pins[..c];
      return;
    }
    c := n;
    var x, y, z :| 0 <= x < y < z < |pins| && pins[x] == pins[z] && pins[y] != pins[x];
    assert z == n by {
      if z < n {
        StraightUse(pins, n, x, y, z);
      }
    }
    a := n - 1;
    while a > x && pins[a] != pins[c]
      invariant x <= a < n
      invariant forall j | a < j < n :: pins[j] != pins[c]
    {
      a := a - 1;
    }
    assert a < n - 1 by {
      if a == n - 1 && y < a {
        StraightUse(pins, n, x, y, a);
      }
    }
  }

  /** Where the block of equal commits around `a` begins. */
  function FirstOf(pins: seq<Commit>, pin: Commit): (s: nat)
    requires pin in pins
    ensures s < |pins| && pins[s] == pin && pin !in pins[..s]
  {
    if pins[0] == pin then 0 else 1 + FirstOf(pins[1..], pin)
  }

  /** One file, absent from the commits before `s`, changed by every commit but `kept`. */
  function RepoOf(absent: seq<Commit>, kept: Commit): Repo {
    Repo(name => Some(name), commit => if commit in absent then [] else ["f"],
         (commit, path) => Some(if commit == kept then [0] else [1]),
         content => [0] + content, (path, content) => false)
  }

  lemma RepoOfGood(absent: seq<Commit>, kept: Commit)
    ensures GoodRepo(RepoOf(absent, kept)) && Readable(RepoOf(absent, kept))
  {
    var repo := RepoOf(absent, kept);
    forall a, b | repo.hash(a) == repo.hash(b)
      ensures a == b
    {
      assert repo.hash(a)[1..] == a && repo.hash(b)[1..] == b;
    }
  }

  /** The entry keeps the pin it entered with until its commit comes back. */
  lemma {:induction false} PinKept(repo: Repo, run: seq<Generation>, s: nat, a: int, c: int, i: nat)
    requires GoodRepo(repo) && Readable(repo) && IsRun(repo, run) && s <= a < a + 1 < c < |run| && s <= i <= c
    requires forall j | s <= j <= c :: Present(repo, run, j, "f")
    requires s > 0 ==> !Present(repo, run, s - 1, "f")
    requires forall j | s <= j <= a :: run[j].pin == run[a].pin
    requires forall j | a < j < c :: run[j].pin != run[a].pin
    requires BytesAt(repo, run, a + 1, "f") != BytesAt(repo, run, a, "f")
    requires run[c].pin == run[a].pin
    ensures PinAt(run, i, "f") == run[a].pin
  {
    hide GoodRepo, IsRun, PinAt, Present;
    if i > s {
      PinKept(repo, run, s, a, c, i - 1);
      PinsResolve(repo, run, a);
    }
    PinStep(repo, run, i, "f");
  }

  /** Whenever the commits of a run go back, there is a repository in which the
      file changed since it entered, and its entry is in step all the same. */
  lemma ReturnMisleads(pins: seq<Commit>) returns (repo: Repo, run: seq<Generation>, i: nat)
    requires !Straight(pins) && forall pin <- pins :: pin != ""
    ensures GoodRepo(repo) && IsRun(repo, run) && |run| == |pins| && forall k | 0 <= k < |run| :: run[k].pin == pins[k]
    ensures i < |run| && Present(repo, run, i, "f") && PinAt(run, i, "f") == run[i].pin
    ensures exists j :: Entered(repo, run, i, "f") <= j <= i
                        && BytesAt(repo, run, j, "f") != BytesAt(repo, run, Entered(repo, run, i, "f"), "f")
  {
    hide IsRun, GoodRepo, Readable, PinAt;
    var a, c := FirstReturn(pins);
    var s := FirstOf(pins, pins[a]);
    BlockStarts(pins, s, a, c);
    repo := RepoOf(pins[..s], pins[a]);
    RepoOfGood(pins[..s], pins[a]);
    run := AnyPinsRun(repo, pins);
    assert s > 0 ==> pins[s - 1] in pins[..s];
    i := c;
    PinKept(repo, run, s, a, c, c);
    assert Entered(repo, run, c, "f") == s;
    assert BytesAt(repo, run, a + 1, "f") != BytesAt(repo, run, s, "f");
  }

  /** The first return leaves a block of equal commits, none of whose successors occurred before it. */
  lemma BlockStarts(pins: seq<Commit>, s: nat, a: int, c: int)
    requires Returns(pins, a, c) && Straight(pins[..c])
    requires s < |pins| && pins[s] == pins[a] && pins[a] !in pins[..s]
    ensures s <= a && (forall j | s <= j <= a :: pins[j] == pins[a])
    ensures forall j | s <= j <= c :: pins[j] !in pins[..s]
  {
    NotBefore(pins, s, a, pins[s]);
    forall j | s < j < a
      ensures pins[j] == pins[a]
    {
      StraightUse(pins, c, s, j, a);
    }
    forall j, k | s <= j <= c && 0 <= k < s
      ensures pins[k] != pins[j]
    {
      NotBefore(pins, s, k, pins[a]);
      if s < j < c && pins[k] == pins[j] {
        StraightUse(pins, c, k, s, j);
      }
    }
  }
}
