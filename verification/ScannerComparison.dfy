/** Comparing two complete scanner streams (`compare_case` in scripts/s05_protocol.py).
    A digest is the list of what was fed to it. */
module ScannerComparison {
  import opened Results
  import opened ScannerStream
  import opened ScannerProperties

  datatype ExpectedPanic = ExpectedPanic(action: int, name: string, input: Option<seq<Byte>>, message: string)

  datatype Witness = Witness(action: int, codes: seq<int>)

  /** A case: the contract panic and the diagnostic codes it must show, if any, and
      the actions whose values are tokens. */
  datatype Item = Item(expected: Option<ExpectedPanic>, wanted: Option<Witness>, token: int -> bool)

  datatype Report = Report(pass: bool, diagnostics: bool, values: bool, oracleCount: nat, rustCount: nat)

  predicate IsPanic(o: Observation) {
    o.seen.status.Panic?
  }

  predicate ExpectedMatches(item: Item, o: Observation)
    requires IsPanic(o)
  {
    && item.expected.Some?
    && var e := item.expected.value;
       && o.action == e.action
       && o.seen.status.claimed.name == e.name
       && (e.name == "bounds"
           || if e.name == "invalid_bigint" then o.seen.status.claimed.input == e.input else o.seen.status.message == e.message)
  }

  // --- what is fed to the digests ----------------------------------------------------------------------------

  function Tag(action: int, diagnostics: seq<Diagnostic>): (tagged: seq<(int, Diagnostic)>)
    ensures |tagged| == |diagnostics|
  {
    seq(|diagnostics|, k requires 0 <= k < |diagnostics| => (action, diagnostics[k]))
  }

  function Codes(diagnostics: seq<Diagnostic>): seq<int> {
    seq(|diagnostics|, k requires 0 <= k < |diagnostics| => diagnostics[k].code)
  }

  /** Everything gathered about one stream. */
  datatype Gathered = Gathered(diagnostics: seq<(int, Diagnostic)>, values: seq<(int, seq<Byte>, seq<Byte>)>, codes: seq<int>,
                               panicked: bool, expected: bool)

  const NONE := Gathered([], [], [], false, true)

  function Gather(item: Item, g: Gathered, o: Observation): Gathered {
    Gathered(
      g.diagnostics + Tag(o.action, o.seen.diagnostics),
      if o.seen.status.Done? && item.token(o.action)
      then g.values + [(o.action, o.seen.status.value.text, o.seen.status.value.value)] else g.values,
      if item.wanted.Some? && o.action == item.wanted.value.action then g.codes + Codes(o.seen.diagnostics) else g.codes,
      g.panicked || IsPanic(o),
      g.expected && (IsPanic(o) ==> ExpectedMatches(item, o)))
  }

  function GatherAll(item: Item, obs: seq<Observation>): Gathered {
    if obs == [] then NONE else Gather(item, GatherAll(item, obs[..|obs| - 1]), obs[|obs| - 1])
  }

  /** The two observations at one place agree. */
  predicate PairOk(item: Item, left: Observation, right: Observation) {
    && (IsPanic(left) ==> ExpectedMatches(item, left))
    && (IsPanic(right) ==> ExpectedMatches(item, right))
    && (if IsPanic(left) && IsPanic(right) then left.seen.diagnostics == right.seen.diagnostics else left == right)
  }

  predicate PairsOk(item: Item, oracle: seq<Observation>, rust: seq<Observation>) {
    |oracle| == |rust| && forall k | 0 <= k < |oracle| :: PairOk(item, oracle[k], rust[k])
  }

  function Judge(item: Item, oracle: seq<Observation>, rust: seq<Observation>): Report {
    var a, b := GatherAll(item, oracle), GatherAll(item, rust);
    var witnessed := item.wanted.None? || (a.codes == item.wanted.value.codes && b.codes == item.wanted.value.codes);
    var shown := item.expected.None? || (a.panicked && b.panicked);
    var complete := a.expected && b.expected && shown;
    Report(PairsOk(item, oracle, rust) && shown && witnessed,
           complete && witnessed && a.diagnostics == b.diagnostics,
           complete && a.values == b.values, |oracle|, |rust|)
  }

  lemma GatherNext(item: Item, obs: seq<Observation>, k: nat)
    requires k < |obs|
    ensures GatherAll(item, obs[..k + 1]) == Gather(item, GatherAll(item, obs[..k]), obs[k])
  {
    assert obs[..k + 1][..k] == obs[..k];
  }

  method CompareCase(item: Item, oracle: seq<Observation>, rust: seq<Observation>) returns (r: Report)
    ensures r == Judge(item, oracle, rust)
  {
    hide Gather, PairOk;
    var matched := true;
    var a, b := NONE, NONE;
    var most := if |oracle| < |rust| then |rust| else |oracle|;
    for k := 0 to most
      invariant a == GatherAll(item, oracle[..if k < |oracle| then k else |oracle|])
      invariant b == GatherAll(item, rust[..if k < |rust| then k else |rust|])
      invariant matched <==> k <= |oracle| && k <= |rust| && forall i | 0 <= i < k :: PairOk(item, oracle[i], rust[i])
    {
      if k < |oracle| {
        GatherNext(item, oracle, k);
        a := Gather(item, a, oracle[k]);
      }
      if k < |rust| {
        GatherNext(item, rust, k);
        b := Gather(item, b, rust[k]);
      }
      matched := matched && k < |oracle| && k < |rust| && PairOk(item, oracle[k], rust[k]);
    }
    assert oracle[..|oracle|] == oracle && rust[..|rust|] == rust;
    var complete := a.expected && b.expected;
    if item.expected.Some? && !(a.panicked && b.panicked) {
      matched, complete := false, false;
    }
    var witnessed := item.wanted.None? || (a.codes == item.wanted.value.codes && b.codes == item.wanted.value.codes);
    if !witnessed {
      matched := false;
    }
    r := Report(matched, complete && witnessed && a.diagnostics == b.diagnostics, complete && a.values == b.values, |oracle|, |rust|);
  }

  // --- what the verdict means ------------------------------------------------------------------------------------

  lemma {:induction false} GatherFlags(item: Item, obs: seq<Observation>)
    ensures GatherAll(item, obs).panicked <==> exists o <- obs :: IsPanic(o)
    ensures GatherAll(item, obs).expected <==> forall o <- obs :: IsPanic(o) ==> ExpectedMatches(item, o)
  {
    hide ExpectedMatches;
    if obs != [] {
      GatherFlags(item, obs[..|obs| - 1]);
      assert obs == obs[..|obs| - 1] + [obs[|obs| - 1]];
    }
  }

  lemma {:induction false} SameDigests(item: Item, oracle: seq<Observation>, rust: seq<Observation>)
    requires PairsOk(item, oracle, rust)
    ensures GatherAll(item, oracle).diagnostics == GatherAll(item, rust).diagnostics
    ensures GatherAll(item, oracle).values == GatherAll(item, rust).values
    ensures GatherAll(item, oracle).expected && GatherAll(item, rust).expected
  {
    if oracle != [] {
      var n := |oracle| - 1;
      assert PairOk(item, oracle[n], rust[n]);
      SameDigests(item, oracle[..n], rust[..n]);
    }
  }

  /** Passing implies both narrower verdicts. */
  lemma PassImpliesDigests(item: Item, oracle: seq<Observation>, rust: seq<Observation>)
    requires Judge(item, oracle, rust).pass
    ensures Judge(item, oracle, rust).diagnostics && Judge(item, oracle, rust).values
  {
    hide Gather, PairOk;
    SameDigests(item, oracle, rust);
  }

  /** In a complete stream only the very last observation can be a panic. */
  lemma {:induction false} PanicLast(groups: seq<seq<Seen>>, request: Request)
    requires GroupsOk(groups, request)
    ensures forall k | 0 <= k < |Flat(groups)| :: IsPanic(Flat(groups)[k]) <==> k == |Flat(groups)| - 1 && Stopped(groups)
    ensures groups != [] ==> Flat(groups) != []
  {
    hide StatusOk, SourceAt;
    if groups != [] {
      var m := |groups| - 1;
      var before, group := groups[..m], groups[m];
      assert forall i | 0 <= i < m :: GroupOk(groups[i], request, i);
      PanicLast(before, request);
      assert GroupOk(group, request, m);
      assert m > 0 ==> !Panics(groups[m - 1]);
      assert forall k | 0 <= k < |group| :: group[k].status.Panic? ==> Closes(request.actions[m], group[k].status);
    }
  }

  /** The streams are the same observations, without a panic. */
  predicate SameRun(oracle: seq<Observation>, rust: seq<Observation>) {
    oracle == rust && forall o <- oracle :: !IsPanic(o)
  }

  /** The streams are the same up to a final panic each, both the expected one,
      with the same diagnostics. */
  predicate SamePanic(item: Item, oracle: seq<Observation>, rust: seq<Observation>) {
    && |oracle| == |rust| > 0
    && oracle[..|oracle| - 1] == rust[..|rust| - 1]
    && var a, b := oracle[|oracle| - 1], rust[|rust| - 1];
       && IsPanic(a) && IsPanic(b) && ExpectedMatches(item, a) && ExpectedMatches(item, b)
       && a.seen.diagnostics == b.seen.diagnostics
  }

  predicate Witnessed(item: Item, oracle: seq<Observation>, rust: seq<Observation>) {
    item.wanted.Some? ==>
      GatherAll(item, oracle).codes == item.wanted.value.codes && GatherAll(item, rust).codes == item.wanted.value.codes
  }

  /** The main result: two complete streams, each judged by its own runtime's panic
      classification, pass exactly when they are the same run, or the same up to
      the one panic the case expects. */
  lemma PassIffSame(item: Item, left: Request, right: Request, a: seq<seq<Seen>>, b: seq<seq<Seen>>)
    requires GroupsOk(a, left) && GroupsOk(b, right)
    ensures Judge(item, Flat(a), Flat(b)).pass <==>
              && Witnessed(item, Flat(a), Flat(b))
              && if item.expected.Some? then SamePanic(item, Flat(a), Flat(b)) else SameRun(Flat(a), Flat(b))
  {
    hide Flat, GroupsOk, Gather, ExpectedMatches;
    PanicLast(a, left);
    PanicLast(b, right);
    var oracle, rust := Flat(a), Flat(b);
    GatherFlags(item, oracle);
    GatherFlags(item, rust);
    hide GatherAll;
    PairsSame(item, oracle, rust);
  }

  lemma PairsSame(item: Item, oracle: seq<Observation>, rust: seq<Observation>)
    requires forall k | 0 <= k < |oracle| - 1 :: !IsPanic(oracle[k])
    requires forall k | 0 <= k < |rust| - 1 :: !IsPanic(rust[k])
    ensures PairsOk(item, oracle, rust) && (exists o <- oracle :: IsPanic(o)) <==> SamePanic(item, oracle, rust)
    ensures PairsOk(item, oracle, rust) && !(exists o <- oracle :: IsPanic(o)) <==> SameRun(oracle, rust)
    ensures SamePanic(item, oracle, rust) ==> (exists o <- oracle :: IsPanic(o)) && exists o <- rust :: IsPanic(o)
    ensures SamePanic(item, oracle, rust) || PairsOk(item, oracle, rust) ==> item.expected.Some? || SameRun(oracle, rust)
  {
    var n := |oracle| - 1;
    if |oracle| == |rust| > 0 {
      assert oracle == oracle[..n] + [oracle[n]] && rust == rust[..n] + [rust[n]];
      assert forall k | 0 <= k < n :: PairOk(item, oracle[k], rust[k]) <==> oracle[k] == rust[k];
      assert oracle[n] in oracle && rust[n] in rust;
    }
  }
}
