# Verified models of the parity, evidence and generation tools

The repository's Python tools decide whether the Rust port may be believed: they read the
observation streams of two implementations, compare them, apply patches, take measurements,
walk dependency graphs and keep the evidence files. This project models those decisions in
Dafny and proves what each of them guarantees, for every input and every run.

Where the tools update an object or run a loop, the model does the same: a class or a method
with its loop, proved equal to a specification function. What the specification means is then
proved apart from the code, as a characterisation that does not mention the loop's state.

For each main operation one module states the whole decision in terms of its input and output alone,
without the functions the loops compute, and proves the two equivalent for all inputs: `BinderFields`
and `BinderWellFormed`, `BinderLockstep`, `ParserGrammar` and `ParserVerdict`, `ScannerVerdict`,
`UnifiedDiffGrammar`, `SamplingSeries`, `LedgerEntries`, `OrderLegal` and `ParityReport`.

- **Binder streams** (`Binder*`, `BackingGroups`, `Decimals`): stages, fragments, a graph with
  numbered identities and shared slices. A run is accepted exactly when it spells a request, and
  two complete runs compare equal exactly when they agree stage by stage.
- **Parser streams** (`Parser*`, `PreorderTrees`): stages, byte tiles, pre-order trees, and the
  lockstep comparison of two complete streams.
- **Scanner streams** (`Scanner*`): groups of observations per action, and their comparison.
- **Patches** (`TextLines`, `UnifiedDiff*`): a strict parser, application without fuzz, undoing.
  The format is that of POSIX.1-2017 `diff`, "Diff -u or -U Output Format".
- **Sampling** (`Sampling*`): a producer that extends its series by a rule, and the validator that
  recognises exactly what the producer can emit.
- **Graphs** (`OperationGraph`, `OperationMatrix*`, `PackageOrder`, `FoldTables`): a worklist closure
  and its independent check, cycle detection against a publish order, permutation tables.
- **Small languages** (`GoQuoted`, `RustLiterals`, `BuildConstraint`, `BatchReader`, `InputDigest`,
  `Utf8`): decoders with their round trips. Go spellings follow the Go specification, sections
  "String literals" and "Rune literals"; Rust ones the Rust reference, sections "Character and
  string literals" and "Byte and byte string literals".
- **Evidence over runs** (`Ledger*`, `Order*`, `Parity*`): pins across
  regenerations, creation traces, shards merged, checked and accepted.

A raised `ValueError`, `IndexError` or `sys.exit` is the value `Rejected` (or `false`). JSON values
that fail a shape check are one constructor of the frame type, which every stream rejects. A
SHA-256 digest is the list of what was fed to it, or, in the ledger, an injective function.

Five properties one might expect do not hold of the code as it stands; each has its exact
condition, and a concrete failing input:

- Undoing a patch restores a text exactly when no kept line that comes to stand before another
  one is unterminated, or ends in a lone carriage return before a newline
  (`ReverseTextIff`, `UnterminatedNotRestored`).
- A created operation document is valid exactly when all functions the roots lead to are source or
  generated ones without unresolved calls, or listed stops, some operation has a root and the
  initialisers are in order (`CreatedIsValid`, `HarnessRootRefused`).
- An entry's pin says whether its bytes changed exactly when the ledger never went back to a
  replaced commit (`InStepIffUnchanged`, `ReturnMisleads`, `ReturnBreaksTheRule`).
- Reported ties follow the final ids exactly when each tie's ids were assigned when it was shown, or
  turn out on the side shown (`TiesEmbedIff`, `TieAgreesIff`, `UnassignedTiesContradict`).
- The verdict of `check` is independent of the sharding exactly for batch suites and for rosters in
  which no variant id is nested under another (`IndependentIffSeparable`, with the answers of
  `DirectDiffers`, `DeepWhole` and `DeepAlone`); what `accept` writes, exactly for rosters without
  nesting (`AcceptIffNoNested`, `LastAccepted`).

The evaluator of build constraints skips a closing parenthesis unread, and ignores what follows
an expression; `MissingCloseAccepted` and `PrintedEvaluates` say precisely what that means.

`dafny verify dfyconfig.toml` checks the whole project.

## Model

| member | source | states |
|---|---|---|
| BackingGroups.SharedAnyOrder | scripts/s07_binder.py:187-198 | Whether the spans of a backing group are windows of one array, windows that start at 0 and cross every interior boundary, does not depend on the order of the records, equal starts included; neither does the set of arrays that back them. |
| BackingGroups.BackingUnique | scripts/s07_binder.py:191-198 | At most one array backs a group: every element of it is visible through some span. |
| BackingGroups.SortAscends | scripts/s07_binder.py:188 | Sorting by start gives ascending starts and loses, adds or changes no span. |
| BackingGroups.GapRefutes | scripts/s07_binder.py:193-194 | A span that starts at or past the end of the known contents leaves a boundary no span crosses, so no array backs the group. |
| BackingGroups.CheckGroup | scripts/s07_binder.py:187-198 | The loop over one group accepts exactly when there is one array of which every span is a window, the windows reach back to 0 and every interior boundary is crossed. |
| BinderNames.NameOkIffReconstructs | scripts/s07_binder.py:65-87 | `name_identity` accepts an identity exactly when its prefix and suffix are a known delimiter pair and one positive decimal number without leading zeros between them reconstructs the literal bytes. |
| BinderNames.NumberUnique | scripts/s07_binder.py:65-87 | The number that reconstructs a name is unique. |
| BinderGraphProperties.AcceptsIffClosed | scripts/s07_binder.py:143-311 | A run of the validator over any record list ends accepted and closed exactly on a closed graph: one source first, records numbered 1, 2, ... per kind and locally legal, final counts that match, no dangling reference, every backing group shared; and the digest then holds exactly the records fed. |
| BinderGraphProperties.EmittedIffCounted | scripts/s07_binder.py:201-203 | In a closed graph an identity of a kind was emitted exactly when it lies between 1 and the count of the kind. |
| BinderGraphProperties.ClosedGraphNames | scripts/s07_binder.py:181-203 | In a closed graph identities ascend strictly within each kind, and every nonzero edge of every record names an emitted record of its domain. |
| BinderGraphProperties.GroupsInOrder | scripts/s07_binder.py:204-215 | Backing groups are numbered by first appearance: group g is opened by a record before which exactly g - 1 groups were open. |
| BinderFields.FieldsIff | scripts/s07_binder.py:126-311 | A record's own checks hold and its edges reach emitted records exactly when every field is in order: which field names a record of which kind, and whether it may be empty, for all nine kinds and the source, for syntax fields by category, names, table entries, diagnostics with their chains, and flow data. |
| BinderWellFormed.ClosedIffWellFormed | scripts/s07_binder.py:143-311 | A run of the validator ends accepted and closed exactly on records that are the source, then records numbered 1, 2, ... per kind with all fields in order, then their true numbers, where each backing group is opened in turn and one array stands behind all its records. |
| BinderValidator.DiagnosticsInOrder | scripts/s07_binder.py:167-177 | The one-pass check accepts exactly the diagnostics grouped by collection in the fixed order and numbered from 0 within each collection. |
| BinderValidator.EntriesInOrder | scripts/s07_binder.py:272-281 | The loop over a symbol table accepts exactly the entries with legal names in strictly ascending byte order. |
| BinderValidator.EntriesAscend | scripts/s07_binder.py:278-280 | In accepted entries any earlier name is smaller than, and different from, any later one. |
| BinderValidator.GraphValidator.constructor | scripts/s07_binder.py:111-118 | A fresh validator is valid and in the initial state. |
| BinderValidator.GraphValidator.Local | scripts/s07_binder.py:152-178 | The record's own checks hold exactly when the record is locally legal. |
| BinderValidator.GraphValidator.Balance | scripts/s07_binder.py:181-198 | The body of the counts record accepts exactly when counts, references and backing groups of the state are in order. |
| BinderValidator.GraphValidator.Accept | scripts/s07_binder.py:143-311 | One call accepts exactly when the step function does, and then leaves the object valid in exactly the stepped state. |
| BinderValidator.GraphValidator.AcceptKind | scripts/s07_binder.py:201-311 | The same for a record of a numbered kind. |
| BinderValidator.ValidateStage | scripts/s07_binder.py:143-311 | Feeding a fresh validator a list of records ends closed exactly on a closed graph. |
| BinderStreamProperties.RecordStep | scripts/s07_binder.py:349-380 | A whole-record frame at any point of a transcript is accepted exactly when no fragment is open and the graph takes the record; the new state is that of the longer transcript, and the record is forwarded with the next number. |
| BinderStreamProperties.ChunkStep | scripts/s07_binder.py:349-380 | A fragment frame is accepted exactly when it continues the cut under way; nothing is forwarded until the last part, then the joined record is. |
| BinderStreamProperties.BlockStep | scripts/s07_binder.py:381-402 | A stage end is accepted exactly when the transcript with that stage closed is in order. |
| BinderStreamProperties.ReadRun | scripts/s07_binder.py:324-402 | Soundness: every accepted unfinished run spells a transcript in good order and is in its state. |
| BinderStreamProperties.WriteRun | scripts/s07_binder.py:324-402 | Completeness: every transcript in good order is accepted frame by frame. |
| BinderStreamProperties.CompleteIffSpells | scripts/s07_binder.py:313-402 | A run is complete exactly when its frames are the stages of one request in order, each well formed, up to the end or the first panic, closed by an end frame with the right counts. |
| BinderStreamProperties.ForwardsWholeRecords | scripts/s07_binder.py:338-402 | A complete run forwards every record whole, numbered 0, 1, 2, ... over the request, and an end record that reports exactly that many records and the number of stages. |
| BinderStreamProperties.CompleteCases | scripts/s07_binder.py:313-402 | Every graph stage of a complete run succeeded with a closed graph; and either all six operations ran, the repeated graph equal to the bound one record for record, or the run stopped at its first panic, in parse, bind or repeated bind. |
| BinderStreamProperties.ChunksJoin | scripts/s07_binder.py:356-375 | The canonical cut of a payload into 128 KiB chunks joins back to the payload. |
| BinderStreamProperties.ChunkedIsCanonical | scripts/s07_binder.py:356-375 | An accepted cut is the canonical cut of its payload, hence the only one, and its length fixes the number of parts. |
| BinderReader.Stream.constructor | scripts/s07_binder.py:314-323 | A fresh stream is valid and in the initial state. |
| BinderReader.Stream.Deliver | scripts/s07_binder.py:378-380 | Handing a record to the graph does what the delivery function says, or rejects with it. |
| BinderReader.Stream.Observe | scripts/s07_binder.py:349-380 | An observation updates the object exactly as the observation function, the graph object included. |
| BinderReader.Stream.CloseStage | scripts/s07_binder.py:381-402 | Closing a stage updates the object exactly as the closing function. |
| BinderReader.Stream.Accept | scripts/s07_binder.py:324-402 | `accept` rejects exactly when the frame function does, and otherwise forwards what it forwards and leaves exactly its state. |
| BinderReader.ReadRequest | scripts/s07_binder.py:428-436 | Reading to the end succeeds exactly on complete runs, and yields exactly what they forward. |
| BinderComparison.ComparableIffAlike | scripts/s07_binder.py:90-98 | Two values become equal when made comparable exactly when they are equal up to the raw form of identified names; an object whose only field is `identity` counts as such a name. |
| BinderComparison.ComparableMeans | scripts/s07_binder.py:90-98 | Two names of an identity and a literal form become equal exactly when both identities are there and become equal, or both are absent and the literal forms become equal; lists exactly item by item. |
| BinderComparison.NoneIffEqual | scripts/s07_binder.py:485-504 | `first_difference` finds nothing exactly when the values are equal. |
| BinderComparison.DifferenceLeads | scripts/s07_binder.py:485-504 | What it reports is a real difference, and the first: along the path all earlier siblings are equal, and at its end type, keys, list length or value differ. |
| BinderComparison.Compare | scripts/s07_binder.py:516-566 | The lockstep loop reports equality exactly when both streams have the same length, every panic is classified and each pair agrees; the record counts are those of the streams. |
| BinderComparison.AgreeIffAlike | scripts/s07_binder.py:516-566 | For records without a panic, agreeing is being equal up to the raw form of names. |
| BinderLockstep.CompareRequest | scripts/s07_binder.py:516-566 | The report on two runs of a request is the lockstep comparison of exactly what the two streams forward, and there is none if either stream is rejected. |
| BinderLockstep.ForwardedAgree | scripts/s07_binder.py:523-555 | What two lists of stages forward agrees record by record exactly when the lists are equally long and each stage agrees: the same number of records, pairwise alike and of one kind, and the same outcome. |
| BinderLockstep.EqualIffStagesAgree | scripts/s07_binder.py:516-566 | Two complete runs of a request are reported equal exactly when they ended after the same stages and each stage agrees, a panic by its identity: a record too many, missing or different in one stage is always reported. |
| PreorderTrees.SettledIffPreorder | scripts/s06_protocol.py:293-298 | Child counts settle what is owed exactly when they are the pre-order serialisation of a forest of that many trees, and then of one forest only. |
| PreorderTrees.TreeOrNil | scripts/s06_protocol.py:293-298 | Under a non-nil root the counts settle exactly on the serialisation of one tree, under a nil root only on the empty sequence. |
| PreorderTrees.ForestSettles | scripts/s06_protocol.py:295-298 | Serialising any forest pays off exactly what is owed for it. |
| PreorderTrees.ForestUnique | scripts/s06_protocol.py:295-298 | No two forests of one size share a serialisation. |
| ParserStreamProperties.ValueStep | scripts/s06_protocol.py:226-298 | An observation at any point of a transcript is accepted exactly when the longer transcript is in order, and the fields then summarise it. |
| ParserStreamProperties.BlockStep | scripts/s06_protocol.py:210-225 | A stage frame is accepted exactly when the transcript with the stage closed is in order. |
| ParserStreamProperties.ReadStream | scripts/s06_protocol.py:187-230 | Soundness: an accepted unfinished stream spells a transcript in good order. |
| ParserStreamProperties.WriteStream | scripts/s06_protocol.py:187-230 | Completeness: every transcript in good order is accepted. |
| ParserStreamProperties.CompleteIffSpells | scripts/s06_protocol.py:187-315 | A stream is complete exactly when it spells the stages of the request in order, each observation placed by what its stage has shown, up to the end or the first failure, with counts that match. |
| ParserGrammar.CompleteIffFits | scripts/s06_protocol.py:155-315 | A stream is complete exactly when it is the frames of the operation's own stages, named here one by one, each with the observations that may stand in it, in their places, and ended in a way that stage may end. |
| ParserStages.EncoderTiles | scripts/s06_protocol.py:275-282 | In an encoder stage the header comes first and once and the chunks tile the bytes from 0 without gap or overlap; the stage can succeed exactly when all announced bytes were shown. |
| ParserStages.NodesNumbered | scripts/s06_protocol.py:268-274 | Node observations are numbered by their position among the nodes, the first is the nil sentinel, and a successful index stage showed exactly its announced table. |
| ParserStages.TreeStageIffPreorder | scripts/s06_protocol.py:291-313 | A decoded-tree stage under a root can succeed exactly when it shows tree nodes whose child counts are the pre-order serialisation of a tree, unique if it exists; under a nil root exactly when it is empty. |
| ParserStages.DecodedTreeIsSerialised | scripts/s06_protocol.py:291-313 | In any transcript in good order a successful decoded-tree stage follows a stage with exactly one root, and its counts serialise the one tree of that root, or nothing for nil. |
| ParserCase.StreamCase.constructor | scripts/s06_protocol.py:174-185 | A fresh case is in the initial state for its request. |
| ParserCase.StreamCase.Measure | scripts/s06_protocol.py:268-282 | Sizes: accepts exactly when the value fits the announced sizes, and updates exactly those fields. |
| ParserCase.StreamCase.Track | scripts/s06_protocol.py:283-298 | Numberings and the tree: accepts exactly when the value fits, and updates exactly those fields. |
| ParserCase.StreamCase.Observe | scripts/s06_protocol.py:232-298 | `observation` accepts exactly when the value is allowed and fits, and leaves the observed state. |
| ParserCase.StreamCase.CompleteStage | scripts/s06_protocol.py:300-315 | `complete_stage` passes exactly when the state shows everything the stage owes. |
| ParserCase.StreamCase.EndStage | scripts/s06_protocol.py:210-225 | A stage end is accepted exactly when its outcome, message and stage allow it, and resets what belongs to the stage. |
| ParserCase.StreamCase.Accept | scripts/s06_protocol.py:187-230 | `accept` rejects exactly when the frame function does and otherwise leaves its state. |
| ParserCase.ValidateStream | scripts/s06_protocol.py:187-230 | Reading a list of frames succeeds exactly on complete streams. |
| ParserResults.Cursor.constructor | scripts/s06_results.py:11-18 | A cursor starts on the begin frame. |
| ParserResults.Cursor.NextValue | scripts/s06_results.py:27-34 | Returns the next value of the stage and moves past it, or returns none without moving. |
| ParserResults.Cursor.NextOutcome | scripts/s06_results.py:36-43 | Returns the outcome of the stage and moves past it, or none without moving when the stream is not in it. |
| ParserComparison.ReadPairs | scripts/s06_results.py:60-100 | The loop over one stage reads exactly the stage's values on both sides and reports whether all pairs match, whether they are identical, and both counts. |
| ParserComparison.CompareStage | scripts/s06_results.py:60-115 | One stage: the row and both cursor positions are those of the row function. |
| ParserComparison.CompareCase | scripts/s06_results.py:50-122 | The loop over the stages computes the comparison function, or raises with it. |
| ParserComparison.CompareIsStagewise | scripts/s06_results.py:50-122 | On two complete streams of one request the comparison never raises, and reports stage by stage what comparing the stages' own values alone would: a differing count in one stage never misaligns a later one. |
| ParserComparison.PassIffStagesAgree | scripts/s06_results.py:50-122 | A case passes exactly when every stage agrees: values pairwise equal or passing their rule, equal in number, outcomes matching; a failure is reported exactly when it does not pass. |
| ParserVerdict.PassIffAlike | scripts/s06_results.py:50-122 | A case passes exactly when both streams ended after the same stages, every observation equals its counterpart, and outcomes agree in message or known panic identity; only the first parse diagnostic of a request with a rule may differ, and then both sides show the rule's diagnostic with the arguments it allows each. |
| ParserVerdict.PassExactly | scripts/s06_results.py:71-113 | Without a rule, passing is equality of all observations and outcomes, up to the wording of panics of one identity. |
| ParserVerdict.RowSays | scripts/s06_results.py:100-113 | Each row of the report says whether both streams reached the stage, how many observations each showed, whether they are the same, match, and end alike. |
| ParserVerdict.FailureIsFirst | scripts/s06_results.py:80-122 | The failure reported is the first stage that does not agree, and the totals are those of the two streams. |
| ScannerStream.ScannerCase.constructor | scripts/s05_protocol.py:255-264 | A fresh case is in the initial state of its request. |
| ScannerStream.ScannerCase.ObserveOne | scripts/s05_protocol.py:271-303 | `observation` accepts exactly when the observation function does and leaves exactly its state. |
| ScannerStream.ScannerCase.Accept | scripts/s05_protocol.py:266-310 | A frame is accepted exactly when the frame function accepts it, with the same new state. |
| ScannerStream.ReadCase | scripts/s05_protocol.py:367-376 | Reading a list of frames succeeds exactly on complete streams. |
| ScannerProperties.ObserveStep | scripts/s05_protocol.py:271-303 | At any point of a transcript only the observation with the next action and ordinal that keeps the transcript in order is accepted, and the state is then that of the longer transcript. |
| ScannerProperties.CompleteIffSpells | scripts/s05_protocol.py:253-310 | A stream is complete exactly when it spells one group of observations per action in order: one observation, or for a whole scan all tokens up to the first end of file and at most two more than the source has bytes; it may stop early only at a panic, which is last. |
| ScannerProperties.ReadRun | scripts/s05_protocol.py:266-303 | Soundness: an accepted unfinished stream spells finished groups and the start of one. |
| ScannerProperties.WriteRun | scripts/s05_protocol.py:266-303 | Completeness: every transcript in good order is accepted. |
| ScannerComparison.CompareCase | scripts/s05_protocol.py:407-453 | The loop computes the judgement function: verdict, both narrower verdicts and both counts. |
| ScannerComparison.PanicLast | scripts/s05_protocol.py:280-303 | In a complete stream only the very last observation can be a panic. |
| ScannerComparison.PassImpliesDigests | scripts/s05_protocol.py:407-453 | Passing implies that the diagnostic and the value digests agree. |
| ScannerComparison.PassIffSame | scripts/s05_protocol.py:395-453 | Two complete streams, each judged by its own runtime's panic classification, pass exactly when the wanted codes were shown and the streams are identical without a panic, or, when a panic is expected, identical up to a final panic each that is the expected one, with equal diagnostics. |
| ScannerVerdict.CompleteIffFits | scripts/s05_protocol.py:239-310 | A stream is complete exactly when it is one group of observations per action, each value or panic checked against the source its action works on, which is the text set last before it, up to the end or a panic, between a begin and an end with true counts. |
| ScannerVerdict.DigestsIff | scripts/s05_protocol.py:395-455 | The narrower verdicts hold exactly when every panic is the expected one, an expected one happened on both sides, and the diagnostics with their actions, or the tokens with text and value, are the same in order; for the diagnostics the codes wanted were shown, too. |
| ScannerVerdict.PassIff | scripts/s05_protocol.py:395-455 | The verdict on two complete streams with the expected panic spelled out: its action and class and, but for bounds, its literal or message. |
| TextLines.SplitIsSplit | scripts/phase4_scenarios.py:277 | What `splitlines` returns are single lines that stay the same lines when written out. |
| TextLines.SingleIff | scripts/phase4_scenarios.py:277 | A single line is text without any of the ten line boundaries, followed by at most one of them, or by both of a carriage return and a line feed. |
| TextLines.Resplit | scripts/phase4_scenarios.py:312-329 | Writing single lines out and splitting again gives the same list exactly when no line joins the next, and otherwise strictly fewer lines. |
| UnifiedDiffRun.ParseBody | scripts/phase4_scenarios.py:293-304 | The inner loop reads the body the reading function reads, with the counts of the header. |
| UnifiedDiffRun.ParsePatch | scripts/phase4_scenarios.py:275-306 | The parser accepts exactly what the reading function accepts, and every hunk has the old and new line counts of its header. |
| UnifiedDiffRun.ApplyHunk | scripts/phase4_scenarios.py:315-327 | One hunk: what was copied, matched and appended is what the hunk says at its position, or the hunk does not apply there. |
| UnifiedDiffRun.ApplyHunks | scripts/phase4_scenarios.py:309-329 | The loops compute the application function. |
| UnifiedDiffProperties.AppliesIffWoven | scripts/phase4_scenarios.py:315-329 | A patch applies exactly when the file is kept stretches woven with the hunks' old blocks at the places the headers name, and the result is then the same stretches woven with the new blocks: nothing else changes. |
| UnifiedDiffProperties.PatchedLength | scripts/phase4_scenarios.py:315-329 | The result has the length of the original plus the sum over the hunks of new length minus old length. |
| UnifiedDiffProperties.ReverseRestores | scripts/phase4_scenarios.py:309-329 | The tag-swapped patch with starts moved by the running growth applies to the result and restores the original line for line. |
| UnifiedDiffProperties.ReverseTextIffSplit | scripts/phase4_scenarios.py:309-329 | On texts, where the result is joined and split again, the reverse patch restores the original exactly when the patched lines split back to themselves. |
| UnifiedDiffProperties.PatchedApart | scripts/phase4_scenarios.py:315-329 | Patching can make lines stick only where a kept line comes to stand before what a hunk puts there, or before what follows a removal. |
| UnifiedDiffProperties.ReverseTextIff | scripts/phase4_scenarios.py:309-329 | So, on file and patch alone: the reverse patch restores the text exactly when no kept line before a hunk sticks to the line that comes to follow it. |
| UnifiedDiffProperties.TerminatedRestores | scripts/phase4_scenarios.py:309-329 | In particular whenever every line of the original is terminated, none by a lone carriage return. |
| UnifiedDiffProperties.UnterminatedNotRestored | scripts/phase4_scenarios.py:309-329 | Concrete input for the other case: a line added after an unterminated last line is not undone. |
| UnifiedDiffProperties.HunksRead | scripts/phase4_scenarios.py:285-306 | Printing any hunks with consistent counts and whole lines and parsing them gives the same hunks. |
| UnifiedDiffProperties.ParsedPatchIsWhole | scripts/phase4_scenarios.py:293-305 | Every patch the parser accepts has consistent counts and whole lines, which is what reversing it needs. |
| UnifiedDiffGrammar.HunksIff | scripts/phase4_scenarios.py:272-305 | Lines are read as hunks exactly when they spell them: a header with both ranges, where a missing length is 1, then as many lines of each side as it announces. |
| UnifiedDiffGrammar.PatchIff | scripts/phase4_scenarios.py:275-306 | The parser accepts exactly the lines that spell a patch, a first header with path and digest, a second with the same path, and hunks, and returns that path, digest and hunks. |
| UnifiedDiffGrammar.PatchReads | scripts/phase4_scenarios.py:275-306 | Round trip of a whole patch: written with its path, digest and hunks, it is read back as it was. |
| SamplingProperties.RuleStops | scripts/s07_benchmark_stats.py:44 | At 21 samples per runtime the rule never asks for more. |
| SamplingProperties.PairsDecide | scripts/s07_benchmark_measure.py:277-291 | At every batch boundary of a captured series, the rule asks for more exactly when the series goes on. |
| SamplingProperties.PairsFollow | scripts/s07_benchmark_report.py:79-85 | Conversely a series all of whose boundary decisions follow the rule has exactly the length the producer would choose. |
| SamplingProperties.ProducedSeriesOk | scripts/s07_benchmark_report.py:65-85 | A produced series is one the validator accepts for its mode. |
| SamplingProperties.AcceptsIffCaptured | scripts/s07_benchmark_report.py:58-88 | A row list is accepted exactly when some host of valid samples makes `capture` emit it; replaying an accepted list captures it again; none is longer than 112 rows. |
| SamplingSeries.SeriesIffSampled | scripts/s07_benchmark_report.py:64-85 | A series is accepted exactly when its pairs alternate who runs first, all samples are valid, and a timed one has seven, fourteen or twenty-one pairs, as many as it took until neither side varied by more than 5% and the interval lay on one side of the threshold. |
| SamplingSeries.AcceptsIffSampled | scripts/s07_benchmark_report.py:58-88 | The accepted row lists are exactly one such series for one worker timed, one worker counting allocations, eight workers timed and eight counting, in this order. |
| SamplingSeries.CaptureRan | scripts/s07_benchmark_measure.py:261-291 | Every warm-up and run of a successful capture was valid, and its rows hold the answers of the host in the order they were asked for. |
| SamplingRun.CapturePair | scripts/s07_benchmark_measure.py:268-276 | One index: both runtimes in alternating order, appended in that order. |
| SamplingRun.CaptureBatch | scripts/s07_benchmark_measure.py:283-291 | One batch appends seven pairs with continuing indices. |
| SamplingRun.CaptureMode | scripts/s07_benchmark_measure.py:261-291 | One mode: succeeds exactly when warm-ups and all needed runs are valid, and then yields exactly the pairs up to the batch at which the rule stops. |
| SamplingRun.Capture | scripts/s07_benchmark_measure.py:261-291 | The nested loops over all modes compute the capture function, and terminate. |
| SamplingRun.DecisionsFollow | scripts/s07_benchmark_report.py:80-85 | The loop over the batch boundaries accepts exactly when every decision was followed. |
| SamplingRun.ValidateSeries | scripts/s07_benchmark_report.py:64-85 | From a cursor, one mode is accepted exactly when the maximal stretch of its rows is a good series, and the cursor then stands after it. |
| SamplingRun.ValidateRows | scripts/s07_benchmark_report.py:58-88 | `validate_rows` accepts exactly the lists made of one good series per mode, in order and nothing else. |
| OperationGraph.SortCalls | scripts/s07_operations.py:107-121 | The inner loop sorts a function's calls into the four families and appends exactly the in-scope static callees to the pending list. |
| OperationGraph.TraceOperation | scripts/s07_operations.py:100-121 | The worklist terminates; seen and omitted functions together are the least set with the roots, closed under in-scope static calls of non-excluded functions; nothing seen is excluded, and every omitted function is excluded for the recorded reason. |
| OperationMatrix.Create | scripts/s07_operations.py:96-136 | A document is produced exactly as assembled from the traces, and is refused only for an unknown root or a required function whose file the ledger does not list. |
| OperationMatrix.ReachRecorded | scripts/s07_operation_validation.py:109-126 | The validator's loop computes the rooted closure of the recorded edges. |
| OperationMatrix.RootedClosureUnique | scripts/s07_operation_validation.py:118-128 | That closure is unique. |
| OperationMatrix.ValidateDocument | scripts/s07_operation_validation.py:28-149 | The validator accepts exactly the documents in good order; among others the declared set of each operation has to be its rooted closure. |
| OperationMatrixProperties.TraceCalls | scripts/s07_operations.py:107-121 | A trace holds exactly the calls of its seen functions, each in the families it belongs to. |
| OperationMatrixProperties.RecordedUnder | scripts/s07_operations.py:108-121 | With distinct operation names, the calls recorded under an operation are exactly those of its own seen functions. |
| OperationMatrixProperties.DeclaredIsClosure | scripts/s07_operation_validation.py:118-128 | If every required function is source or generated, what an operation declares is the rooted closure of its recorded edges. |
| OperationMatrixProperties.ValidIsListable | scripts/s07_operation_validation.py:96-128 | Conversely, an operation passes only if every required function is source or generated. |
| OperationMatrixProperties.ValidIffTraces | scripts/s07_operation_validation.py:28-149 | A created document is accepted exactly when every function its traces saw is source or generated, every omitted one has a listed file, no call is unresolved, in an initialiser neither, and there is at least one function. |
| OperationMatrixProperties.CreatedIsValid | scripts/s07_operation_validation.py:28-149 | The same on program and specifications alone: everything the roots of every operation lead to is either an excluded function with a listed file, or a source or generated function without an unresolved project call; some operation has a root; initialiser calls are anchored and none is unresolved. |
| OperationMatrixProperties.HarnessRootRefused | scripts/s07_operation_validation.py:96-128 | Concrete program for the other case: one root that is neither source nor generated gives a document that is created and then refused. |
| PackageOrder.Walk.Visit | scripts/package_assets.py:57-65 | `visit` either raises with a real simple cycle, or leaves the path as it was and the name finished together with what it needs; it terminates. |
| PackageOrder.WalkAll | scripts/package_assets.py:56-67 | The walk raises exactly when the retained-dependency graph has a cycle, self-loops included, and the reported slice of the path is one. |
| PackageOrder.CheckReleaseOrder | scripts/package_assets.py:79-91 | The order check passes exactly when the order lists every public package once, nothing else, and no dependency of a package after it. |
| PackageOrder.Positions | scripts/package_assets.py:83-87 | Finds repetitions, and otherwise the position of every name. |
| PackageOrder.DepsBefore | scripts/package_assets.py:89 | One package's dependencies are all at or before its position exactly when none is later. |
| PackageOrder.AcceptedIsLinearExtension | scripts/package_assets.py:54-68 | After a walk without a cycle an accepted order is a linear extension: every dependency strictly before its package. |
| PackageOrder.AcceptedOnlyLoops | scripts/package_assets.py:79-91 | The only cycles the order check alone lets through are self-dependencies. |
| PackageOrder.AcyclicHasOrder | scripts/package_assets.py:79-91 | If the graph has no cycle, there is an order the check accepts. |
| PackageOrder.PublishableIffAcyclic | scripts/package_assets.py:54-91 | The packages can be listed once each with every dependency strictly first exactly when the graph has no cycle. |
| FoldTables.ValidateRanges | scripts/s05_tables.py:48-58 | The range loop accepts exactly the ordered, non-overlapping, exactly divided ranges. |
| FoldTables.RangesDisjoint | scripts/s05_tables.py:51-58 | In accepted tables every range contains both its ends, and a code point is in at most one range. |
| FoldTables.RangesIff | scripts/s05_tables.py:48-58 | The accepted tables are the nonempty lists of ranges of code points that end a whole number of positive strides after their start, each after all before it. |
| FoldTables.PairsInOrder | scripts/s05_tables.py:62-68 | The row loop accepts exactly strictly ascending keys within range, none mapped to itself. |
| FoldTables.WalkFrom | scripts/s05_tables.py:71-78 | The walk from a key terminates and succeeds exactly when the key lies on a cycle; when it fails, broken or rho-shaped, the table is no permutation. |
| FoldTables.OrbitsPermute | scripts/s05_tables.py:69-78 | If every key lies on a cycle, the table is a permutation of its keys: into, one to one and onto. |
| FoldTables.ValidateFold | scripts/s05_tables.py:59-78 | The fold checks accept exactly the tables with ascending keys that are fixed-point-free permutations. |
| FoldTables.FoldMeans | scripts/s05_tables.py:59-78 | In an accepted table every row moves its point, the image is a key, and no other row has that image. |
| FoldTables.FoldIff | scripts/s05_tables.py:59-78 | The accepted folds are exactly the nonempty tables of ascending code points in which every row moves its point to a key and no two rows to the same one. |
| RustLiterals.StringLiteral | scripts/s05_tables.py:15-25 | The loop produces the quoted escaped text, for any code points. |
| RustLiterals.ByteLiteral | scripts/s05_tables.py:28-37 | The loop produces the quoted escaped UTF-8 bytes, and fails exactly on a lone surrogate. |
| RustLiterals.TextReturns | scripts/s05_tables.py:15-25 | Read by Rust's rules, the body of the string literal is the text if it holds no lone surrogate, and is rejected otherwise. |
| RustLiterals.BytesReturn | scripts/s05_tables.py:28-37 | Read by Rust's rules, the body of the byte string literal is the bytes. |
| GoQuoted.DecodeUnit | scripts/s05_protocol.py:168-208 | One turn reads exactly one legal unit or rejects; the position moves forward and never past the closing quote. |
| GoQuoted.DecodeHex | scripts/s05_protocol.py:184-201 | A hexadecimal escape gives the byte, or the UTF-8 of the scalar, it spells, or is rejected. |
| GoQuoted.DecodeOctal | scripts/s05_protocol.py:202-207 | An octal escape gives its byte, or is rejected. |
| GoQuoted.DecodeGoQuoted | scripts/s05_protocol.py:162-209 | The loop computes the decoding function. |
| GoQuoted.DecodesIffSpelled | scripts/s05_protocol.py:162-209 | A text is accepted exactly when it is a quoted sequence of legal spellings, and the result is the bytes they mean, for every choice of spelling per unit. |
| GoQuoted.SpellingUnique | scripts/s05_protocol.py:162-209 | A body splits into units in one way only. |
| GoQuoted.AnyBytesReturn | scripts/s05_protocol.py:162-209 | Every byte string has a spelling that decodes to it. |
| BuildConstraint.Evaluator.constructor | scripts/ledger-init.py:163-164 | The shared position starts at 0. |
| BuildConstraint.Evaluator.ParseOr | scripts/ledger-init.py:175-181 | Moves the shared position and returns the value as the disjunction function says, or runs out of tokens with it. |
| BuildConstraint.Evaluator.ParseAnd | scripts/ledger-init.py:183-189 | The same for a conjunction; the position moves. |
| BuildConstraint.Evaluator.ParseNot | scripts/ledger-init.py:191-203 | The same for a negation, parentheses or a tag. |
| BuildConstraint.EvalConstraint | scripts/ledger-init.py:161-205 | The value of the expression at the start of the tokens; the rest is not looked at. |
| BuildConstraint.PrintedEvaluates | scripts/ledger-init.py:161-205 | Whatever parentheses beyond those precedence needs are written, evaluating the printed tokens consumes exactly them and returns the truth value of the expression, with any rest that does not begin with a binary operator. |
| BuildConstraint.MinimalEvaluates | scripts/ledger-init.py:161-205 | The spelling with the fewest parentheses evaluates to the expression's truth value and is consumed whole. |
| BuildConstraint.EvaluatesMeaning | scripts/ledger-init.py:161-205 | So every expression over tags evaluates to its meaning, where a tag holds for the target's own system or architecture, `unix` on the eleven systems listed, and every tag that begins with `go1.`. |
| BuildConstraint.OrEvaluates | scripts/ledger-init.py:175-181 | A printed disjunction is read as one step of the loop, whatever follows except a conjunction sign. |
| BuildConstraint.MissingCloseAccepted | scripts/ledger-init.py:195-199 | Without its closing parenthesis an expression evaluates to the same value, and the position ends past the last token. |
| BatchReader.ReadBlobs | scripts/ledger-init.py:275-289 | The loop computes the reading function, or fails with it. |
| BatchReader.BatchReads | scripts/ledger-init.py:275-289 | From a reply written as header line, content and newline per file, every content is read back exactly, whatever bytes it holds. |
| BatchReader.HeaderIff | scripts/ledger-init.py:280-284 | A header gives this size exactly when it is three words between ASCII white space, the second `blob` and the third a decimal numeral of the size. |
| BatchReader.PrintedReads | scripts/ledger-init.py:275-289 | From replies printed as a name, ` blob `, the size in decimal, a line feed, the content and a line feed, every content is read back. |
| InputDigest.FeedName | scripts/s07_benchmark_inputs.py:13-16 | Feeds the length and the UTF-8 bytes of a name, or fails on a surrogate. |
| InputDigest.FeedRow | scripts/s07_benchmark_inputs.py:12-26 | Feeds a row exactly when it is valid. |
| InputDigest.LoadedInputStream | scripts/s07_benchmark_inputs.py:8-27 | Feeds the stream of a valid list, and raises exactly on an invalid one. |
| InputDigest.StreamReads | scripts/s07_benchmark_inputs.py:8-27 | A decoder recovers from the stream the count and, in order, every name, script kind, flag, length and hash. |
| InputDigest.StreamInjective | scripts/s07_benchmark_inputs.py:8-27 | Different valid lists feed different streams. |
| InputDigest.StreamOpens | scripts/s07_benchmark_inputs.py:5-10 | The stream opens with the characters of the format's name and a zero byte, then the number of rows in eight bytes. |
| InputDigest.ValidIff | scripts/s07_benchmark_inputs.py:13-25 | A row is valid exactly when its names can be encoded, its numbers fit 32 signed and 64 unsigned bits and its hash is 64 lower-case hexadecimal digits. |
| LedgerPins.PinCache.constructor | scripts/ledger-init.py:350-351 | The cache starts with the previous ledger pin, resolved. |
| LedgerPins.PinCache.Full | scripts/ledger-init.py:353-356 | Returns what resolving would, and keeps the cache truthful. |
| LedgerPins.PinCache.LegacyHash | scripts/ledger-init.py:361-370 | The digest of the file at the commit the entry was recorded from, or a failure. |
| LedgerPins.OldHashes | scripts/ledger-init.py:361-370 | Succeeds exactly when every entry's digest can be known, and then holds those of the entries without one. |
| LedgerPins.BuildEntry | scripts/ledger-init.py:386-404 | One new entry is the one the entry function describes, or is refused with it. |
| LedgerPins.BuildLedger | scripts/ledger-init.py:349-405 | The loops compute the regeneration function. |
| LedgerPins.ExistingAll | scripts/ledger-init.py:358-360 | When the dictionary has as many entries as the list, it holds every entry. |
| LedgerPins.LegacyAsFilled | scripts/ledger-init.py:361-370 | A ledger without digests regenerates exactly as if every entry had carried the digest of its file at its recorded commit. |
| LedgerEntries.RegeneratesIff | scripts/ledger-init.py:349-405 | A regeneration writes given entries exactly when the previous ledger has distinct paths, resolvable pins and digests that are written or can be read at the commit each entry was recorded from, and each entry has the file's path and digest, the previous Rust paths, the status and the pin its rules give; an unsupported status is refused. |
| LedgerEntries.StatusStep | scripts/ledger-init.py:387-391 | In any run a file in scope gets the status it was found with, `planned` for none and `ported` for `verified`. |
| LedgerEntries.StatusStays | scripts/ledger-init.py:387-391 | Over any stretch of a run a status stays as it is while the file is in scope and the hand leaves it alone. |
| LedgerRuns.OutputEntries | scripts/ledger-init.py:372-404 | A regeneration lists exactly the source paths of its commit in order, with the digests of the current bytes, the Rust paths of the previous entry, and a status that is never `verified`. |
| LedgerRuns.PinStep | scripts/ledger-init.py:393-399 | The pin moves to the new commit when the file is new, or was in step and kept its bytes, and stays otherwise. |
| LedgerRuns.LastInStep | scripts/ledger-init.py:393-399 | In every run an entry's pin is that of the last generation at which it was in step, which holds the bytes of the file's entry and after which the bytes changed. |
| LedgerRuns.PinHoldsEntryBytes | scripts/ledger-init.py:349-405 | In every run the bytes at an entry's recorded pin are those the file had when it entered the ledger, at the start of its current unbroken presence. |
| LedgerRuns.InStepIffUnchanged | scripts/ledger-init.py:393-399 | If no generation went back to a replaced commit, an entry's pin is the ledger's exactly when its bytes never changed since it entered. |
| LedgerRuns.ReturnIsInStep | scripts/ledger-init.py:393-399 | Going back to the commit an entry is recorded at puts it in step again, whatever its bytes did in between. |
| LedgerRuns.ReturnBreaksTheRule | scripts/ledger-init.py:393-399 | Concrete run a, b, a in which the file changed in b and the entry still has the ledger's pin. |
| LedgerReturns.AnyPinsRun | scripts/ledger-init.py:349-405 | In a repository where every name and file can be read, any list of commits can be generated one after the other. |
| LedgerReturns.ReturnMisleads | scripts/ledger-init.py:393-399 | For every list of commits that goes back to a replaced one there are a repository and a run over it in which an entry has the ledger's pin although its bytes changed: so the rule about unchanged bytes holds for all repositories exactly when the list never goes back. |
| OrderTrace.Observe | scripts/phase2_order_trace.py:248-296 | The loop body computes the step function. |
| OrderTrace.ValidateTrace | scripts/phase2_order_trace.py:208-302 | The loops compute the validation function. |
| OrderTraceProperties.RunIffAllOk | scripts/phase2_order_trace.py:248-296 | The loop gets through exactly the traces in which each event fits the history before it; birth, current ids, open sorts and ties are then those of the history. |
| OrderTraceProperties.ValidateIff | scripts/phase2_order_trace.py:208-302 | A trace is accepted exactly when it is nonempty, its operands are distinct as queried, every event fits its history, all sorts are closed and the wanted fallback happened; the reported ties are exactly those of its fallbacks. |
| OrderLegal.ValidatesIff | scripts/phase2_order_trace.py:208-302 | A trace is accepted with a given report exactly when each event is legal after those before it, every sort is closed, the request's operands are distinct and the wanted fallback happened; the report then holds exactly the ties and families of its fallbacks and the numbers of births and events. |
| OrderTies.IdNeverChanges | scripts/phase2_order_trace.py:267-271 | Once an id is acquired it stays. |
| OrderTies.NamedOnce | scripts/phase2_order_trace.py:253-271 | An object is born at most once, and a symbol's id is assigned at most once. |
| OrderTies.SortsNest | scripts/phase2_order_trace.py:272-281 | In an accepted trace every sort that begins has a matching end with properly nested sorts in between, and the end permutes the operands of the begin. |
| OrderTies.TieAgreesIff | scripts/phase2_order_trace.py:282-296 | A fallback's sign is that of the final ids exactly when it is in order: both ids already assigned, or the sign shown is the one the ids acquired later give. |
| OrderTies.TieRanks | scripts/phase2_order_trace.py:294-296 | The tie a fallback contributes ranks its pair as the final ids do exactly when the fallback is in order. |
| OrderTies.TiesEmbedIff | scripts/phase2_order_trace.py:282-302 | The reported ties of an accepted trace all follow the order of the final ids exactly when every fallback that reports one is in order. |
| OrderTies.TiesEmbed | scripts/phase2_order_trace.py:294-302 | Whatever the other ties do, those shown in order, among them all between operands whose ids were assigned, follow the final ids; no two of them give one pair different signs, and no chain of them returns to its start with a strict step. |
| OrderTies.TypeTiesSettled | scripts/phase2_order_trace.py:262-264 | For types the condition always holds, because their ids are their birth tokens. |
| OrderTies.UnassignedTiesContradict | scripts/phase2_order_trace.py:282-302 | Concrete accepted trace, compared before, between and after the id assignments, that reports all three signs for one pair. |
| ParityResults.Complete | scripts/parity.py:438-455 | The grouping loop accepts exactly the complete directories: every selected variant answered, no stranger, no id twice under one variant, and for batch suites explicit roots. |
| ParityResults.MergeDirectories | scripts/parity.py:458-498 | The loops compute the merge function. |
| ParityResults.FailingIds | scripts/parity.py:501-502 | The failing rows by id, later rows replacing earlier ones. |
| ParityResults.Check | scripts/parity.py:531-550 | `check` passes exactly when the merge succeeds, pin and total are the expected ones and the failing ids are exactly the named ones. |
| ParityResults.AcceptReasons | scripts/parity.py:553-570 | Every accepted failure is one of the results and keeps its approval; it is unchanged if it had a reason that may stay, and otherwise reason and shortened detail are those of a failing row with its id, the reason `unexplained` if the row gives none. |
| ParityResults.AcceptResults | scripts/parity.py:553-569 | The loop computes the accepted expectation. |
| ParityResults.AcceptedPasses | scripts/parity.py:531-570 | Accepting succeeds exactly when the directories merge, and checking the same results then passes. |
| ParityResults.AcceptIdempotent | scripts/parity.py:553-570 | Accepting the same results again changes nothing, and an approved entry with a reason is kept as it is. |
| ParityResults.PassesIffAccepted | scripts/parity.py:531-570 | A check passes exactly when accepting would keep pin, total and the set of named failures. |
| ParityReport.CompleteIff | scripts/parity.py:423-455 | A directory is found complete exactly when every row is some selected variant's, by parent, by id or as its child, every variant has rows and none of its ids twice, and in a batch each has its own measured root. |
| ParityReport.MergesIff | scripts/parity.py:458-498 | Directories merge exactly when they are the complete parts of one capture, with one suite, pin, total, selection and identity, each part and each variant once; the result holds those and all rows in order. |
| ParityReport.AcceptsIff | scripts/parity.py:553-570 | Accepting writes exactly the merged pin and total and, for each failing id, the named entry if it may stay, or the reason and detail of the last failing row. |
| ParityReport.PassesIffExpected | scripts/parity.py:531-550 | A check passes exactly when the directories are such parts with the expected pin and total and the failing ids are the expected ones. |
| ParityShards.ShardsPartition | scripts/parity.py:295-301 | Element k of a roster is in shard k mod n plus 1 and in no other, for every n. |
| ParityShards.VariantsCover | scripts/parity.py:295-301 | The shards of a capture, in any order, list every variant exactly once. |
| ParityShards.MergesIffComplete | scripts/parity.py:458-498 | A full set of shards merges exactly when each directory is complete, with the common pin and the roster size. |
| ParityShards.MergeAnswersOnce | scripts/parity.py:458-498 | Any merge answers each of its enumerated variants in exactly one directory, and holds no row of an unselected variant. |
| ParityVerdict.Attribution | scripts/parity.py:423-435 | Without nested variants a row belongs to the variant that printed it or to none, whatever else its shard selected. |
| ParityVerdict.CompleteIffProcesses | scripts/parity.py:423-455 | A directory of process rows is then complete exactly when each of its variants' answers is: distinct ids, the variant's own or one level below it. |
| ParityVerdict.CompleteIffBatches | scripts/parity.py:423-455 | A directory of batch rows, which name their variant as parent, is complete exactly when each variant's answer has distinct ids and a measured root, whatever the roster. |
| ParityVerdict.PassesIff | scripts/parity.py:531-550 | The verdict of `check` in terms of roster, answers and expectation alone, for every shard count and every order, for batch suites and for rosters without nested variants. |
| ParityVerdict.AcceptSame | scripts/parity.py:553-570 | Without nested variants, two captures of the same answers are accepted to the same expectation. |
| ParityVerdict.SeparableIsIndependent | scripts/parity.py:531-550 | For a batch suite, or a roster without nested variant ids, the verdict does not depend on the sharding. |
| ParityNesting.DirectDiffers | scripts/parity.py:423-455 | If one variant is a direct sub-id of another, some answers are complete in separate shards and incomplete together. |
| ParityNesting.DeepWhole | scripts/parity.py:423-455 | If variants nest only more deeply, some answers are complete together. |
| ParityNesting.DeepAlone | scripts/parity.py:423-455 | and the same answers are incomplete in separate shards. |
| ParityNesting.IndependentIffSeparable | scripts/parity.py:531-550 | The verdict is independent of the number of shards and of all orders exactly when the suite runs in batches or no variant's id is nested under another's. |
| ParityNesting.LastAccepted | scripts/parity.py:501-502 | Concrete batch answers in which two failing rows share an id: the reason accepted is that of the variant that finished last. |
| ParityNesting.AcceptIffNoNested | scripts/parity.py:553-570 | What `accept` writes is independent of shards and orders exactly when no variant's id is nested under another's, batch suites included. |

## Left out

- Fields of binder records that carry no edge (flags, kinds, positions, counts) are one text per record, compared but not interpreted.
- Reading JSON text, key sets and scalar ranges of records: folded into `BadFrame` and `Malformed` values; strings named `_hex` are byte sequences.
- Parsing the JSON of reassembled binder records, and the shape rules of scanner values, are parameters (`Context.decode`, `Request.valueOk`).
- Panic messages: their classification, the table of nil wires and the regexes behind them are functions of the model's context; UTF-8 decoding of a message is not modelled.
- Request validation (`validate_request`), encoder obligations, probes and report text: conjunctions of field checks and presentation.
- The contents of the syntax schema, the diagnostic rules, the stage tables' request fields and the operation specifications are data.
- `BinderComparison.Compare`: reports whether and how many, not the paths, the exactness of raw records, the qualified names and the raw diagnostics collected beside the verdict; objects are lists of fields in key order.
- `BinderLockstep.CompareRequest`: both streams are read to their end before they are compared, where the original reads them alternately; the JSON of a graph record is a function of the record.
- `UnifiedDiffRun.ParsePatch`: digits of a hunk header are ASCII, where the original also takes other decimal digits; the limit on the length of numerals that `int()` has is not modelled.
- The numbers of the bootstrap and the medians: the two bounds, both deviations and the threshold are uninterpreted deterministic functions of the samples. Checks of a single sample are one predicate.
- `SamplingRun.ValidateRows`: the returned aggregate and the key set of a row are not modelled.
- `OperationMatrix.ValidateDocument`: fingerprints, source positions, policy texts and regeneration are not modelled; that an initialiser's file is fingerprinted is a flag of the call. Sorted lists of function ids are sets.
- `PackageOrder.WalkAll`: reading manifests and the list in the README is not modelled; dependencies are visited in any given order, of which the sorted one is a case.
- `FoldTables.ValidateFold`: the string tables, the embedded version data and the pinned expectations after the cycle check are data.
- `ScannerStream.ReadCase`: the initial source (byte-order marks, UTF-16) is given.
- Splitting a build constraint into tokens is a regex; the model starts from the tokens. The choice of targets and file-name suffixes around it is not modelled.
- `BatchReader.ReadBlobs`: sizes are plain decimal numerals, which is what git writes; other texts that `int()` takes are rejected.
- `LedgerPins.BuildLedger`: package, crate, phase, kind and line counts, migration of scalar `rust` values, UTF-8 decoding and the TOML text are not modelled; the scope of a file is a function of the repository. Digests of legacy entries are read one by one, where the original groups them by commit.
- `LedgerRuns.InStepIffUnchanged`: assumes that a full commit name resolves to itself and that digests are injective.
- `OrderTrace.ValidateTrace`: ties and families are sets, where the original returns them sorted; the order fields of a witness beside its operands are data.
- `ParityVerdict.PassesIff`: a process that prints rows of another variant is turned into a failure by the runner, and is not modelled; the rows of a batch name the variant they answer as parent, which the batch runners outside this model see to.
- `ParityResults.AcceptResults`: the first line of a detail, cut to 200 characters, is a function; other fields of a named failure are kept as they are. Portable identities are compared, not validated.
- Subprocesses, deadlines, files, git, network, receipts, provenance and environment checks.
