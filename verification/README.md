# Belay, verified

Belay runs coding agents against a repository. This project models the parts of it where
a mistake is expensive and hard to see, and proves what they promise:

- **Redaction.** A stream of output is redacted by a writer that holds back a tail, and
  captured up to a limit. `Scan`, `Spans`, `Boundaries`, `Literals` and `Redaction` are
  the specification; `RedactWriter` is the writer, the capture and the sink as classes;
  `Coverage` and `StreamCoverage` say what a redacted text, and a redacted stream, give
  away, and `Marks` what is put in its place; `Seeding`, with `Trimming`, builds the
  redactor; `Limits` shows the bounds on key boundaries to be exact; `HoldPoint` compares
  what is held back with what is documented.
- **Command lines.** `CommandLine` is the quote parser and the quoting that inverts it;
  `CommandGrammar` is the grammar it is shown to accept exactly.
- **Money.** `Ledgers` is the ledger as a class and as a value; `Accounts` what a ledger
  says about the charges it holds; `Budgets` the ceiling and its division; `CrashRuns` a
  run through crashes and resumes; `Fanouts` a fanout's whole bill; `Forks` what a fork
  inherits.
- **Protocols that survive a crash.** `Merges` merges a run's work into a branch and
  commits a working tree; `RunCreation` makes a run.
- **What a run changed.** `FileRecords` is the record of a workspace and the check against
  it; `Changes` joins it with git's answer.
- **Pure data.** `Canonical` (with `Names`, the order names are sorted in) is the text a
  configuration digest hashes; `CanonicalKeys` which keys it can be trusted with; `Edits`
  the planting of defects in one pass over a file.

Each thing the source updates in place is a class or a method with a loop, proved against
a function of its inputs or its old state; what the source promises is proved about that
function. Whole runs are sequences of steps: `After` is the state they lead to and
`Legal` says each could be taken, and a theorem over runs is a lemma over every legal
sequence.

Bytes are characters, money is whole micro-dollars, integers are unbounded. Git is a set
of transitions on commits, branches, an index and a working tree; a step that can fail or
be the last one before a crash takes what befalls it as an argument, so a theorem holds
for every place a process can be killed.

`dafny verify dfyconfig.toml` checks everything.

## Where the code does not do what is said of it

Each of these is proved, with an input that shows it and the exact condition under which
the promise does hold.

- Past its pending cap the writer does not redact as the whole text does, and a seeded
  value can pass it whole. For each length of text, streaming is faithful for all texts of
  that length if and only if the length is below the cap
  (`Coverage.FaithfulExactlyBelowCap`), and every seeded value in them has a byte replaced
  if and only if it is (`StreamCoverage.HidesExactlyBelowCap`). From the cap on
  `Coverage.Astride` is such a text (`Coverage.CapBreaksFaith`,
  `StreamCoverage.CapLeavesOneWhole`).
- Below the cap, a key boundary longer than what the writer holds back is not seen whole
  when it arrives in two writes. Streaming is faithful for all texts whose BEGIN boundaries
  are within the overlap and one byte, and END boundaries within 65 bytes, and for no larger
  bound on either (`Limits.BeginBoundIsExact`, `Limits.EndBoundIsExact`, with the texts of
  `Limits.LongBeginBreaksFaith` and `Limits.LongEndBreaksFaith`). What such a text redacts
  to differs; that no secret in it stays whole holds all the same
  (`StreamCoverage.NoSecretIsStreamedWhole`).
- A manifest can be in place although writing it is reported to have failed, because the
  directory is synced after the rename. `createRun` then takes the branch and the worktree
  from a run that exists, and no later attempt makes it again. Over every run of attempts
  it happens if and only if that sync failed (`RunCreation.UndoSparesRunsExactly`);
  `RunCreation.RunKeepsItsTree` is the attempt in which nothing else does.
- The largest call's estimate flag is documented as saying that a call which set a figure
  was an estimate. The code sets it for any estimated call and never clears it
  (`Accounts.FlagIsAnyEstimate`). It says what is documented if and only if no call was an
  estimate, or some figure's estimate is unsurpassed since
  (`Accounts.FlagIsAsDocumentedExactly`, and call by call `Accounts.RecordKeepsFlagExactly`);
  `Accounts.FlagOutlivesItsEstimate` has one ledger of each kind in which it does not.
- `tailHoldStart` is documented to answer where the last runs of non-space begin. It answers
  where the white space before them begins, and trailing white space ends an empty run that
  counts as one. The two agree if and only if the text has fewer runs than are held, or just
  as many and no white space before or after them (`HoldPoint.HoldAgreesExactly`); they
  differ in both directions (`HoldPoint.HoldDepartsBothWays`).
- A defect's Find text is said to be found exactly once. A text is counted once if and only
  if it occurs and every occurrence overlaps the first (`Edits.CountedOnceExactly`), so "aa"
  is found once in "aaa" (`Edits.OverlapIsCountedOnce`).
- A run is to be charged with what it changed. The answer is exactly that if and only if no
  clean path changed only in mode bits git does not keep, no clean changed path went out of
  git's sight, and none came into it whose difference from the commit is not its change
  (`Changes.AnswerIsTheDifference`, with `Changes.ModeOnlyChangeIsMissed` and
  `Changes.HiddenChangeIsMissed`).

## Model

| member | source | states |
|---|---|---|
| `Scan.GreedyDisjoint` | internal/exec/redact.go:407-417 | two matches of one value's scan never overlap |
| `Scan.MatchesOfPrefix` | internal/exec/redact.go:407-417 | the scan of a prefix takes exactly the matches of the full scan that fit in it |
| `Scan.MatchesOfSuffix` | internal/exec/redact.go:407-417 | past a cut no match straddles, the scan takes what it would take starting there |
| `Scan.EveryOccurrenceIsHit` | internal/exec/redact.go:407-417 | every occurrence, self-overlapping ones included, shares a byte with a match |
| `Spans.MergeInPlace` | internal/exec/redact.go:437-451 | the in-place compaction leaves the merge of the spans the array held |
| `Spans.MergeSound` | internal/exec/redact.go:428-451 | merging yields sorted disjoint ranges that cover the same bytes, and one of them holds each span with its guard |
| `Spans.SortingIsUnique` | internal/exec/redact.go:431-436 | the comparison leaves one sorted order, whatever order spans were found in |
| `Spans.MergeSplit` | internal/exec/redact.go:437-451 | spans on either side of a point merge apart |
| `Spans.RetreatPastSpans` | internal/exec/redact.go:351-373 | the retreat ends, at the greatest cut not above its argument that no guard range has strictly inside it |
| `Spans.ApplySpans` | internal/exec/redact.go:458-483 | the replacing loop computes the replacement function |
| `Spans.ApplySplit` | internal/exec/redact.go:458-483 | replacing spans on both sides of a cut is replacing in each half |
| `Boundaries.AtInOrder` | internal/exec/redact.go:176-179 | an encapsulation boundary (section 2 of RFC 7468) ends in one place only, and later ones end later |
| `Boundaries.FindExtends` | internal/exec/redact.go:176-179 | a boundary found in a buffer is still the first one when more arrives |
| `Boundaries.FindStartsLate` | internal/exec/redact.go:44-46 | a boundary still incomplete starts within the bytes kept for it |
| `Boundaries.FindAfterDrop` | internal/exec/redact.go:383-395 | dropping bytes no boundary starts in moves what is found and nothing else |
| `Literals.RawIsComparable` | internal/exec/redact.go:431-436 | no two matches of the seeded values compare equal, so the sort has one answer |
| `Literals.SpansOfSound` | internal/exec/redact.go:405-452 | the ranges of a buffer are in order, disjoint, inside it, and swallow every match |
| `Literals.SpansSplit` | internal/exec/redact.go:405-452 | cut where no match goes through, a buffer's ranges are those of its halves |
| `Literals.RedactSplit` | internal/exec/redact.go:335-347 | the part before such a cut is redacted the same with the whole buffer's ranges, and the rest as if alone |
| `Literals.SafeIsClear` | internal/exec/redact.go:351-373 | where no merged guard range is, no match of any secret is |
| `Literals.ClearInFuture` | internal/exec/redact.go:315-334 | a cut that far from the end of what has arrived is clear in everything still to arrive |
| `Literals.OccurrenceIsCovered` | internal/exec/redact.go:405-452 | every occurrence of a seeded value shares a byte with a replaced range |
| `Marks.ReplacedAreMatches` | internal/exec/redact.go:405-452 | a byte is replaced if and only if it is in a match of a seeded value |
| `Marks.MarkIsTheLongest` | internal/exec/redact.go:405-452 | each range starts with a match, and is replaced by the marker of the longest value matched there |
| `Marks.OneSecretIsReplaceAll` | internal/exec/redact.go:405-483 | with one value seeded, redacting is replacing every copy a left-to-right search finds by its marker |
| `Marks.ValueRedactsToMark` | internal/exec/redact.go:405-483 | a value on its own redacts to its marker, with nothing of the value left |
| `Redaction.DrainKeeps` | internal/exec/redact.go:284-313 | taking key blocks out of the buffer loses nothing of what the rest will redact to |
| `Redaction.FlushKeeps` | internal/exec/redact.go:315-349 | forwarding up to the flush point loses nothing, whatever arrives later |
| `Redaction.ProcessKeeps` | internal/exec/redact.go:280-349 | so does a pass |
| `Redaction.ProcessFinishes` | internal/exec/redact.go:273-349 | the last pass forwards all there is and empties the buffer |
| `Redaction.StreamIsWhole` | internal/exec/redact.go:215-233 | however a text is chunked, while the buffer stays below its cap the stream redacts as the whole text does |
| `Redaction.ShortTextIsCalm` | internal/exec/redact.go:35-42 | a text shorter than the cap never fills the buffer, however it is chunked |
| `Redaction.PendingIsCapped` | internal/exec/redact.go:35-42 | after a pass the writer holds less than its cap, or its overlap if that is more |
| `Coverage.WholeIsReplacement` | internal/exec/redact.go:280-349 | redaction, key blocks included, is replacement of ranges that are in order, disjoint and inside the text |
| `Coverage.NoSecretIsLeftWhole` | internal/exec/redact.go:315-373 | in a text redacted at once, wherever a seeded value occurs some byte of it is in a replaced range |
| `Marks.KeyBlockRedactsToMark` | internal/exec/redact.go:284-313 | a key block redacts to the key marker, whatever it holds and whether or not it is closed |
| `Marks.CleanTextIsUntouched` | internal/exec/redact.go:280-349 | a text with no key and no seeded value goes through as it is |
| `Coverage.CapBreaksFaith` | internal/exec/redact.go:35-42 | at every length from the cap on, some text redacts differently in a stream |
| `Coverage.FaithfulExactlyBelowCap` | internal/exec/redact.go:215-219 | all texts of a length stream as they redact whole if and only if the length is below the cap |
| `StreamCoverage.StreamIsReplacement` | internal/exec/redact.go:215-349 | for every chunking, cap or boundary length, what the stream forwards is the text with the ranges its passes replace replaced: they are in order, disjoint and inside it |
| `StreamCoverage.NoSecretIsStreamedWhole` | internal/exec/redact.go:315-373 | for every chunking whose buffer stays below the cap, with no bound on key boundaries, wherever a seeded value occurs in the stream some byte of it is in one of those ranges |
| `Marks.StreamMarks` | internal/exec/redact.go:280-349 | whatever goes through a stream, a range is replaced by a seeded marker or the key marker, or was dropped from an open block |
| `StreamCoverage.HidesExactlyBelowCap` | internal/exec/redact.go:35-42 | in all texts of a length, however chunked, every seeded value has a byte replaced if and only if the length is below the cap |
| `Limits.EndBoundIsExact` | internal/exec/redact.go:44-46 | below the cap, all texts with END boundaries of at most so many bytes stream as they redact whole if and only if that is at most 65 |
| `Limits.BeginBoundIsExact` | internal/exec/redact.go:313-317 | and with BEGIN boundaries so far over the overlap, if and only if that is at most one byte |
| `Seeding.Collect` | internal/exec/redact.go:193-213 | exactly the trimmed values long enough to use are kept, each once under its first name, the longest first |
| `Seeding.NewRedactor` | internal/exec/redact.go:193-213 | the redactor meets all that the streaming theorem asks, and its overlap exceeds every value's length |
| `Trimming.TrimTakesJustSpace` | internal/exec/redact.go:200-203 | trimming takes characters Unicode calls white space, and nothing else, from both ends, and all of them |
| `Seeding.LabelsAreSanitized` | internal/exec/redact.go:521-539 | a label is written one character for one as capitals, digits and underscores, and one so written stays |
| `Seeding.MarkersNameTheLabel` | internal/exec/redact.go:515-520 | a marker shows its label, so two labels share one only where they are written the same |
| `Seeding.KeyLinesMatch` | internal/exec/redact.go:170-179 | a line is a key boundary if and only if capitals, digits and spaces, or nothing, stand between its words |
| `Seeding.OrderIsIrrelevant` | internal/exec/redact.go:185-213 | what a buffer redacts to depends on which secrets there are, not on their order |
| `RedactWriter.ScanFor` | internal/exec/redact.go:405-417 | the scanning loop lists the matches of one secret, in order |
| `RedactWriter.SpansIn` | internal/exec/redact.go:405-452 | scanning, sorting and merging in place give the ranges of the buffer |
| `RedactWriter.TailHoldStart` | internal/exec/redact.go:485-507 | the backward walk computes the hold point |
| `HoldPoint.HoldAgreesExactly` | internal/exec/redact.go:485-507 | the hold point is the documented offset if and only if there are fewer runs than are held, or just as many and no white space around them |
| `HoldPoint.HoldAgainstDocumented` | internal/exec/redact.go:485-507 | a text that ends in a run has at least as much held back as documented, one that ends in white space at most as much |
| `HoldPoint.HoldDepartsBothWays` | internal/exec/redact.go:485-507 | and there is a text of each kind where the two differ |
| `HoldPoint.FlushIsTheMost` | internal/exec/redact.go:315-373 | below the cap as much is forwarded as is clear of the overlap, the held runs and every match |
| `HoldPoint.CleanTextFlows` | internal/exec/redact.go:315-349 | of a text with no secret and no key only the overlap or the held runs stay behind, whichever is more |
| `RedactWriter.Writer.DrainKeys` | internal/exec/redact.go:284-313 | the loop forwards and keeps what the drain says |
| `RedactWriter.Writer.Cut` | internal/exec/redact.go:315-334 | the cut is the flush point, and the ranges computed with it are the buffer's |
| `RedactWriter.Writer.Write` | internal/exec/redact.go:257-271 | a write forwards, and leaves pending, exactly what a pass over the buffer with it does |
| `RedactWriter.Writer.Close` | internal/exec/redact.go:273-278 | closing forwards what the last pass does |
| `RedactWriter.Capture.Write` | internal/exec/exec.go:611-629 | what is held is as much of what was offered as fits, and the rest is counted |
| `RedactWriter.Sink.Write` | internal/exec/exec.go:574-605 | input is redacted into the capture, or dropped unscanned and counted once it is full |
| `RedactWriter.CaptureStream` | internal/exec/exec.go:574-649 | what is captured is exactly as much of the whole stream's redaction as fits, though a full capture stops redacting; nothing counted as dropped means it is all of it |
| `RedactWriter.RedactString` | internal/exec/redact.go:215-233 | a string redacts through the same machine, and below the cap to what the whole text does |
| `CommandLine.Tokenize` | internal/exec/exec.go:686-758 | the parser's loop computes the parse of the line |
| `CommandGrammar.AcceptsExactlyTheSpelled` | internal/exec/exec.go:670-758 | a line without a NUL is accepted if and only if the grammar spells it, and otherwise refused as unterminated |
| `CommandGrammar.ReadsAsSpelled` | internal/exec/exec.go:670-758 | however a line is spelled, in and out of both kinds of quotes, its arguments are what its items mean |
| `CommandLine.QuotedArgumentsReadBack` | internal/cli/fork.go:630-635 | any arguments, quoted (section 2.2.2 of the POSIX Shell Command Language) and joined, read back as themselves; a NUL anywhere is refused |
| `CommandLine.QuotingIsInjective` | internal/cli/fork.go:630-635 | two argument lists without a NUL are never written the same way |
| `CommandLine.QuotesUnlessPlain` | internal/cli/fork.go:630-635 | a word is written bare if and only if it is not empty and every character is one that means nothing to a shell |
| `Ledgers.Ledger.Record` | internal/budget/ledger.go:142-152 | a call is charged to its node and the total, and raises the largest call |
| `Ledgers.Ledger.RecordSum` | internal/budget/ledger.go:154-171 | a sum is charged to its node and the total, and leaves the largest call alone |
| `Ledgers.Ledger.Unrecorded` | internal/budget/ledger.go:192-218 | the part of a running total the node's record does not hold yet |
| `Ledgers.Ledger.Without` | internal/budget/ledger.go:220-246 | of any ledger that lists each node once, one rebuilt over its journal included, the copy is the ledger with one node taken out, the original unchanged |
| `Ledgers.Ledger.Rebuild` | internal/budget/ledger.go:374-409 | the rebuilt ledger is the journal's replay, its total no less than the snapshot's |
| `Ledgers.RebuiltIsListed` | internal/budget/ledger.go:374-409 | a rebuilt ledger lists every node once, whatever its floor |
| `Ledgers.RebuiltIsRaisedToFloor` | internal/budget/ledger.go:374-409 | a rebuilt ledger is the replay but for its total, which is the least that is no less than the replay's or the floor in any figure |
| `Ledgers.PostedIsConsistent` | internal/budget/ledger.go:78-86 | charging keeps the order listing every node once and the total the sum over the nodes |
| `Ledgers.ReplayIsConsistent` | internal/budget/ledger.go:374-409 | every ledger made of charges is so |
| `Ledgers.WithoutIsTheOthers` | internal/budget/ledger.go:220-246 | taking a node out takes just its record from the total and its name from the order, and leaves the others and the largest call untouched; a total that was the sum over the nodes is then the sum over the others |
| `Accounts.OrderOfChargesIsIrrelevant` | internal/budget/ledger.go:142-171 | charges in any order give the same total, node totals and largest call |
| `Accounts.CallsAreWithinLargest` | internal/budget/ledger.go:253-279 | no single call exceeds the largest in any figure |
| `Accounts.LargestIsLeast` | internal/budget/ledger.go:253-279 | and nothing smaller bounds them all |
| `Accounts.FlagIsAnyEstimate` | internal/budget/ledger.go:253-279 | for every ledger, the flag is set if and only if some single call was an estimate |
| `Accounts.FlagIsAsDocumentedExactly` | internal/budget/ledger.go:253-279 | a flag documented to be set is; it says just what is documented if and only if no call was an estimate or some figure of the largest is still an estimate's |
| `Accounts.RecordKeepsFlagExactly` | internal/budget/ledger.go:142-152 | one more call keeps it so if and only if there has been no estimate, or the call leaves some figure's mark standing |
| `Accounts.FlagOutlivesItsEstimate` | internal/budget/ledger.go:253-279 | an estimate that sets no figure, and one a dearer exact call displaces, each leave the flag set |
| `Accounts.OrderIsFirstCharged` | internal/budget/ledger.go:173-181 | nodes are listed in the order they were first charged |
| `Accounts.ReportsChargeTheMost` | internal/budget/ledger.go:154-218 | reports of a running total leave the node at its old record raised by each, and raise the total by just that |
| `Accounts.HighestIsTheMost` | internal/budget/ledger.go:192-218 | that record is the least that no report exceeds in any figure |
| `Accounts.ChargeReport` | internal/budget/ledger.go:192-218 | charging the unrecorded part of a report as a sum is one such report |
| `Budgets.AffordedBatchPassesCheck` | internal/budget/budget.go:122-167 | a batch that can be afforded, none of it dearer than projected, leaves the run within its ceiling |
| `Budgets.CheckRefusesExactly` | internal/budget/budget.go:93-120 | a step is refused if and only if dollars or tokens are over a ceiling there is for them and the policy is not to warn |
| `Budgets.AffordedExactly` | internal/budget/budget.go:122-167 | a batch can be afforded if and only if the run would be inside both ceilings with each of it charged as projected |
| `Budgets.SharesFit` | internal/budget/partition.go:43-66 | n shares come to what was left less a remainder smaller than n, in dollars and in tokens, and none reads as uncapped where the ceiling is not |
| `Budgets.RefusedExactly` | internal/budget/partition.go:43-66 | a division is refused if and only if there is nobody to share among, no dollar ceiling, or a share that would come to nothing, and each with its own error |
| `Budgets.AdoptIsLeast` | internal/budget/partition.go:68-111 | adopting an envelope again under other ceilings never lowers it, and gives at least each ceiling's share |
| `Budgets.AdoptIsLeastOf` | internal/budget/partition.go:68-111 | and no more than that |
| `Budgets.AdoptionOrderIsIrrelevant` | internal/budget/partition.go:68-111 | neither the order of the ceilings nor how often each came matters |
| `Budgets.EnvelopesStayInside` | internal/budget/partition.go:43-111 | n envelopes never come to more dollars than the largest ceiling used less the spend before |
| `CrashRuns.RunsAreFaithful` | internal/graph/dispatcher.go:1495-1520 | through any run of starts, charges, journal records, snapshots and crashes the ledger is what the journal says, but for the charge in flight |
| `CrashRuns.CrashLosesNothing` | internal/budget/ledger.go:374-409 | what a crash is resumed with is exactly the ledger the journal records, node by node and in order |
| `CrashRuns.RunsStayUnderCeiling` | internal/budget/budget.go:93-120 | journalled dollars, and journalled tokens, are over their ceiling by no more than the last charge's |
| `CrashRuns.SpendIsCeilingPlusOneCall` | internal/budget/budget.go:70-120 | however often a run crashes, its dollars and its tokens are within their ceilings and the largest single call |
| `CrashRuns.StartsExactlyInside` | internal/budget/budget.go:93-120 | a settled run can go on if and only if its journal is inside both ceilings or the policy is to warn |
| `CrashRuns.SnapshotIsOfTheJournal` | internal/graph/dispatcher.go:1495-1520 | the snapshot on disk is the total of the journal as it was when it was last written |
| `Fanouts.FanoutsStaySound` | internal/budget/partition.go:9-66 | every step of a fanout keeps each candidate within its envelope and one step in dollars and in tokens, and the parent charged no more than they spent in any figure |
| `Fanouts.WholeBill` | internal/nodes/fanout/envelope.go:40-47 | over every interleaving of candidates' steps with the parent charging, journalling, saving, crashing and being rebuilt, its total never exceeds the largest ceiling given and one largest step of each candidate, in dollars and, while there is a ceiling on them, in tokens; without the fanout it is what it was before |
| `Fanouts.ReportChargesTheSeen` | internal/budget/ledger.go:192-218 | a report raises what the parent is charged to what the candidates it could read have spent, and never lowers it |
| `Fanouts.FullReportChargesAll` | internal/budget/ledger.go:192-218 | a report of every candidate leaves the parent charged with exactly what they spent |
| `Fanouts.KidsAreTheirSteps` | internal/budget/partition.go:9-66 | a candidate's ledger is the replay of its own steps, whatever becomes of the parent |
| `Fanouts.EnvelopesAreAdopted` | internal/budget/partition.go:68-111 | a candidate's envelope is its first share adopted under the ceilings it was given, and nothing charged meanwhile decides it |
| `Fanouts.SnapshotIsOfTheJournal` | internal/budget/ledger.go:374-409 | the parent's snapshot is the total of its journal as that was when it was last written |
| `Forks.Inherit` | internal/fork/fork.go:456-475 | the inherited prefix is the history before the visit with no cost in it, and the cost is what was taken out |
| `Forks.Make` | internal/fork/fork.go:428-452 | a fork is made at a visit whose snapshot the run kept itself, and refused otherwise |
| `Forks.ChainsAreSound` | internal/fork/create.go:79-93 | along any chain of steps and forks of forks a journal is the true history with just its inherited costs taken out |
| `Forks.EachDollarOnce` | internal/fork/create.go:139-144 | a run's inherited figure and its own journal together cost what its whole history did, and record numbers only rise |
| `Forks.ForksOwnVisitsOnly` | internal/fork/fork.go:428-452 | along any chain a fork is made if and only if the visit is one of the run's own; its journal is the history before it without a cost, and it inherits that history's whole cost |
| `Forks.InheritedVisitIsRefused` | internal/fork/fork.go:439-447 | a visit numbered before the run's own records is refused |
| `Forks.InheritedVisitWouldOvercount` | internal/fork/fork.go:428-452 | forking at a visit a run only inherited would count what came after it |
| `Merges.AncestorsOfAncestors` | internal/git/commit.go:154-160 | containing a commit is transitive |
| `Merges.AncestorsAreReachable` | internal/git/commit.go:154-160 | one commit contains another if and only if parents lead from it to the other |
| `Merges.AbortKeepsOtherEdits` | internal/git/commit.go:399-410 | undoing a merge puts back what the merge changed and keeps every other edit |
| `Merges.AbortLosesNoEdit` | internal/git/commit.go:399-410 | it loses no file but one as the merge left it, and is refused only over an edit to what the merge changed |
| `Merges.Repository.AbortMerge` | internal/git/commit.go:399-410 | from any state, a merge in progress is undone path by path to HEAD, edits outside it kept, and refused with nothing changed where that would lose one; with none, nothing happens |
| `Merges.Repository.ResolveInterruptedMerge` | internal/git/commit.go:333-366 | only belay's own untouched merge is undone; another is refused with nothing changed |
| `Merges.Repository.Integrate` | internal/git/commit.go:130-186 | the steps in their order compute the attempt, for every place it can stop |
| `Merges.Repository.GitMerge` | internal/git/commit.go:174-185 | the merge, what it leaves where it is cut short, and the abort where it fails |
| `Merges.Repository.CommitAll` | internal/git/commit.go:72-105 | everything is staged, and committed only where HEAD does not have it |
| `Merges.ThroughReportsExactly` | internal/git/commit.go:107-186 | an attempt nothing stops merges, or finds it merged, if and only if no merge but its own untouched one is in progress and HEAD contains the source or the tree is clean and nothing conflicts; each refusal has its reason, and it never fails |
| `Merges.ThroughMergesOrHasMerged` | internal/git/commit.go:174-185 | what it then answers is HEAD as it was, or one commit of the merged tree on HEAD and the source with the message, clean |
| `Merges.FailsOnlyWithGit` | internal/git/commit.go:174-185 | an attempt fails only where git refuses or fails a merge that would otherwise be made, and leaves what was there |
| `Merges.ConflictTouchesNothing` | internal/git/commit.go:117-123 | a conflict report leaves everything as it was found and names the files |
| `Merges.OnlyTheRecomputableIsDiscarded` | internal/git/commit.go:318-332 | whatever stops an attempt, one that changes anything started from a clean tree, or from exactly what merging HEAD and the source gives |
| `Merges.AttemptAddsOneMerge` | internal/git/commit.go:107-129 | an attempt moves the branch forward by one merge of a source it did not contain, or not at all |
| `Merges.TipContainsSource` | internal/git/commit.go:107-129 | a tip reported is the branch's and contains the source |
| `Merges.EachSourceIsMergedOnce` | internal/git/commit.go:107-186 | over every run of attempts stopped anywhere, with people doing anything but moving the branch back, each source is merged at most once, with the predicted tree, and stays in the branch |
| `Merges.OneStopConverges` | internal/git/commit.go:333-366 | an attempt left alone after one stopped between git's steps ends, and reports, as if the other had not been |
| `Merges.ReRunsConverge` | internal/git/commit.go:107-123 | from any state, any number of stopped attempts and then one left alone end as one alone |
| `Merges.CommitsConverge` | internal/git/commit.go:47-105 | stopped commits and then one left alone end as one alone: one commit of exactly the files there are, on HEAD and any merge in progress and with its message, or none exactly when HEAD had them |
| `RunCreation.Repository.CreateRun` | internal/cli/run.go:210-269 | the order of writes and what each failure leads to are the machine's, for every place an attempt can fail or be killed |
| `RunCreation.Repository.SaveState` | internal/state/atomic.go:145-215 | the rename and then the directory sync, either of which can fail or be the last thing done |
| `RunCreation.Repository.SaveManifest` | internal/state/atomic.go:145-215 | the same of the manifest, so that a failure can be reported with the manifest in place |
| `RunCreation.Repository.PrepareWorkspace` | internal/cli/run.go:338-376 | the branch and the worktree are claimed in turn, and a branch just made is undone when the worktree fails |
| `RunCreation.Repository.ClaimBranch` | internal/cli/run.go:378-397 | a branch at the base is adopted, one elsewhere refused, a missing one made |
| `RunCreation.Repository.ClaimWorkTree` | internal/cli/run.go:399-418 | a worktree on the branch is adopted, another refused, a missing one added |
| `RunCreation.Repository.UnwindWorkspace` | internal/cli/run.go:420-447 | the worktree goes first, and the branch only if that worked |
| `RunCreation.Repository.DeleteBranch` | internal/git/refs.go:282-318 | a branch is deleted only at the base and checked out nowhere |
| `RunCreation.StepSparesBranches` | internal/cli/run.go:378-397 | no step moves a branch, deletes any but the run's own at its base, or touches another worktree |
| `RunCreation.WorkIsSafe` | internal/cli/run.go:378-397 | over every run of attempts interfered with at any step, a branch that at any moment is not the run's own at its base, moved there in mid-attempt included, stays where it is unless somebody else moves it |
| `RunCreation.StepSparesTrees` | internal/cli/run.go:420-447 | no step changes a worktree in place, or removes any but the run's own where it is neither locked nor the main one |
| `RunCreation.TreesAreSafe` | internal/cli/run.go:399-447 | over every run of attempts, a worktree that is locked, main or not the run's stays as it is unless somebody else changes it |
| `RunCreation.RunsAreOrdered` | internal/cli/run.go:177-193 | over every run of attempts and interference there is no manifest without the state |
| `RunCreation.RunsAreMadeOnce` | internal/cli/run.go:202-219 | once there is a manifest no attempt writes it, or the state, again |
| `RunCreation.ManifestIsEarned` | internal/cli/run.go:210-269 | when a manifest is written its state was, and during that attempt the branch was at its base and then the worktree on it; where nobody interfered, both hold as it is written |
| `RunCreation.NoRunWithoutItsPins` | internal/cli/run.go:210-269 | where an attempt leaves a manifest there was none of, its directory, its state and both pins worked on the way |
| `RunCreation.UndoSparesRunsExactly` | internal/cli/run.go:420-447 | over every run, an undo takes the branch and worktree of a run that has been made if and only if the directory sync after its manifest's rename failed |
| `RunCreation.RunKeepsItsTree` | internal/state/atomic.go:190-215 | with nothing else amiss, a run with a manifest has its worktree and branch if and only if that sync was not reported to fail |
| `RunCreation.SucceedsExactly` | internal/cli/run.go:210-269 | an attempt nothing stops makes the run if and only if there is none and git can give it its branch and worktree |
| `RunCreation.AttemptsLeaveItTidy` | internal/cli/run.go:195-201 | attempts failing and killed anywhere leave nothing in the next one's way |
| `RunCreation.AttemptsConverge` | internal/cli/run.go:195-201 | after any of them the run exists or the next attempt nothing stops makes it |
| `RunCreation.FailureLeavesNothing` | internal/cli/run.go:334-337 | an attempt that found neither branch nor worktree and fails at any step leaves both lists as they were |
| `FileRecords.Take` | internal/filerecord/filerecord.go:115-147 | the record holds, for just the paths asked for or just those walked and still there, what the disk holds |
| `FileRecords.Changed` | internal/filerecord/filerecord.go:158-197 | the answer is the sorted list, each once, of the candidates the check does not find unchanged; which those are is the rows below |
| `FileRecords.Walk` | internal/filerecord/filerecord.go:231-276 | exactly the files and links outside .git and the top .belay are listed |
| `FileRecords.HiddenExactly` | internal/filerecord/filerecord.go:237-266 | left out are .git and what is in it at any depth, and .belay and what is in it at the top, and nothing else |
| `FileRecords.ViewsTellApart` | internal/filerecord/filerecord.go:278-327 | a check tells two files apart if and only if one came or went, or kind, bytes, link text or a file's permissions differ |
| `FileRecords.OpEvolves` | internal/filerecord/filerecord.go:300-327 | every operation gives each inode it changes a later change time, inode reuse and renames included |
| `FileRecords.RunEvolves` | internal/filerecord/filerecord.go:300-327 | so does every run of them |
| `FileRecords.ShortcutIsSound` | internal/filerecord/filerecord.go:300-327 | the check by inode and change time finds what reading everything would find |
| `FileRecords.CompleteRecordIsExact` | internal/filerecord/filerecord.go:152-197 | after any operations a complete record answers exactly the visible paths that came or went, or whose inodes differ in kind, bytes, link text or a file's permissions |
| `FileRecords.PartialRecordIsExact` | internal/filerecord/filerecord.go:152-197 | and a partial one exactly which of its paths do |
| `Changes.PinChanges` | internal/cli/changes.go:71-100 | a run without git records the whole workspace unless it is a fanout; one in a person's checkout records the paths already changed, when git can be asked and there are any; a run on a branch records nothing |
| `Changes.GitChanges` | internal/cli/changes.go:146-168 | the answer is git's less the recorded paths, with those the record finds changed, sorted and each once |
| `Changes.AnswerIsExact` | internal/cli/changes.go:137-168 | over any operations, and whatever ignore rules hide or show meanwhile, exactly which paths are listed: recorded ones that are not as they were, other paths git showed that differ in what git keeps, and newly shown ones that differ from the commit |
| `Changes.KeptTellsApart` | internal/cli/changes.go:137-168 | git tells two files apart if and only if one came or went, or kind, bytes, link text or the owner's execute bit differ |
| `Changes.AnswerIsOfTheFiles` | internal/cli/changes.go:137-168 | said of the files: a path already changed is listed if anything about it is otherwise, any other if git can tell it from the base commit's |
| `Changes.AnswerIsTheDifference` | internal/cli/changes.go:137-168 | the answer is exactly what changed if and only if no clean path changed only in mode bits git does not keep, went out of sight changed, or came into sight with a difference that is not its change |
| `Changes.ModeOnlyChangeIsMissed` | internal/cli/changes.go:137-168 | and there is such a path that is missed |
| `Changes.HiddenChangeIsMissed` | internal/cli/changes.go:137-168 | a file an ignore rule has hidden since is missed too |
| `Changes.SameSightMissesOnlyModes` | internal/cli/changes.go:137-168 | where git shows the same paths throughout, a path is missed if and only if it changed only in mode bits |
| `Names.ListingIsUnique` | internal/config/config.go:998 | a set of names has one sorted list |
| `Names.LessIsByteOrder` | internal/config/config.go:998 | a name comes first if it is the start of the other or has the lesser byte where they first differ |
| `Canonical.Render` | internal/config/config.go:996-1005 | whatever order keys are ranged over, the text is the sorted lines, and reads back as the snapshot |
| `Canonical.CanonicalReadsBack` | internal/config/config.go:991-1005 | with no '=' in a key, any values read back from the text |
| `Canonical.PlainValueIsItself` | internal/config/config.go:996-1005 | a value of printable ASCII is written as it is between quotes |
| `Canonical.EscapesAre` | internal/config/config.go:996-1005 | what is not is written as strconv.Quote writes it: by its letter where it has one, and otherwise by its number in two, four or eight hexadecimal digits |
| `Canonical.SameTextSameSnapshot` | internal/config/config.go:991-1005 | two snapshots have the same text if and only if they are the same |
| `CanonicalKeys.CollidesExactly` | internal/config/config.go:991-1005 | a setting has the text of some other snapshot of plain keys if and only if its key spells whole settings before a last key |
| `CanonicalKeys.EqualsInAKeyCollides` | internal/config/config.go:991-1005 | such a key, and the snapshot it shares its text with |
| `Edits.LocateEach` | fixtures/seeded-bug/inject.go:300-325 | the first defect not counted once is refused with its count; otherwise each is where its text is |
| `Edits.PlanEdits` | fixtures/seeded-bug/inject.go:284-340 | accepted edits are sorted, inside the file and pairwise disjoint; refused ones overlap |
| `Edits.PlanPlantsEach` | fixtures/seeded-bug/inject.go:284-340 | an accepted plan has one edit for each defect, that puts its Replace exactly where its Find is |
| `Edits.CountedOnceExactly` | fixtures/seeded-bug/inject.go:300-325 | a text counts as found once if and only if it occurs and every occurrence overlaps the first |
| `Edits.CountedNever` | fixtures/seeded-bug/inject.go:300-325 | a text is counted as not found if and only if it occurs nowhere; an empty one is found once in an empty file only |
| `Edits.OverlapIsCountedOnce` | fixtures/seeded-bug/inject.go:300-325 | "aa" occurs twice in "aaa" and is counted once |
| `Edits.NeighboursSuffice` | fixtures/seeded-bug/inject.go:326-338 | checking neighbours in the sorted list makes every pair disjoint |
| `Edits.ApplyEdits` | fixtures/seeded-bug/inject.go:342-377 | the single pass computes the splice |
| `Edits.OnePassIsOneByOne` | fixtures/seeded-bug/inject.go:342-377 | the pass equals making the edits one at a time from the highest offset down |
| `Edits.ListingOrderIsIrrelevant` | fixtures/seeded-bug/inject.go:342-377 | the order edits are listed in does not matter |
| `Edits.UndoRestores` | fixtures/seeded-bug/inject.go:342-377 | the inverse edits at their shifted offsets apply, and restore the file |

## Left out

- Regular-expression credential patterns: a `\b` looks at context a flush has removed, so chunking can change what they match. Only seeded values and key blocks are modelled.
- Redaction.StreamIsWhole: assumes BEGIN boundaries of at most `overlap + 1` bytes, END boundaries of at most 65, and a buffer below the cap, because the code redacts some texts past each of these differently; the three bounds are proved exact (`Limits.BeginBoundIsExact`, `Limits.EndBoundIsExact`, `Coverage.FaithfulExactlyBelowCap`).
- StreamCoverage.NoSecretIsStreamedWhole: assumes a buffer below the cap, which `StreamCoverage.HidesExactlyBelowCap` proves exact by length. A seeded value inside a key block is replaced with the block, not by its own marker; that a marker's own text contains no secret is not claimed.
- Errors of the destination a redacting writer forwards to, and the locks around the writer, the capture and the ledger: each method is one step.
- The text a truncated capture appends for a reader.
- Conversion between dollars and micro-dollars, NaN, infinities and 64-bit overflow.
- CrashRuns.SpendIsCeilingPlusOneCall: is about spend recorded call by call; sums a supervising node reports are bounded by `Fanouts.WholeBill` instead.
- Fanouts.WholeBill: candidates are charged as they step, and a candidate's own crashes are those of `CrashRuns`; a saved total is never ahead of the journal, which is written first (internal/budget/ledger.go:388-389).
- Forking's copies of files, its notes and its file checks; only the history, the numbering and the cost are modelled.
- Merges.Repository.Integrate: the validity of the message, the proof that the directory is this repository's working tree and the resolving of names come before anything else and change nothing, so an attempt they refuse is one that stops first; files git ignores, which a merge may overwrite, are not in the model.
- Merges.ReRunsConverge: an attempt killed in the middle of git's own checkout or abort can leave a half-written tree, which later attempts refuse; that case is in `Merges.EachSourceIsMergedOnce` and not in this one.
- RunCreation.RunsAreMadeOnce: two attempts for the same run at the same moment are not modelled; interference is by people and other tools, at any step, with branches and worktrees.
- RunCreation.FailureLeavesNothing: takes it that a git command that makes a branch or a worktree and fails has made nothing, as internal/git/worktree.go:128-131 says, and that what is undone can be; one killed part way is in `RunCreation.AttemptsConverge`.
- The files in a run's directory besides state and manifest, and what the pins hold; a pin is a step that can fail.
- Path cleaning, directories that cannot be read, and files that change while one is being read.
- FileRecords.OpEvolves: takes it that a status-change time strictly advances with every modification, which the shortcut rests on.
- FileRecords.Changed: a rename that the kernel does not stamp and one that it does are both modelled; case-insensitive names are not.
- Digests and hashes are taken to be injective.
- Canonical.SameTextSameSnapshot: requires keys without `=`, which is what every key of a loaded configuration is (internal/config/routing.go:137-145 refuses the node names that could make another); exactly which others share a text is `CanonicalKeys.CollidesExactly`. Which characters past ASCII the library prints as they are is a parameter, and a value that is not valid UTF-8 is not modelled.
- Grouping defects by file and reading and writing the files; each file's edits are planned and applied on their own.
- Starting and stopping processes, the dispatcher's graph, the queue, the planner, policy and presentation: they add no harder property to these.
