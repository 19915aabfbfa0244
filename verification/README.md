# Verified cores of the repository's scripts

The repository's scripts decide whether a pilot is a success, whether a hardening receipt may be
promoted, which files a change may touch, and how coverage is reported. Much of that rests on a few
small algorithms: a hand-written JSON recogniser, a key-sorting JSON printer whose text is compared
instead of the value, a bounded capture of a running command, worker pools, a gate-based decision, and
printers and parsers for git and shell text. This project models those algorithms in Dafny and proves
what the rest of the scripts rely on. `dafny verify dfyconfig.toml` checks everything.

How the parts fit together:

- **Strict JSON.** `JsonSyntax` is the grammar of RFC 8259 (sections 2 to 7, with the white space that
  `\s` matches) as trees and the text each tree spells. `JsonRecognizer` holds the recogniser as
  functions on the remaining text, `JsonLanguage` proves that these decide the grammar together with
  "no object has two members with equal decoded keys", and `StrictJsonParser` is the class with its
  mutable `index`, each method proved against those functions. `StrictJson` adds `JSON.parse`,
  `CanonicalJson` the printer, and `JsonRoundTrip` the round trip and the question when equal texts mean
  equal values. Text is a sequence of UTF-16 code units, and objects keep their properties in the order
  in which JavaScript does: array indices first, ascending.
- **Bounded command capture.** `CommandCapture` is a state machine whose events are the callbacks and
  awaits of `executeCloseoutCommand`; its results hold for every order of events.
- **Worker pools.** `WorkerPool` steps workers from one await to the next over a shared cursor; `LcovText`
  reads the text of lcov files, and `Coverage` has the merge by maximum and the totals.
- **Pilot decision.** `PilotStatistics` (median, reduction) and `ValuePilot` (gates, decision, recheck),
  over reals.
- **Closeout.** `Closeout` (result lists) and `CloseoutReceipt` (the whole receipt) compare the producer
  with the independent verifier.
- **Printers and parsers.** `Segments`, `GitChanges`, `GitStatus`, `ScopeCheck`, `ShellQuoting`,
  `Decimals`.
- **Small imperative and concurrent cores.** `BoundedRead`, `HeadingIds` with `HeadingSurvival`,
  `Sealing`.
- `Sorting`, `Lists`, `Naturals`, `CodePoints` and `Wrappers` are shared.

Some expectations one may have of the code are false. For each of them the project has an input at which
it fails and the exact condition under which it holds:

| expectation | holds exactly when | fails at |
|---|---|---|
| equal canonical texts decide equality of values | the key comparator has no ties among the keys that are no array indices (`TextEqualityDecidesIffNoTies`); `localeCompare` has some | any tied pair (`TiedKeysPrintDifferently`) |
| a report that lists its reason codes correctly passes the recheck | not both kinds of incident occurred (`RecheckExactly`) | two such attempts (`BothIncidentsRefuseEveryReport`) |
| a captured log stays within its limit | no spawn failure has a message that passes it (`CaptureTooLongExactly`) | any message of `maxLogBytes - 40` bytes (`LongSpawnMessagePassesLimit`) |
| a change key identifies its change | the change is no rename with a colon in a path (`KeyIdentifiesExactly`), or among clean paths: the joined paths cannot be cut at another colon into clean ones (`CleanKeyIdentifiesExactly`) | two clean renames (`RenameKeysCanCollide`) |
| the first heading with an id keeps it | its id is not the n-th generated one with n headings before it that take the first n (`KeptExactly`) | a heading `archive-section-1` after one without an id (`GeneratedLookalikeLost`) |
| the sealed output is whole in every run | the temporary names are distinct (`WholeIffNamesDistinct`) | any two processes with one name (`SharedNameTruncatesOutput`) |

Two checks of the code turn out never to decide anything: the search for failed entries in a receipt whose
result lists were accepted (`AcceptedReceiptHasNoFailure`), and the classification of residual changes as
separate UI work (`SeparatePathsFromBaseline`). A worker that claims an empty file name ends early, which
could leave files out (`EveryNamedFilePlanned` says when), but the search for test files never gives an
empty name, so every file is run exactly once (`EveryFileRunsOnce`).

## Model

| member | source | states |
|---|---|---|
| StrictJsonParser.DuplicateKeyJsonParser.constructor | scripts/project-intelligence-value-pilot-validation.ts:228-231 | a new parser stands at the beginning of its text |
| StrictJsonParser.DuplicateKeyJsonParser.AssertDocument | scripts/project-intelligence-value-pilot-validation.ts:233-239 | passes exactly on the texts that the recogniser accepts and fails with the recogniser's error |
| StrictJsonParser.DuplicateKeyJsonParser.Value | scripts/project-intelligence-value-pilot-validation.ts:241-273 | skips white space and consumes one value, leaving exactly the recogniser's remainder; `index` grows on success |
| StrictJsonParser.DuplicateKeyJsonParser.Object | scripts/project-intelligence-value-pilot-validation.ts:275-304 | consumes one object with pairwise different decoded keys, or gives the error of the first thing wrong, a repeated key included |
| StrictJsonParser.DuplicateKeyJsonParser.Array | scripts/project-intelligence-value-pilot-validation.ts:306-324 | consumes one array, or gives the error of the first thing wrong in it |
| StrictJsonParser.DuplicateKeyJsonParser.ScanToQuote | scripts/project-intelligence-value-pilot-validation.ts:329-347 | the loop stops at the first quote that no backslash hides, at a control character, or at the end, and `index` then stands behind the quote |
| StrictJsonParser.DuplicateKeyJsonParser.String | scripts/project-intelligence-value-pilot-validation.ts:326-348 | consumes one string and returns its decoded text; `index` never passes the end on success |
| StrictJsonParser.DuplicateKeyJsonParser.Number | scripts/project-intelligence-value-pilot-validation.ts:350-356 | consumes the longest numeral, and at least one character |
| StrictJsonParser.DuplicateKeyJsonParser.SkipWhitespace | scripts/project-intelligence-value-pilot-validation.ts:358-360 | moves past exactly the leading white space, never past the end |
| StrictJsonParser.StringEnds | scripts/project-intelligence-value-pilot-validation.ts:326-348 | the scan by position finds the closing quote, and the string is what lies between the quotes, decoded |
| StrictJsonParser.StringFails | scripts/project-intelligence-value-pilot-validation.ts:343-347 | an error of the scan by position is the outcome of reading the string |
| JsonRecognizer.SpaceSound | scripts/project-intelligence-value-pilot-validation.ts:358-360 | what is skipped is white space and what is left does not start with any |
| JsonRecognizer.NumberSound | scripts/project-intelligence-value-pilot-validation.ts:350-356 | a number that is read is a numeral of the grammar and is exactly the text consumed |
| JsonRecognizer.StringSound | scripts/project-intelligence-value-pilot-validation.ts:326-348 | a string that is read is a string of the grammar and is exactly the text consumed |
| JsonLanguage.NoDuplicateMeansDistinct | scripts/project-intelligence-value-pilot-validation.ts:278-289 | the check with a set of seen keys finds nothing exactly when no object at any depth repeats a decoded key |
| JsonLanguage.NodeSound | scripts/project-intelligence-value-pilot-validation.ts:241-273 | a value that is accepted derives from the grammar, spells exactly the text consumed and repeats no key |
| JsonLanguage.NodeComplete | scripts/project-intelligence-value-pilot-validation.ts:241-273 | every spelled value is read back as its tree, or refused for its first repeated key and nothing else |
| JsonLanguage.MembersSound | scripts/project-intelligence-value-pilot-validation.ts:283-303 | members that are accepted derive from the grammar, spell the text consumed and have fresh distinct keys |
| JsonLanguage.MembersComplete | scripts/project-intelligence-value-pilot-validation.ts:283-303 | spelled members are read back, or refused for the first key already seen |
| JsonLanguage.NumberComplete | scripts/project-intelligence-value-pilot-validation.ts:350-356 | every numeral is read whole when nothing that could continue it follows |
| JsonLanguage.StringComplete | scripts/project-intelligence-value-pilot-validation.ts:326-348 | every string of the grammar is read whole, whatever follows |
| JsonLanguage.GrammaticalTextAnswer | scripts/project-intelligence-value-pilot-validation.ts:233-239 | a text of the grammar is accepted with its tree, or refused with the first repeated key as the error |
| JsonLanguage.AcceptsExactlyTheLanguage | scripts/project-intelligence-value-pilot-validation.ts:228-361 | a text is accepted if and only if it derives from the grammar and no object at any depth has two members with equal decoded keys |
| JsonLanguage.DerivationUnique | scripts/project-intelligence-value-pilot-validation.ts:228-361 | an accepted text has exactly one derivation, the tree that is read |
| StrictJson.RunParseStrictJson | scripts/project-intelligence-value-pilot-contract.ts:79-83 | checking with the parser object and then calling JSON.parse, a parameter described by the grammar, returns v exactly when the check passes and JSON.parse gives v, and otherwise the error of the step that fails |
| StrictJson.FirstAndLastWinsAgree | scripts/project-intelligence-value-pilot-contract.ts:78-83 | on a text without repeated keys, keeping the first and keeping the last member of a name decode alike, and every member survives |
| StrictJson.StrictParseExact | scripts/project-intelligence-value-pilot-contract.ts:78-83 | the result is v if and only if the text derives from RFC 8259 with distinct keys and decodes to v under either rule; every other text is refused |
| StrictJson.StrictParseAgreesWithJsonParse | scripts/project-intelligence-value-pilot-contract.ts:79-83 | whatever passes is what JSON.parse, and only it, gives for the text |
| JsonValues.MemberMeaning | scripts/scanner-e2e-case-registry.ts:23-30 | in an object with distinct keys each entry is a member with its own value |
| CanonicalJson.QuoteDecodes | scripts/scanner-e2e-case-registry.ts:23-30 | a string as JSON.stringify prints it decodes to that string, lone surrogates included |
| CanonicalJson.CanonicalIsSpelling | scripts/scanner-e2e-case-registry.ts:23-30 | the printed text is the spelling of the tree of the value with its keys sorted at every depth |
| JsonValues.PropertyTies | scripts/scanner-e2e-case-registry.ts:23-30 | in the order in which JavaScript keeps properties only keys that are no array indices can stand either way |
| Sorting.SortStable | scripts/scanner-e2e-case-registry.ts:23-30 | the sort is stable: entries whose keys tie stay in property order |
| JsonRoundTrip.CanonicalRoundTrip | scripts/scanner-e2e-case-registry.ts:23-30 | strictly parsing the printed text succeeds and gives a value that means the same, with its properties in JavaScript's order |
| JsonRoundTrip.TextEqualityImpliesMeaning | scripts/check-scanner-hardening-closeout-scope.ts:435-446 | equal texts mean equal values, for every comparator |
| JsonRoundTrip.SameMeaningArrangeAlike | scripts/check-scanner-hardening-closeout-scope.ts:435-446 | values equal up to key order sort to the same value when no two keys tie, array indices apart |
| JsonRoundTrip.TiedKeysPrintDifferently | scripts/scanner-e2e-case-registry.ts:23-30 | two different keys that compare as equal, and are no array indices, give one value two texts |
| JsonRoundTrip.TextEqualityDecidesIffNoTies | scripts/verify-scanner-hardening-closeout.ts:403 | comparing canonical texts decides equality up to key order exactly when the comparator has no ties among the keys in use that are no array indices |
| CommandCapture.StepKeeps | scripts/scanner-hardening-closeout.ts:416-487 | every event keeps the invariants about the budget, termination, reads in progress and the result |
| CommandCapture.RunKeeps | scripts/scanner-hardening-closeout.ts:416-487 | the invariants hold after every possible sequence of events |
| CommandCapture.FirstReasonWins | scripts/scanner-hardening-closeout.ts:420-427 | a termination reason, once set, is the reason of every later state of the run |
| CommandCapture.ForwardingStaysWithinBudget | scripts/scanner-hardening-closeout.ts:432-454 | what is forwarded of each stream is a prefix of it, the sum stays within the limit, and it equals the sum of the offsets or the full budget with a reason set |
| CommandCapture.CommandEndedOnlyForAReason | scripts/scanner-hardening-closeout.ts:420-427 | no signal without a reason, SIGKILL only after SIGTERM, and the output limit only when more was written than allowed |
| CommandCapture.UndisturbedCaptureIsComplete | scripts/scanner-hardening-closeout.ts:480-521 | without a reason or spawn error the record has the child's exit code and both streams whole; they equal what was forwarded when nothing is written after the child ended |
| CommandCapture.TerminatedCaptureFits | scripts/scanner-hardening-closeout.ts:486-511 | with a reason the exit code is 124 or 125 accordingly, the log ends with its diagnostic, fits the limit, and is cut only where the limit is reached |
| CommandCapture.CaptureTooLongExactly | scripts/scanner-hardening-closeout.ts:489-506 | in every run the captured total passes the limit exactly when no reason was set and a spawn failure has a message that does so with the 41 bytes around it |
| CommandCapture.LongSpawnMessagePassesLimit | scripts/scanner-hardening-closeout.ts:465-468 | for every limit, a run whose spawn error has a message of that length less 40 records more than the limit |
| CommandCapture.ResultIsReachable | scripts/scanner-hardening-closeout.ts:464-485 | once the child has ended, reads alone lead to a record: no run is stuck |
| CommandCapture.FlushesEnd | scripts/scanner-hardening-closeout.ts:474-485 | from completion on every run takes at most the flush and read events that were owed then |
| LcovText.ParseLcov | scripts/repository-coverage-measurement.ts:17-40 | the map built in place is the one that the records of the text measure |
| LcovText.PrintThenParse | scripts/repository-coverage-measurement.ts:19-31 | what is read from a printed lcov file is what its records measure, with any other lines between them |
| Coverage.LcovIsMaximum | scripts/repository-coverage-measurement.ts:32-37 | the map has exactly the files of the records with a source and lines, each with the largest number of hit lines and of lines that one of its records has |
| Coverage.MergeInto | scripts/repository-coverage-measurement.ts:115-121 | the merge loop computes the pointwise maximum of two maps, also for the final merge |
| Coverage.LcovWithinTotals | scripts/repository-coverage-measurement.ts:29-37 | no file has more hit lines than lines |
| Coverage.MergeWithinTotals | scripts/repository-coverage-measurement.ts:162-171 | merging keeps hits within totals |
| Coverage.TotalsWithin | scripts/repository-coverage-measurement.ts:187-192 | the summed hits are at most the summed lines |
| Coverage.PercentInRange | scripts/repository-coverage-measurement.ts:187-203 | the observed percentage lies between 0 and 100 |
| WorkerPool.StepKept | scripts/repository-coverage-measurement.ts:69-122 | every step of every worker keeps the pool's invariant |
| WorkerPool.EachTestClaimedOnce | scripts/run-api-test-shards.ts:26-57 | at every moment of every schedule each test was started at most once, and is finished or in progress in exactly one worker |
| Coverage.MaximumUnique | scripts/repository-coverage-measurement.ts:115-121 | the same maps in any order and with any repetitions have one maximum |
| WorkerPool.MeasurementsMembers | scripts/repository-coverage-measurement.ts:106-114 | the maps that are merged are those of the tests that passed |
| WorkerPool.MergedIsPointwiseMax | scripts/repository-coverage-measurement.ts:115-121 | the merged map is the maximum of those maps, attained by them in every count |
| WorkerPool.MergedPermutes | scripts/repository-coverage-measurement.ts:115-121 | the merged map depends on the finished tests, not on their order |
| WorkerPool.FailuresPermute | scripts/run-api-test-shards.ts:54-55 | the failures depend on the finished tests, not on their order |
| WorkerPool.PoolOutcome | scripts/repository-coverage-measurement.ts:63-130 | once all workers have returned, every planned test has run once, the failures are a permutation of the failing ones and the map is the pointwise maximum, the same for every schedule |
| WorkerPool.EveryFileRunsOnce | scripts/run-api-test-shards.ts:23-61 | when every file has a name and all workers have returned, every file has run exactly once, the failures are a permutation of the failing files and the map is the maximum over the others |
| WorkerPool.EveryNamedFilePlanned | scripts/run-api-test-shards.ts:28-30 | with empty names, which the search for test files never gives: every named file is run exactly when fewer empty names than workers stand before each |
| WorkerPool.WorkerCountIrrelevant | scripts/run-api-test-shards.ts:59-61 | with fewer empty names than workers the outcome does not depend on the number of workers |
| WorkerPool.ReportedPercentInRange | scripts/repository-coverage-measurement.ts:147-203 | for every schedule the reported percentage lies between 0 and 100 |
| WorkerPool.StepDecreases | scripts/run-api-test-shards.ts:26-57 | every step uses up a measure, so every schedule ends |
| WorkerPool.RunPool | scripts/repository-coverage-measurement.ts:59-130 | the pool under an arbitrary scheduler ends with the one outcome |
| PilotStatistics.MedianPermutes | scripts/project-intelligence-value-pilot-validation.ts:44-51 | the median depends on the multiset of values only |
| PilotStatistics.MedianSplitsInHalf | scripts/project-intelligence-value-pilot-validation.ts:44-51 | at least half of the values lie on each side of the median |
| PilotStatistics.ReductionReaches | scripts/project-intelligence-value-pilot-validation.ts:53-56 | a reduction reaches a threshold exactly by comparing the two medians without division |
| ValuePilot.AggregateCoherent | scripts/project-intelligence-value-pilot-contract.ts:828-894 | there are sixteen hard and five value gates, and the hard gates all pass exactly when the evidence is complete and there is no incident |
| ValuePilot.GoExactly | scripts/project-intelligence-value-pilot-contract.ts:41-72 | GO exactly when there is no incident and all sixteen hard and five value gates pass, and exactly when there are no reason codes |
| ValuePilot.InsufficientNamesAHardGate | scripts/project-intelligence-value-pilot-contract.ts:59-64 | INSUFFICIENT_EVIDENCE always carries a code, its codes are the failed hard gates, and the value gates do not matter |
| ValuePilot.NoGoNamesItsCause | scripts/project-intelligence-value-pilot-contract.ts:45-71 | a NO-GO carries the incidents as its codes or, without any, exactly its failed value gates |
| ValuePilot.ZeroRegressionsSuffice | scripts/project-intelligence-value-pilot-contract.ts:798-866 | zero regressions imply at least as many completions and verifications, so the first half of either gate is redundant |
| ValuePilot.VerdictPermutes | scripts/project-intelligence-value-pilot-contract.ts:753-915 | decision and reason codes are the same for every order of the attempts |
| ValuePilot.SafetyFailureForcesNoGo | scripts/project-intelligence-value-pilot-contract.ts:760-762 | one safety failure anywhere gives NO-GO with its code, whatever the other attempts are |
| ValuePilot.CodesSorted | scripts/project-intelligence-value-pilot-validation.ts:58-63 | failed gate codes come in ascending order |
| ValuePilot.CodesMembers | scripts/project-intelligence-value-pilot-validation.ts:58-63 | the codes are exactly the names of the failed gates |
| ValuePilot.VerdictCodesSafe | scripts/project-intelligence-value-pilot-validation.ts:162-173 | every code of a verdict passes the check that raw codes must pass |
| ValuePilot.RecheckExactly | scripts/project-intelligence-value-pilot-contract.ts:317-331 | raw codes pass the recheck exactly when they are the recomputed ones in any order and not both kinds of incident occurred |
| ValuePilot.BothIncidentsRefuseEveryReport | scripts/project-intelligence-value-pilot-contract.ts:49-57 | two attempts with both kinds of incident: the codes are the two incidents, and no list of codes passes the recheck |
| Closeout.ExactIdsExactly | scripts/verify-scanner-hardening-closeout.ts:367-379 | the three checks together accept exactly the expected list, and only if it has no duplicates |
| Closeout.AcceptedResults | scripts/verify-scanner-hardening-closeout.ts:311-365 | the accepted result lists: exactly one for contracts with distinct ids and providers, none for others |
| Closeout.VerifierAcceptsProducer | scripts/scanner-hardening-closeout.ts:761-781 | the verifier accepts what the producer writes, and nothing else, exactly when ids and providers are distinct and superseded contracts occur only where allowed |
| CloseoutReceipt.AcceptedCommands | scripts/verify-scanner-hardening-closeout.ts:105-127 | the command checks accept exactly the expected ids, distinct and in order, each with its arguments and exit code 0 |
| CloseoutReceipt.AcceptedReceiptHasNoFailure | scripts/verify-scanner-hardening-closeout.ts:235-274 | accepted result lists hold no failed entry, and no blocked one when CI has passed |
| CloseoutReceipt.PromotableReceiptIsClean | scripts/verify-scanner-hardening-closeout.ts:259-289 | a receipt reported promotable has no blocked or failed entry, supersedes only remediation cases, and has clean commands, CI, cleanup and verdict |
| CloseoutReceipt.BlockedReceiptIsAllowed | scripts/verify-scanner-hardening-closeout.ts:275-289 | a receipt accepted without being promotable is blocked by its own verdict and was explicitly allowed |
| CloseoutReceipt.ProducedReceiptVerifies | scripts/scanner-hardening-closeout.ts:276-364 | what the producer writes verifies exactly when the evidence is in order, ids and providers of the contracts are distinct, only remediation cases are superseded, and there was a CI receipt or blocked receipts are allowed; it is promotable exactly with the CI receipt |
| Segments.SegmentPrefix | scripts/check-scanner-hardening-closeout-scope.ts:79-86 | the segments of p begin those of c exactly when c is p or continues it after a slash |
| Segments.SplitTerminated | scripts/check-scanner-hardening-closeout-scope.ts:35-36 | splitting NUL-terminated fields gives the fields and one empty field |
| GitChanges.ParseGitNameStatusZ | scripts/check-scanner-hardening-closeout-scope.ts:34-77 | the index loop computes the specified parse, errors included |
| GitChanges.NormalizeClean | scripts/check-scanner-hardening-closeout-scope.ts:296-305 | a path is left as it is exactly when it has no backslash and no empty or parent segment |
| GitChanges.PrintThenParse | scripts/check-scanner-hardening-closeout-scope.ts:34-77 | printing then parsing is the identity on every list of clean changes |
| GitChanges.ParsedChangesAreClean | scripts/check-scanner-hardening-closeout-scope.ts:34-77 | whatever git prints, parsed changes have clean paths, and printing them loses nothing |
| GitStatus.ParseGitStatusPorcelain | scripts/phase-54-baseline-lib.ts:82-109 | the index loop computes the specified parse, errors included |
| GitStatus.PrintThenParse | scripts/phase-54-baseline-lib.ts:82-109 | for every printed status the parser returns exactly the ascending duplicate-free list of all target and source paths |
| GitStatus.ParsedStatusIsSafe | scripts/phase-54-baseline-lib.ts:162-179 | no output makes the parser return an unsafe path |
| ScopeCheck.PatternMatchesSegments | scripts/check-scanner-hardening-closeout-scope.ts:79-86 | a `p/**` pattern matches exactly the paths whose segments begin with those of p, any other pattern only itself |
| ScopeCheck.UnknownPathsEmpty | scripts/check-scanner-hardening-closeout-scope.ts:176-187 | no unknown path means that every change is generated, or allowed and not excluded |
| ScopeCheck.OkExactly | scripts/check-scanner-hardening-closeout-scope.ts:171-257 | for whatever inventory key function: the report is ok exactly when the baseline keys agree, every residual change is generated or allowed and not excluded, nothing required is missing and the checkout is clean or dirt is allowed |
| ScopeCheck.ResidualPathsDigested | scripts/check-scanner-hardening-closeout-scope.ts:196-276 | every path of every residual change of an ok report is in the digested list of its classification: the generated one when all its paths are generated, otherwise the scanner's |
| ScopeCheck.SeparatePathsFromBaseline | scripts/check-scanner-hardening-closeout-scope.ts:201-205 | residual changes never count as separate UI work |
| ScopeCheck.KeyEqualityExactly | scripts/check-scanner-hardening-closeout-scope.ts:290-294 | two changes have one key exactly when they are equal or are renames of one similarity whose paths, joined by a colon, are the same text |
| ScopeCheck.KeyIdentifiesExactly | scripts/check-scanner-hardening-closeout-scope.ts:290-294 | a key identifies its change exactly when the change is no rename with a colon in a path |
| ScopeCheck.CleanKeyIdentifiesExactly | scripts/check-scanner-hardening-closeout-scope.ts:290-305 | among changes with clean paths a key identifies its change exactly when the joined paths cannot be cut at another colon into clean ones |
| ScopeCheck.RenameKeysCanCollide | scripts/check-scanner-hardening-closeout-scope.ts:290-294 | two different clean renames with one key |
| Sorting.SortedSetCharacterized | scripts/check-scanner-hardening-closeout-scope.ts:275 | `[...new Set(list)].sort()` is the one ascending duplicate-free list with the members of the list |
| ShellQuoting.ReadQuoted | shared/format-command.ts:5-8 | a quoted token is read by the shell as one word, the token |
| ShellQuoting.FormatThenSplit | shared/format-command.ts:1-8 | shell word splitting of a formatted command line gives exactly its tokens, empty ones and ones with quotes or newlines included |
| ShellQuoting.FormatInjective | shared/format-command.ts:1-3 | different token lists are never shown as the same line |
| BoundedRead.ReadBoundedDiagnostic | scripts/process-diagnostics.ts:7-48 | the text decodes the first min(total, maxBytes) bytes of the stream, truncated says whether there were more, and bytesRead is what came up to the first read past the limit |
| BoundedRead.Combine | scripts/process-diagnostics.ts:37-42 | the copy loop fills the buffer with the chunks in order |
| BoundedRead.StoppingLosesNothing | scripts/process-diagnostics.ts:29-32 | stopping after the first read past the limit changes neither the kept bytes nor the flag |
| BoundedRead.ChunkingIrrelevant | scripts/process-diagnostics.ts:17-33 | two ways of cutting the same bytes into reads give the same text and flag |
| BoundedRead.ReadsAtMostOneChunkTooMany | scripts/process-diagnostics.ts:29-32 | everything before the last read was within the limit |
| HeadingIds.NextFree | scripts/generate-pages-plan-archive.ts:170-173 | the do-while ends at the least generated id that is not used, after no more tries than used ids allow |
| HeadingIds.EnsureId | scripts/generate-pages-plan-archive.ts:167-177 | one heading gets the id it must have, and the shared set and counter stay in step |
| HeadingIds.EnsureHeadingIds | scripts/generate-pages-plan-archive.ts:160-178 | changes the attributes in place to the specified assignment, with a counter at most one more than the number of headings |
| HeadingIds.TakenNumbersBounded | scripts/generate-pages-plan-archive.ts:170-173 | when the first n generated ids are used at least n ids are, so the loop ends |
| HeadingIds.AssignedDistinct | scripts/generate-pages-plan-archive.ts:160-178 | in the end all trimmed ids are non-empty and pairwise different |
| HeadingIds.AssignedUnique | scripts/generate-pages-plan-archive.ts:160-178 | the headings before decide the ids after |
| HeadingIds.AssignedAgain | scripts/generate-pages-plan-archive.ts:160-178 | a second run changes nothing |
| HeadingSurvival.TakenIsClaimed | scripts/generate-pages-plan-archive.ts:165-177 | as long as no heading asks for the n-th generated id, as many of the first n are used as earlier headings claim, up to n |
| HeadingSurvival.KeptExactly | scripts/generate-pages-plan-archive.ts:165-177 | the headings that keep their attribute, told from the headings before the run alone: those with an id that no earlier heading has and that is not the n-th generated one with n earlier headings that take the first n |
| HeadingSurvival.FirstOfItsKindKept | scripts/generate-pages-plan-archive.ts:165-177 | the first heading with an id loses it exactly when it is the n-th generated id and n earlier headings take the first n |
| HeadingIds.GeneratedLookalikeLost | scripts/generate-pages-plan-archive.ts:170-174 | an explicit id `archive-section-1` is replaced when a heading before it has none |
| Sealing.StepKeeps | scripts/seal-project-intelligence-value-pilot-registration.ts:78-99 | every call of every process, failing or not, keeps the invariant about names and files |
| Sealing.OutputNeverChanges | scripts/seal-project-intelligence-value-pilot-registration.ts:86-95 | once there is an output, every later reader finds the same |
| Sealing.SharedNameTruncatesOutput | scripts/seal-project-intelligence-value-pilot-registration.ts:80-82 | with one temporary name for two processes there is a run in which the output holds the data of one and is empty after the next event, the other opening its file |
| Sealing.WholeIffNamesDistinct | scripts/seal-project-intelligence-value-pilot-registration.ts:78-99 | in every run the output is what it was or one process's complete data, exactly when the temporary names are distinct |
| Sealing.AtMostOneSealed | scripts/seal-project-intelligence-value-pilot-registration.ts:86-95 | at most one process seals, only if there was no output, and the output is then its data; whoever is refused finds an output |
| Sealing.NothingLeftBehind | scripts/seal-project-intelligence-value-pilot-registration.ts:96-98 | when all have finished and no unlink failed, the directory is as before, with the output if someone sealed |
| Sealing.SomebodySeals | scripts/seal-project-intelligence-value-pilot-registration.ts:86-95 | if nothing went wrong and there was no output, somebody sealed |
| Sealing.RunsAreBounded | scripts/seal-project-intelligence-value-pilot-registration.ts:78-99 | no run is longer than the steps its processes have left |

## Left out

- JSON numbers are their numerals: `1.0` and `1` are different values, and JavaScript's conversion to and
  printing of binary floating point is not modelled. Printing is modelled for values whose numbers are
  numerals of the grammar.
- `canonicalJson` of `undefined` and of values that JSON cannot express.
- `JSON.parse` is described by the grammar of RFC 8259 and the last-member-wins rule; its own code is
  not modelled. `localeCompare` is a parameter, assumed to be a total preorder.
- Outside the JSON modules text is a sequence of Unicode characters and sorts by code point; default
  JavaScript sorting compares UTF-16 code units, which differs only beyond the basic plane.
- Command capture: the diagnostic also written to the terminal, read errors other than a missing file,
  a process without an exit code, and the creation and removal of the temporary directory.
- `runScannerHardeningCloseout` beyond the written receipt: process and container inspection, cleanup,
  `newEntries`, and the digests of evidence; the verifier's file, digest, scope and CI checks are one
  parameter, and so are the expected arguments of each command.
- Worker pools: what a test process prints, timeouts of a test, and rejections of spawn, mkdir or
  readFile inside a worker.
- The two regular expressions of `parseLcov` are given line by line, counts are unbounded integers, and
  `path.relative` is a parameter.
- Medians, reductions and the percentage are exact reals: rounding is not modelled.
- The value pilot's schedule, schema and sanitising checks; the equality of the raw decision with the
  recomputed one, which is one comparison.
- Ten comparable attempts are ten list entries: nothing here says that they are ten different tasks.
- Scope check: git itself, the schema of the contract, and the patch digests, which are not computed;
  the inventory key function is not part of this model and stands as a parameter.
- Shell splitting covers command lines made of words; a character with another meaning to the shell,
  unquoted, is reported as not plain words.
- The UTF-8 decoder of the bounded read is a parameter; errors of the stream are not modelled.
- Headings are the sequence of their `id` attributes in document order; HTML is not modelled.
- Sealing: creating the directory beyond its failing, permissions, a crash of the machine, and the age of
  leftovers: no temporary name exists at the start.
- SHA-256 and every digest.
- Evidence binding of phases 50 to 55, bundle and size audits, case registries, documentation and image
  generation: conjunctions of equalities and fixed tables.
