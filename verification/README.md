# Verified models of the bead viewer's decision logic

This project models, in Dafny, the parts of the bead viewer that decide something on behalf of the
user, and proves what they decide.

* **The what-if engine** (`bv-graph-wasm`). Issues form a directed graph in which an edge `u -> v` says
  that `u` depends on `v`; graphs may have cycles and self-loops. `Graph.dfy` is the mutable graph object,
  `Snapshot.dfy` its export and import, `Reachability.dfy` the breadth-first searches.
  `Unblocking.dfy` gives the meaning of "closing these issues unblocks those" as a least set, and
  `WhatIf.dfy` proves that the worklist computes it. `Deadlock.dfy` says which issues can never be
  completed, and `Ranking.dfy` covers the two rankings built on top.
* **Suggestions and quoting** (`cmd/bv/main.go`). `EditDistance.dfy` proves the two-row dynamic program
  against edit scripts, `Suggestions.dfy` the "did you mean" search, `ShellWords.dfy` the shell printer
  against a reader that follows the POSIX quoting rules.
* **The watched export** (`cmd/bv/main.go`, `pkg/analysis/cache.go`). `Fingerprints.dfy` has the two hashes by
  which the loop recognises unchanged content, `WatchLoop.dfy` the loop's state as a class and the protocol
  between file watchers, change channel, settle timer, export and the pages on disk as a state machine.
* **Choosing a data source** (`internal/datasource`, `cmd/bv/main.go`). `Sources.dfy` is the preference order
  and the selection, `Loading.dfy` the validation gate and the fallback over rejected sources,
  `Authority.dfy` the verdict on whether claims are safe.
* **The ideal burndown line** (`cmd/bv/main.go`). `Burndown.dfy`.

`Sequences.dfy`, `Sorting.dfy` and `Texts.dfy` hold shared facts. Operations that work step by step are
methods, with the source's own loops, proved equal to a specification function; what the source promises
is then proved of that function. For instance `WhatIf.WhatIfClose` and `WhatIf.WhatIfCloseBatch` both return
`Outcome` of the nodes they close, so a batch of one node gives the very result of closing that node alone,
and `Answers`, which both methods also ensure, says what the result means without mentioning the worklist.

Some expectations turned out to be false of the code. Each comes with the inputs that show it and with the
exact condition under which it holds:

* The suggestion search can depend on the order of the candidates, because its tie-break compares a normalized
  name with one that is folded but not trimmed, and leaves equal names to the order. All rearrangements give
  the same answer if and only if no candidate is usable, or one of the closest wins the tie-break against every
  other and loses it against none (`OrderIsIrrelevantIff`; `Settled` is the condition). At the folding and
  trimming of ASCII text, the value `b` with the candidates `A` and `a` breaks it (`LetterCaseBreaksTies`),
  and so does the value `c` with the candidates ` b` and `a` (`BlanksBreakTies`). No caller passes such a list:
  all of them (`cmd/bv/main.go` lines 344, 1217, 1284 and 8222, `robot_registry.go` line 780) pass distinct
  built-in names in lower case without blanks, and those always meet the condition (`NormalFormSettles`).
* The comment on `generateIdealLineScoped` says that events outside the sprint leave the identical line. For a
  sprint with dates and at least one day this holds if and only if there is an issue or there are no events at
  all: with outside events and no issue the plain line is empty and the scope-aware one is not
  (`LinesAgreeIff`). A sprint that ends between one and two days before it starts counts zero days. There the
  plain line of one issue or more has a single point, whose value depends on how the machine turns "not a number"
  into an integer, and the scope-aware line has none. Validation refuses such a sprint (`pkg/model/types.go`
  line 517).
* One might expect the pages to show the current files once the watched export is at rest and every change has
  been notified. What holds (`QuiescentIsCurrent`): where no failed export has written to the site since the last
  success, the pages are current if and only if the last round ended without an error; and after a round without
  an error they are current if and only if no failed export has. `PagesAtRest` is the full account, by how the
  last round ended. Two runs show the failures. A failed export is not retried, and leaves current pages only if
  it failed in the hook after everything was written (`FailedExportIsNotRetried`). And an export that fails after
  writing leaves its pages until another change when the files go back to what the loop remembers, because the next
  round skips without an error (`SkipKeepsFailedPages`). Pages and files are compared by the two hashes they were
  made from.
* The comment on `issuesFingerprint` says that it changes whenever anything the site renders changes. Up to hash
  collisions that holds unless an id contains a zero byte (`FingerprintTellsChange`), which validation lets
  through (`pkg/model/types.go` lines 266-269) and which can give two issues the fingerprint of one
  (`ZeroByteConfusesFingerprint`). This is about that function alone: the loop also compares the hash of the
  source authority, which holds a data hash of every source with length-prefixed fields. Up to collisions, equal
  authority hashes mean that the same issues were loaded, whatever bytes they hold (`AuthorityTellsLoads`).
* The gate on a JSONL file is there so that a file without issues is not taken for an empty project. When such
  a file is all there is, the tolerant load that follows does take it for one, and claims are then safe: exactly
  when the file was read without errors and holds only records of other kinds (`RejectedYetClaimSafe`).

## Model

| member | source | states |
|---|---|---|
| Graphs.DiGraph.constructor | bv-graph-wasm/src/graph.rs:40-48 | a new graph is the empty value and satisfies the invariant |
| Graphs.DiGraph.AddNode | bv-graph-wasm/src/graph.rs:65-75 | returns the index under which the id is now stored, the old index for a known id; the whole new state |
| Graphs.DiGraph.AddEdge | bv-graph-wasm/src/graph.rs:80-94 | the whole new state, for out-of-range and repeated edges too |
| Graphs.AddNodeKeeps | bv-graph-wasm/src/graph.rs:65-75 | adding a node keeps every index and every edge, and the invariant: index and id list are inverse, forward and reverse lists are transposes without repeats, the counter is the sum of out-degrees and of in-degrees |
| Graphs.AddEdgeKeeps | bv-graph-wasm/src/graph.rs:80-94 | the edge set grows by exactly the given edge if it is in range, and the invariant is kept |
| Graphs.Build | bv-graph-wasm/src/graph.rs:65-94 | every graph that any sequence of adds produces satisfies the invariant |
| Snapshots.EdgesVec | bv-graph-wasm/src/graph.rs:681-691 | the exported edges are the forward lists, node by node |
| Snapshots.ToSnapshot | bv-graph-wasm/src/graph.rs:165-171 | the snapshot is the id list and those edges |
| Snapshots.FromSnapshot | bv-graph-wasm/src/graph.rs:175-187 | importing any snapshot, malformed ones included, replays its adds and gives a valid graph |
| Snapshots.RoundTripRebuilds | bv-graph-wasm/src/graph.rs:165-187 | export then import keeps ids, index, forward lists and counter of every valid graph |
| Snapshots.RoundTripSortsReverse | bv-graph-wasm/src/graph.rs:165-187 | each rebuilt reverse list is an ascending permutation of the old one |
| Snapshots.RoundTripLossless | bv-graph-wasm/src/graph.rs:165-187 | the round trip is the identity if and only if all reverse lists were ascending |
| Snapshots.RoundTripTwice | bv-graph-wasm/src/graph.rs:165-187 | a second round trip changes nothing |
| Reachability.ReachableFrom | bv-graph-wasm/src/reachability.rs:11-35 | each node some walk leads to, once each, in nondecreasing shortest-walk length; empty for a missing source |
| Reachability.ReachableTo | bv-graph-wasm/src/reachability.rs:39-63 | each node that some walk leads from, once each, nearest first |
| Reachability.ReachesReversed | bv-graph-wasm/src/reachability.rs:11-63 | v is reachable from u if and only if u is reachable from v backwards |
| Reachability.SearchCorrect | bv-graph-wasm/src/reachability.rs:17-35 | the search order is distance order and complete |
| Unblocking.CascadeIsLeast | bv-graph-wasm/src/whatif.rs:96-148 | the cascade is the least set closed under "was blocked, and all prerequisites are closed or in the set" |
| Unblocking.CascadeJustified | bv-graph-wasm/src/whatif.rs:96-148 | a node is in the cascade if and only if that rule puts it there |
| Unblocking.NothingNewlyActionable | bv-graph-wasm/src/whatif.rs:96-148 | once the cascade is done, no node outside it is newly free of open prerequisites |
| Unblocking.CascadeMonotone | bv-graph-wasm/src/whatif.rs:250-299 | closing more completes more |
| Unblocking.CascadeTwoRounds | bv-graph-wasm/src/whatif.rs:250-299 | closing in two rounds, finishing the first cascade in between, completes exactly what closing at once completes |
| Unblocking.CascadeOfEdgeSet | bv-graph-wasm/src/whatif.rs:64-82 | cascades and first waves depend on the edge set only |
| Unblocking.CascadeIsLocal | bv-graph-wasm/src/whatif.rs:123-144 | each member walks, through members only, to something just closed |
| Unblocking.ScheduleInCascade | bv-graph-wasm/src/whatif.rs:96-148 | no order of completing newly unblocked nodes gets past the cascade |
| WhatIf.CascadeListCorrect | bv-graph-wasm/src/whatif.rs:100-148 | started from the first wave, the worklist's list has no repeats, begins with that wave, is a valid completion order and is exactly the cascade |
| WhatIf.PendingKept | bv-graph-wasm/src/whatif.rs:123-144 | the worklist invariant: whatever is unblocked but not listed has a prerequisite still queued |
| WhatIf.VisitKeepsSchedule | bv-graph-wasm/src/whatif.rs:127-143 | looking through the dependents of one node keeps the list a valid completion order |
| WhatIf.CountCascade | bv-graph-wasm/src/whatif.rs:100-148 | the queue, the marks and the closed buffer compute that list for any roots and mask: first the usable roots, then, in a valid completion order, exactly what closing them completes |
| WhatIf.DirectListComplete | bv-graph-wasm/src/whatif.rs:64-82 | looking at the dependents of the closed nodes finds every directly unblocked node |
| WhatIf.ActionableIsResolved | bv-graph-wasm/src/reachability.rs:79-84 | actionable under a mask of any length means no prerequisite outside the closed nodes |
| WhatIf.OutcomeAnswers | bv-graph-wasm/src/whatif.rs:48-94 | ids, counts and gain of a result are those of the least set, in a valid completion order |
| WhatIf.OutcomeSaturates | bv-graph-wasm/src/whatif.rs:96-148 | after closing the batch and its cascade nothing is actionable that was not before |
| WhatIf.NoImpact | bv-graph-wasm/src/whatif.rs:50-53 | closed and missing nodes have no impact |
| WhatIf.WhatIfClose | bv-graph-wasm/src/whatif.rs:48-94 | the result for one node, closed and missing ones included, answers the question and equals the batch of that node |
| WhatIf.WhatIfCloseBatch | bv-graph-wasm/src/whatif.rs:250-299 | the same for a batch, with repeats and missing nodes |
| WhatIf.BatchIsASet | bv-graph-wasm/src/whatif.rs:250-299 | order and repetition in a batch do not matter |
| WhatIf.BatchMonotone | bv-graph-wasm/src/whatif.rs:250-299 | a batch with its cascade is contained in a larger batch with its cascade |
| WhatIf.BatchInTwoRounds | bv-graph-wasm/src/whatif.rs:250-299 | two batches in a row complete what their union completes |
| WhatIf.OutcomeOfEdgeSet | bv-graph-wasm/src/whatif.rs:64-82 | graphs with the same edges give the same counts and sets, whatever the edge order |
| WhatIf.OutcomeIsLocal | bv-graph-wasm/src/whatif.rs:60-82 | every cascade member reaches a newly closed batch node through cascade members, and is not itself in the batch |
| Deadlock.ActionableBelow | bv-graph-wasm/src/reachability.rs:88-93 | the open nodes without open prerequisites, ascending |
| Deadlock.StuckIffWaitsOnOpenCycle | bv-graph-wasm/src/whatif.rs:250-299 | closing everything actionable leaves a node stuck if and only if it leads, through open nodes, to a cycle of open nodes |
| Deadlock.BatchCompletesAllButDeadlocked | bv-graph-wasm/src/whatif.rs:250-299 | the same for the engine's own lists |
| Deadlock.AcyclicCompletesAll | bv-graph-wasm/src/whatif.rs:250-299 | in an acyclic graph actionable nodes and cascade are all open nodes |
| Ranking.TopWhatIf | bv-graph-wasm/src/whatif.rs:170-205 | the truncated ranking of the eligible actionable nodes; in terms of least sets alone: larger cascades first, then larger first waves, then smaller indices, and of the eligible nodes only those that come after all kept ones are cut off |
| Ranking.AllWhatIf | bv-graph-wasm/src/whatif.rs:211-239 | the same for all open nodes |
| Ranking.RankingIsBest | bv-graph-wasm/src/whatif.rs:195-204 | every truncated ranking lists the best choices in that order |
| Ranking.LargerCascadeIsKept | bv-graph-wasm/src/whatif.rs:203-204 | an eligible node whose closing completes more than a kept one is kept |
| Ranking.RankedIsOrdered | bv-graph-wasm/src/whatif.rs:195-203 | a ranking is strictly ordered by cascade size, direct unblocks and index, and lists exactly the eligible nodes with a positive cascade |
| Ranking.TruncationKeepsBest | bv-graph-wasm/src/whatif.rs:203-204 | whatever the limit cuts off is worse than everything kept, and then exactly `limit` entries are kept |
| Ranking.ActionableRankingIsSubsequence | bv-graph-wasm/src/whatif.rs:170-239 | without mask and limit, the ranking of actionable nodes is the full ranking with the rest left out |
| Ranking.TopRankingOfEdgeSet | bv-graph-wasm/src/whatif.rs:195-203 | graphs with the same edges rank the same actionable nodes with the same counts in the same order |
| Ranking.RankingOfEdgeSet | bv-graph-wasm/src/whatif.rs:230-238 | the same for any other list of nodes |
| Ranking.RoundTripKeepsRanking | bv-graph-wasm/src/graph.rs:165-187 | exporting and importing a graph changes no ranking |
| EditDistance.LevenshteinDistance | cmd/bv/main.go:422-450 | the result is the least number of single-byte insertions, deletions and substitutions that turn a into b |
| EditDistance.FillRow | cmd/bv/main.go:437-448 | one row of the program holds the distances of one prefix of a from all prefixes of b |
| EditDistance.MinInt | cmd/bv/main.go:452-460 | the least of its arguments |
| EditDistance.DistanceIsShortest | cmd/bv/main.go:422-450 | some script has the computed length and none is shorter |
| EditDistance.EditLipschitz | cmd/bv/main.go:422-450 | one edit anywhere moves the distance by at most one |
| EditDistance.DistanceZero | cmd/bv/main.go:423-425 | zero exactly for equal texts |
| EditDistance.DistanceSymmetric | cmd/bv/main.go:422-450 | symmetric |
| EditDistance.DistanceTriangle | cmd/bv/main.go:422-450 | triangle inequality |
| EditDistance.DistanceBounds | cmd/bv/main.go:422-450 | at least the length difference, at most the longer length |
| Suggestions.SuggestClosest | cmd/bv/main.go:389-409 | the search computes the specified suggestion for all candidates and any case folding and trimming, near in the sense of the next row |
| Suggestions.SuggestionIsNear | cmd/bv/main.go:411-420 | in edit scripts: something is suggested exactly when a candidate is at most 2 edits away for up to 4 bytes, 3 for up to 10, 4 beyond; it is that near and none is nearer |
| Suggestions.ClosestLeads | cmd/bv/main.go:394-407 | whatever the candidates, the search has in hand a usable candidate of least distance, and none exactly when none is usable |
| Suggestions.SuggestionCorrect | cmd/bv/main.go:389-420 | for candidates whose folded name trimming does not change: empty exactly when none is within the threshold, else the first of those least by distance, then name |
| Suggestions.SameAnswerIffSettled | cmd/bv/main.go:397-407 | every list with the same members, or every permutation, gives the same answer if and only if none is usable or one leader wins every tie-break and loses none |
| Suggestions.OrderIsIrrelevantIff | cmd/bv/main.go:389-409 | the same for the suggestion itself |
| Suggestions.WinnerStays | cmd/bv/main.go:403-406 | a candidate that wins every tie-break and loses none is the answer wherever it stands |
| Suggestions.NormalFormSettles | cmd/bv/main.go:397-407 | candidates in normal form always meet the condition |
| Suggestions.SuggestionUnordered | cmd/bv/main.go:397-407 | so for them order and repetition do not matter |
| Suggestions.LetterCaseBreaksTies | cmd/bv/main.go:403-406 | ASCII names that differ in letter case only break the condition: an input and its two answers |
| Suggestions.BlanksBreakTies | cmd/bv/main.go:403-406 | so does an ASCII name with a leading blank |
| ShellWords.JoinCommandWords | cmd/bv/main.go:1247-1253 | the printed line reads back as exactly the given words |
| ShellWords.WordsOfCommandLine | cmd/bv/main.go:1247-1265 | reading by the POSIX quoting rules undoes printing, for all word lists |
| ShellWords.ReadQuotedWord | cmd/bv/main.go:1255-1265 | one quoted word reads back as that word, whatever follows it |
| ShellWords.CommandLineInjective | cmd/bv/main.go:1247-1265 | different word lists print differently |
| ShellWords.PrintedVerbatimIff | cmd/bv/main.go:1255-1263 | a word is left unquoted exactly when it is not empty and has letters, digits and -_=/.:, only |
| ShellWords.LineOfMoreWords | cmd/bv/main.go:1247-1253 | words are separated by one blank |
| Fingerprints.ComputeIssuesFingerprint | cmd/bv/main.go:1442-1455 | the hash of the sorted issue keys, each followed by a zero byte |
| Fingerprints.FingerprintUnordered | cmd/bv/main.go:1442-1455 | the same issues in another order have the same fingerprint |
| Fingerprints.FingerprintTellsChange | cmd/bv/main.go:1434-1455 | without zero bytes, and unless the hash collides on the two inputs at hand, two fingerprints are equal if and only if the issues are |
| Fingerprints.ZeroByteConfusesFingerprint | cmd/bv/main.go:1448-1453 | two issues and one issue with a zero byte in its id have the same fingerprint |
| Fingerprints.ComputeDataHash | pkg/analysis/cache.go:167-203 | computes the specified hash: "empty" for no issues, else the digest of the count and the length-prefixed records sorted by id |
| Fingerprints.DataInputInjective | pkg/analysis/cache.go:195-201 | the hashed bytes determine the sorted records, whatever bytes the records hold |
| Fingerprints.UvarintSplits | pkg/analysis/cache.go:513-518 | a length prefix is read back whatever follows it |
| Fingerprints.DataHashTellsIssues | pkg/analysis/cache.go:161-203 | unless the digest collides, data hashes are equal if and only if every id has the same records in the same order |
| Fingerprints.DataHashSeesZeroByte | pkg/analysis/cache.go:195-201 | the data hash tells the merged issue from the two that it replaces |
| Fingerprints.AuthorityTellsLoads | cmd/bv/main.go:7403-7412 | unless the digest collides, equal authority hashes mean the same issues loaded from every source |
| Fingerprints.SameLoadsSameAuthority | cmd/bv/main.go:7403-7412 | the same issues in another order leave the authority hash as it is |
| WatchLoop.Watcher.constructor | cmd/bv/main.go:3371-3394 | the loop starts with the initial export's hashes and an armed timer |
| WatchLoop.Watcher.ArmSettle | cmd/bv/main.go:3376-3390 | from every timer state, an expired and undrained one included, the timer runs again and is listened to |
| WatchLoop.Watcher.OnTick | cmd/bv/main.go:3402-3403 | taking the tick stops listening |
| WatchLoop.Watcher.OnReloaded | cmd/bv/main.go:3415-3420 | exports exactly when one of the two hashes changed, else resets the window |
| WatchLoop.Watcher.OnExported | cmd/bv/main.go:3426-3437 | remembers both hashes; the window is twice the cost, or the nearer of 500ms and 30s |
| WatchLoop.InvKept | cmd/bv/main.go:3396-3442 | the protocol invariant survives every step |
| WatchLoop.RunInv | cmd/bv/main.go:3396-3442 | the protocol invariant holds in every state of every run |
| WatchLoop.ExportsDiffer | cmd/bv/main.go:3415-3437 | consecutive successful exports differ in a hash and the settle window stays within 500ms and 30s |
| WatchLoop.WindowFollowsRounds | cmd/bv/main.go:3418-3437 | in every run a successful export makes the window twice its cost or the nearer of 500ms and 30s, a reload that finds nothing new brings it back to 500ms, and nothing else changes it |
| WatchLoop.NoLostWakeup | cmd/bv/main.go:3284-3312 | after a notification there is a token, an armed timer, or a reload begun later |
| WatchLoop.PendingMoves | cmd/bv/main.go:3396-3403 | while a notification is pending and no round is under way, a step that carries it forward is enabled |
| WatchLoop.ReloadWithinSteps | cmd/bv/main.go:3396-3403 | no stretch of a run without a new notification has more such steps than `StepsToReload` before a reload begins |
| WatchLoop.ChurnPutsOffReload | cmd/bv/main.go:3398-3401 | every run that waits can go on for any number of notifications, each re-arming the timer, without a reload |
| WatchLoop.PagesAtRest | cmd/bv/main.go:3396-3442 | at rest, with every change notified: the remembered hashes are current if and only if the last round ended without an error, and when the pages on disk are current, for each way in which the last round can end |
| WatchLoop.QuiescentIsCurrent | cmd/bv/main.go:3396-3442 | unless a failed export wrote to the site, the pages are current if and only if the last round ended without an error; after such a round, if and only if none wrote |
| WatchLoop.FailedExportIsNotRetried | cmd/bv/main.go:3422-3425 | a run that rests after a failed export: the remembered hashes are stale, and the pages too unless everything was written |
| WatchLoop.SkipKeepsFailedPages | cmd/bv/main.go:3416-3425 | a run whose last round ends without an error and that rests with the wrong pages on disk |
| Sources.PreferenceIsTotal | internal/datasource/select.go:64-89 | distinct paths are strictly and totally ordered |
| Sources.RankOfName | internal/datasource/select.go:91-103 | canonical file names rank in their listed order, all others last |
| Sources.BaseNameOfPath | internal/datasource/select.go:96-96 | the ranked name is the last path element |
| Sources.SortedByPreference | internal/datasource/select.go:64-89 | sorting is a permutation in strict preference order |
| Sources.SortedWhateverTheOrder | internal/datasource/select.go:64-89 | and does not depend on the given order |
| Sources.NewestModTime | internal/datasource/select.go:176-184 | computes the newest time as specified |
| Sources.NewestBounds | internal/datasource/select.go:176-184 | no source is newer, and it is the time of some source or the zero time |
| Sources.SelectBestSourceDetailed | internal/datasource/select.go:120-174 | computes the specified selection, with both error cases |
| Sources.SelectionOutcome | internal/datasource/select.go:122-140 | which error, by the number of valid sources |
| Sources.CandidatesAreRecent | internal/datasource/select.go:142-156 | the candidates are the valid sources, under an age limit the recent ones if there are any |
| Sources.CanonicalNameSelected | internal/datasource/select.go:85-103 | among files alike in time and priority, issues.jsonl goes before beads.jsonl, that before beads.base.jsonl, and that before any other name and kind |
| Sources.SelectionByPriority | internal/datasource/select.go:74-83 | when freshness does not come first, highest priority, then freshest |
| Sources.SelectionIsBest | internal/datasource/select.go:128-156 | the selected source is valid and preferred to every other valid one |
| Sources.SelectionIsBestAmongRecent | internal/datasource/select.go:142-156 | with an age limit, the same among the recent ones |
| Sources.DefaultSelectionIsFreshest | internal/datasource/select.go:34-41 | by default the freshest, then highest priority, then most canonical name, then least path |
| Sources.AgeLimitIsIdleWhenFreshestFirst | internal/datasource/select.go:142-156 | with freshness first, the age limit never changes the selection |
| Loading.LoadAndValidateJSONL | internal/datasource/load.go:416-460 | accepts exactly the acceptable files, keeps counts and the first ten warnings, hides tombstones, and splits the issue ids into visible ones and tombstones |
| Loading.GateIsExact | internal/datasource/load.go:428-446 | the gate passes a file read without error with at least nine valid lines per error and no record at all unless some issue is valid |
| Loading.LoadSmart | internal/datasource/load.go:350-379 | computes the specified fallback; when nothing loads, the last result with all rejections |
| Loading.LastTriedIsLeastPreferred | internal/datasource/load.go:357-378 | when nothing loads, the result is that of the source to which all others are preferred |
| Loading.SmartPicksFirstToLoad | internal/datasource/load.go:350-373 | the result is that of the most preferred source that loads, stale with reasons exactly when a preferred one was rejected |
| Loading.SmartLoadsIfAnyDoes | internal/datasource/load.go:350-379 | loading succeeds if and only if some source loads |
| Loading.SmartWhateverTheOrder | internal/datasource/load.go:350-355 | the order of discovery does not matter |
| Loading.SmartAgreesWithSelection | internal/datasource/load.go:350-355 | falling back while loading picks what validating everything first and selecting would pick |
| Loading.LoadLegacyJSONL | internal/datasource/load.go:190-209 | the tolerant load: visible issues and accounting of the file, whatever the gate says |
| Loading.LoadIssues | internal/datasource/load.go:171-182 | the fallback over sources, then the tolerant load, marked stale exactly when it reads another file than the one rejected last |
| Loading.RejectionsCount | internal/datasource/load.go:360-368 | one reason per rejected source, in order, ten at most |
| Authority.NewRobotSourceAuthority | cmd/bv/main.go:7292-7348 | claims are safe if and only if something loaded and every source that is not disabled loaded without errors, read errors or staleness; totals, state and readiness; the reports are a permutation in order of repository, name and path, and reports with the same key keep their order |
| Authority.SummedAddsUp | cmd/bv/main.go:7308-7324 | loaded, failed and disabled are the numbers of sources with that status; each other total is the sum of its own field over the sources that are not disabled |
| Authority.ClaimsByTotals | cmd/bv/main.go:7308-7345 | claims are safe if and only if the totals show a loaded source, no failed one and no errors of either kind, and nothing switched on is stale |
| Authority.ClaimSafeOnlyForFirstChoice | cmd/bv/main.go:7368-7381 | a single load permits claims if and only if the overall first choice loaded, without errors and read errors |
| Authority.AuthorityOfLoad | cmd/bv/main.go:3352-3355 | through loading with both fallbacks, reporting and judging: claims are safe if and only if the overall first choice loads cleanly, or no source loads and the tolerant load reads without errors the file of the least preferred source; the totals are those of the load |
| Authority.RejectedYetClaimSafe | internal/datasource/load.go:171-182 | a single rejected JSONL file permits claims all the same if and only if it was read without errors and holds only records of other kinds |
| Burndown.GenerateIdealLine | cmd/bv/main.go:6914-6937 | the plain line: one point a day, nothing for no issues or no dates, and a single point for a sprint of zero days |
| Burndown.ReplayEvents | cmd/bv/main.go:6819-6844 | per day, issues added less issues removed; the initial scope is the total less those added in the sprint plus those removed, clamped at zero |
| Burndown.GenerateIdealLineScoped | cmd/bv/main.go:6805-6881 | computes the specified line in all cases: one point per day, remaining never negative, remaining and completed adding up to the total |
| Burndown.IdealAtRoundsUp | cmd/bv/main.go:6853-6864 | each day is the exact straight line to zero at the end, rounded up |
| Burndown.NeverRisesBetweenChanges | cmd/bv/main.go:6853-6880 | the line never rises on a day without changes |
| Burndown.MovesByNetChange | cmd/bv/main.go:6866-6873 | on each day the line is where it would be without that day's changes, moved by them and clamped at zero |
| Burndown.LineStartsAtFirstScope | cmd/bv/main.go:6841-6864 | the first point is the total less the issues added later in the sprint plus those removed, clamped at zero |
| Burndown.LineFollowsScope | cmd/bv/main.go:6865-6880 | the drawn points do not rise on a day with no more issues added than removed, and the last is what that day added less what it removed, clamped at zero |
| Burndown.RiseNeedsAddition | cmd/bv/main.go:6825-6842 | a rise needs an issue added on that day |
| Burndown.PointPerDay | cmd/bv/main.go:6812-6813 | the number of points of either line, by the length of the sprint in days of 24 hours |
| Burndown.PointsOfNegativeSprint | cmd/bv/main.go:6812-6815 | the same for a sprint that ends before it starts |
| Burndown.PointOfZeroDays | cmd/bv/main.go:6920-6928 | the single point of a sprint of zero days |
| Burndown.OutsideEventsKeepLine | cmd/bv/main.go:6831-6843 | events outside the sprint leave the plain line, point by point |
| Burndown.LinesAgreeIff | cmd/bv/main.go:6806-6849 | for outside events, what the two methods return is the same line if and only if the sprint has no dates or a negative count of days, there are no events, or there are both days and issues or neither |

## Left out

- JSON text and the WebAssembly wrappers: a snapshot is a value, and a failed JSON parse has no counterpart.
- Graph density, critical paths, the other graph algorithms and the graph queries `blockers`, `dependents`, `open_blockers` and `open_blocker_count`: they would only add easy members.
- parallel_gain: a natural number; its cast to 32 bits is not modelled.
- The library sorts: modelled by a sort function on values, so sorting in place is not captured; the orders proved total pin down what any correct sort returns, and where reports may tie the order of ties is stated.
- WhatIf.CountCascade: for a graph without nodes it returns the roots as they are, as the program does; the meaning is stated for graphs with nodes.
- Suggestions.SuggestClosest: case folding and trimming are parameters; Unicode is not modelled.
- ShellWords.WordsOfCommandLine: covers word splitting and quoting; that an unquoted first word may be a reserved word, an alias or an assignment is not modelled.
- WatchLoop: time is the order of steps, a reload that overlaps no change is taken to see the files as they are, and interrupt handling is not modelled. The pages on disk are known by the two hashes they were made from, or as a mixture; what an export writes on its way, and the parts whose failure is a mere warning (README and history), are not modelled.
- Fingerprints: the hash functions and the JSON text of the authority are parameters; the hashes of one issue's content and dependencies are taken as given.
- Authority.NewRobotSourceAuthority: shortening of warning and error texts, and the default source kind, are not modelled.
- Authority.AuthorityOfLoad: an explicitly named database, bd/Dolt workspaces and a failed discovery are handled before the modelled part and are not modelled.
- Loading.LoadIssues: finding the JSONL file is a parameter, and so is parsing it.
- Loading.LoadSmart: discovery, SQLite and file reading are one function from sources to load results.
- Loading.GateIsExact: the error rate is an exact fraction.
- Sources.SelectBestSourceDetailed: the reason text, logging and `SelectWithFallback` are not modelled.
- Burndown.GenerateIdealLine: fractions are exact where the program rounds to 64-bit floats. What the machine makes of "not a number" in a sprint of zero days is a parameter.
- Burndown.GenerateIdealLineScoped: completed may be negative when issues leave the sprint, as in the program.
