# Verified model of the Crossplane update tester

The update tester patches fields of a live managed resource, one at a time, and reports whether each
change really reached the provider's backend. Much of what it claims is decided offline, from a
manifest's text and a schema, or depends on how long runs, racing callbacks and persisted state
behave. This project models that logic and proves what it promises.

`dafny verify dfyconfig.toml` checks everything.

## What is modelled

* **Clear credits over JSON merge patch.** `Json.dfy` is the merge of section 2 of RFC 7386 (the same
  text is section 2 of RFC 7396). `Manifest.dfy` says which entries the parser accepts, `Patching.dfy`
  builds the patch that is sent and says what merging it does at every path. `ClearCredit.dfy` proves
  each offline credit against that merge; `ClearCoverage.dfy` reconciles credits with the reasons that
  take a leaf out of the denominator, and `LeafFacts.dfy` reads those reasons off the schema;
  `ClearGate.dfy` turns findings into cells and the pass/fail count; `ClearTrigger.dfy` says after
  which entry a credit is checked live; `ClearVerdict.dfy` states the gate on the manifest itself. `Compare.dfy` and `MergePrediction.dfy` are the two validators
  that predict a merge, proved against the runner's own comparisons.
* **Rotation.** `Modular.dfy`, `Rotation.dfy` and `RotationRuns.dfy`: the size-scaled budget, the
  seeded shuffle (in place, over an arbitrary generator), the persisted cursors and sticky fields, and
  whole histories of calls for any mixture of scopes and cells. `RoundTrip.dfy` is what feeds it: the
  per-field classification of a live object, its grouping into cells, and the crediting of cell mates.
* **Adaptive concurrency.** `Adaptive.dfy` has one method per mutex section; `AdaptiveRuns.dfy`
  interleaves them with the read and the write of the ceiling as separate steps.
* **The run loop.** `RunLoop.dfy` is RunTests over an arbitrary cluster; `RunSafety.dfy` is what every
  run guarantees.
* **Schema walks, presence tree, guarded rules, sidecars, convergence.** `SchemaWalks.dfy`,
  `Presence.dfy` (the tree as a value), `PresenceHeap.dfy` (the same tree as maps and slices on the
  heap, with no sharing), `Guards.dfy`, `Sidecar.dfy` and `Converge.dfy`.
* `Text.dfy` and `Cells.dfy` hold the string, sorting and cell-key facts the others share.

Three results are worth knowing before reading. `LenderSkipped` cannot arise for an accepted manifest
(`RunSafety.EveryCreditIsSettled`). A promoted field is in every later selection exactly when its
cell's member list is not empty (`RotationRuns.PromotedIsAlwaysSelected`). And `Conflicts` does not
refuse repeated selectors only: it joins a selector's three parts with NULs, so a document whose parts
hold one can be taken for another. `Sidecar.ConfusedExactly` gives the exact condition over documents
as parsed, `Sidecar.RefusalIsExact` the promise that holds without such documents, and
`Sidecar.KeysCollideWithNul` a pair that is refused wrongly.

Where the documentation of the sticky registry says a promoted field is in every run's set, the code
selects nothing at all for an empty member list; the model follows the code. `getValue`,
`valueAtPath`, `navigateForProvider` and `navigateJSONPath` are one navigation in the source's terms
and one function here, `Json.Get`; the last two are also modelled as the loops they are.

## Model

| member | source | states |
|---|---|---|
| Json.MergeSelf | internal/runner/runner.go:1757-1803 | A value merged into itself is unchanged exactly when it holds no null the merge would read as a removal |
| Json.MergeRepeats | internal/validator/guaranteednoop.go:40-85 | Repeating a null-free value already at a path is the identity patch on the whole object |
| Text.AncestorTestsAgree | internal/runner/clear_assert.go:224-226 | The textual ancestor test agrees with the segment-wise one on every pair of paths |
| Text.SortIgnoresOrder | internal/roundtrip/containerclear.go:728-742 | Sorting by an identifying key forgets map order and sort instability |
| Manifest.ValidateClear | internal/manifest/manifest.go:1241-1262 | Accepts exactly: no clear list, or an undotted field and undotted names other than it |
| Manifest.ValidateWithValues | internal/manifest/manifest.go:1287-1326 | Accepts exactly: no siblings, or an undotted field and undotted keys that are neither it nor cleared |
| Manifest.ValidateIgnoreMapKeys | internal/manifest/manifest.go:1336-1386 | Accepts exactly non-empty, unrepeated keys on a tested entry whose expectation does not declare them |
| Manifest.ValidateIgnoreListElementKeys | internal/manifest/manifest.go:1405-1459 | The same for keys of list elements |
| Manifest.ValidateFieldEntryMix | internal/manifest/manifest.go:1501-1536 | Accepts exactly the manifests in which no field has both a skipped and a tested entry |
| Manifest.CheckEntries | internal/manifest/manifest.go:1101-1126 | The per-entry checks and the entry-mix check accept exactly the accepted manifests |
| Patching.BuildMergePatch | internal/runner/runner.go:1757-1803 | Fails exactly on a disallowed clear or withValues list, else gives the nested patch with nulls and literals beside the field |
| Patching.PatchEffect | internal/runner/runner.go:1757-1803 | What stands at any path under spec.forProvider after merging an entry's patch into any object |
| Patching.PatchStaysInside | internal/runner/runner.go:1757-1803 | Merging a patch changes nothing outside spec.forProvider |
| Patching.OwnFieldEffect | internal/runner/runner.go:1757-1803 | At its own path a patch leaves nothing for null, else the merge of its value with what stood there |
| ClearCredit.BuildIndex | internal/roundtrip/containerclear.go:260-277 | The maps filled over the tests are the cleared siblings, emptied lists, per-key nulls and last entry per field |
| ClearCredit.ClearedAncestor | internal/roundtrip/containerclear.go:492-501 | Finds the deepest cleared strict ancestor |
| ClearCredit.ClearedAncestorMeaning | internal/roundtrip/containerclear.go:484-501 | An ancestor is found exactly when some cleared name is a dotted ancestor of the leaf |
| ClearCredit.LenderRemoves | internal/roundtrip/containerclear.go:446-554 | Whatever the object, merging a lender's patch removes, empties or strips the leaf as its route says |
| ClearCredit.CreditIsSound | internal/roundtrip/containerclear.go:446-463 | Every credit of an accepted manifest has a tested entry whose patch clears the leaf in every object |
| ClearCredit.CreditMeaning | internal/roundtrip/containerclear.go:446-463 | Exactly which manifests earn a leaf a credit, in the entries' own text, and by which route: the first in the order tried |
| ClearCredit.EmptyMapClearsNothing | internal/roundtrip/containerclear.go:519-554 | An empty map value lends nothing, and merged into any object keeps every existing member |
| ClearCoverage.ClassifyIneligibility | internal/roundtrip/ineligible.go:218-291 | The two maps hold each leaf's hard reason and each leaf's marker-only reason |
| ClearCoverage.Reconcile | internal/roundtrip/containerclear.go:279-333 | The combined map gives hard reasons first, then soft ones where the cell is not covered |
| ClearCoverage.CreditedStaysEligible | internal/roundtrip/containerclear.go:296-333 | A credited leaf without a hard reason is never made ineligible |
| ClearCoverage.CellmatesStayEligible | internal/roundtrip/ineligible.go:307-323 | One credited, structurally clean leaf keeps a leaf of its (shape, depth) cell eligible exactly when that leaf has no hard reason |
| ClearCoverage.RefusalIsHardConflict | internal/roundtrip/containerclear.go:366-432 | The code's refusal test holds exactly on a credited leaf with a hard reason other than reference resolution |
| ClearCoverage.ContainerClearCoverage | internal/roundtrip/containerclear.go:254-439 | Errors exactly when some leaf is in hard conflict, else one finding per leaf in order, in which every structurally clean cell mate of a credited leaf is eligible |
| LeafFacts.SizeNonEmptyGuard | internal/roundtrip/ineligible.go:522-553 | No hit exactly when every anchor's rules are passed over, else the first standing rule of the first anchor that has one |
| LeafFacts.LeafRouteResolves | internal/roundtrip/ineligible.go:536-547 | For a declared container leaf the lookup finds the leaf's own node, the minItems read is that node's, and every strict ancestor is an anchor |
| LeafFacts.AnchorsSeeTheLeaf | internal/roundtrip/ineligible.go:522-553 | At every anchor the path searched for is the route from the anchor's own node to the leaf, and read back as a guard path it is the leaf |
| LeafFacts.ListEmptyRouteBlocked | internal/roundtrip/ineligible.go:449-462 | A list's empty route is open exactly without minItems and standing size rules, and conditionally closed exactly when the first standing rule has a condition |
| LeafFacts.ReadFacts | internal/roundtrip/ineligible.go:241-289 | Each leaf's facts are what the immutable walk, the route check and the two text readings say |
| LeafFacts.CoverageFromSchema | internal/roundtrip/containerclear.go:254-439 | From the schema: refused exactly when a declared container leaf that is no reference is credited although it is immutable, a required map, or a required list with its empty route closed |
| ClearGate.GroupClearCells | internal/roundtrip/containerclear.go:621-628 | Each cell holds exactly its own findings, in order |
| ClearGate.BuildClearCellReport | internal/roundtrip/containerclear.go:728-802 | One report per cell in key order |
| ClearGate.PrintClearCellReport | internal/roundtrip/containerclear.go:820-879 | The counters and the returned number of blocking cells |
| ClearGate.GateMeaning | internal/roundtrip/containerclear.go:820-879 | Returns 0 exactly when nothing is contradictory and every cell is all-ineligible, covered or fully dispositioned |
| ClearGate.ReportListsMean | internal/roundtrip/containerclear.go:728-802 | A report lists its members' paths in order and names exactly the ineligible, the contradictory and, in an uncovered cell, the unaccounted ones |
| ClearGate.TotalsMeaning | internal/roundtrip/containerclear.go:820-879 | Each counter exactly: the covered, vacuous and blocking cells, the eligible leaves, and those of them in covered cells |
| ClearGate.RepresentativeIsLeast | internal/roundtrip/containerclear.go:747-802 | A covered cell's representative is its least credited path |
| ClearGate.OrderDoesNotMatter | internal/roundtrip/containerclear.go:728-879 | Findings in any other order give the same reports and the same verdict |
| ClearVerdict.FindingMeans | internal/roundtrip/containerclear.go:336-437 | Each leaf's finding is ineligible, contradictory, covered or left open exactly as the manifest and the schema facts say, and carries its last entry's disposition when left open |
| ClearVerdict.ReasonMeans | internal/roundtrip/ineligible.go:218-291 | Why a leaf is out of the count: its first hard reason, else how its list route is closed, else that nothing in the manifest reaches it |
| ClearVerdict.GateOnManifest | internal/roundtrip/containerclear.go:820-879 | The gate passes exactly when no clean credited leaf's last entry declares backend-discards and every leaf's cell is all out of the count, really covered or fully dispositioned |
| ClearVerdict.PrintContainerClearCells | main.go:702-720 | The three steps in sequence return 0 exactly when that holds, or when the coverage is refused over a credited leaf with a hard reason |
| ClearTrigger.TriggerFieldFor | internal/runner/clear_assert.go:195-213 | The field of the first entry whose lists account for the credit, no earlier entry matching |
| ClearTrigger.UnobservedClearCredits | internal/runner/clear_assert.go:164-186 | Every credit on an unasserted route is filed under its trigger's field once, or listed as unresolved |
| ClearTrigger.UnassertedMeansElsewhere | internal/runner/clear_assert.go:110-121 | A route is checked separately exactly when its lender tests another field than the credited leaf |
| ClearTrigger.CreditIsFiledOnce | internal/runner/clear_assert.go:164-186 | A covered representative on such a route is filed exactly once, under a tested entry that empties it |
| ClearTrigger.MatchEmpties | internal/runner/clear_assert.go:195-226 | An entry that matches a credit has a patch that empties the representative in every object |
| ClearTrigger.CreditHasTrigger | internal/runner/clear_assert.go:195-226 | The first match for a credited leaf exists, is tested and empties it |
| ClearTrigger.AttributionIsTotalAndRight | internal/runner/clear_assert.go:164-226 | Every covered representative on an unasserted route is keyed to a tested entry that empties it |
| ClearTrigger.NothingUnresolved | internal/runner/clear_assert.go:164-186 | The no-trigger reason never arises for reports of the same tests |
| Compare.NavigateJSONPath | internal/runner/runner.go:628-654 | The loop reads what navigation by segments finds |
| Compare.ReadCurrentValue | internal/runner/runner.go:548-585 | The value at the field under spec.forProvider when there is one that is not null, else what status.atProvider holds there, empty when nothing, and an error exactly when that path runs into something that is not an object |
| Compare.BrokenMeansNonObject | internal/runner/runner.go:628-654 | Navigation errors exactly when a proper prefix of the path holds something that is not an object |
| Compare.PatchIsReadBack | internal/runner/runner.go:548-565 | After an entry's patch has merged, reading its field gives the patched value merged with what stood there |
| Compare.CompareFieldValue | internal/runner/runner.go:738-799 | The pass verdict is equality after stripping the ignored keys from both sides |
| Compare.ScalarsCompare | internal/runner/runner.go:681-710 | Text is compared as text, and any other two values by what they decode to |
| Compare.ObjectsCompare | internal/runner/runner.go:738-799 | An object passes exactly when expected and observed have the same members apart from the ignored keys |
| Compare.ListsCompare | internal/runner/runner.go:738-799 | A list passes exactly when the observed one is as long and agrees item by item, objects but for the ignored keys |
| Compare.EqualToItself | internal/runner/runner.go:681-710 | A value compared with its own rendering is equal, whatever the codec |
| MergePrediction.CheckGuaranteedNoOp | internal/validator/guaranteednoop.go:59-85 | Flags exactly the tested entries repeating the create-time value of an untouched top-level field |
| MergePrediction.EveryRepeatIsFound | internal/validator/guaranteednoop.go:59-121 | For round-tripping values the findings are exactly the tested entries repeating the create-time value of a field no earlier tested entry addresses |
| MergePrediction.UntouchedSurvives | internal/validator/guaranteednoop.go:59-96 | A patch leaves every path alone whose top-level name it does not address |
| MergePrediction.NoOpPredictionIsSound | internal/validator/guaranteednoop.go:59-121 | If the codec round-trips the two values compared: after any subset of the earlier patches a flagged entry still finds its own value, is reported a no-op, and alone is the identity |
| MergePrediction.SurvivingSiblingKeys | internal/validator/mergepatch.go:117-147 | The sorted create-time keys neither patched, expected nor ignored |
| MergePrediction.CheckMergePatchSiblings | internal/validator/mergepatch.go:60-90 | One finding for each object entry with surviving keys, in order |
| MergePrediction.SiblingFindingsExactly | internal/validator/mergepatch.go:60-90 | A finding is reported exactly for each entry with surviving keys, with all of them sorted |
| MergePrediction.FlaggedKeysExactly | internal/validator/mergepatch.go:60-147 | The flagged keys are exactly those of the merged object that the entry neither patches, expects nor ignores |
| MergePrediction.SiblingFindingIsSound | internal/validator/mergepatch.go:60-147 | A flagged key survives the merge unchanged, so an object expectation never equals the merged object when the codec round-trips those two values |
| Modular.HitsExact | internal/roundtrip/rotation.go:223-261 | A run of consecutive positions meets each residue floor or ceiling of its share of laps |
| Rotation.RepresentativesPerRun | internal/roundtrip/rotation.go:42-61 | Computes the budget ceil(n / max(2, ceil(n/8))) |
| Rotation.BudgetBounds | internal/roundtrip/rotation.go:42-61 | The budget is between 1 and 8, at most n, and the least with which ceil(n/budget) is at most max(2, ceil(n/8)) |
| Rotation.ShuffledOrder | internal/roundtrip/rotation.go:190-203 | The in-place swaps give the shuffle determined by seed, cell and size |
| Rotation.OrderIsPermutation | internal/roundtrip/rotation.go:190-203 | Whatever the generator draws, the order is a permutation |
| Rotation.EveryOrderCanBeDrawn | internal/roundtrip/rotation.go:190-203 | Every permutation is the outcome of some draws |
| Rotation.RotationState.Select | internal/roundtrip/rotation.go:223-261 | The sorted, unrepeated window plus sticky fields, and only this cell's cursor advanced |
| Rotation.ReturnedExactly | internal/roundtrip/rotation.go:223-261 | A path is returned exactly when it is sticky or in this run's window of the shuffled order; nothing for no members |
| Rotation.SelectionSize | internal/roundtrip/rotation.go:223-261 | A selection returns at least the budget and at most the budget plus the sticky fields |
| Rotation.RotationState.PromoteFailure | internal/roundtrip/rotation.go:269-281 | Adds a field to this cell's sticky list once, keeping it sorted |
| Cells.KeyTextIdentifies | internal/roundtrip/rotation.go:104-106 | Two cells with the same text are the same cell |
| Cells.StateKeyInjective | internal/roundtrip/rotation.go:131-133 | Distinct (scope, cell) pairs never share persisted state, whatever the scopes contain |
| RotationRuns.CallsDoNotInterfere | internal/roundtrip/rotation.go:104-133 | Calls for other scopes and cells never touch this one's history |
| RotationRuns.RotationIsFair | internal/roundtrip/rotation.go:223-261 | After any history the rotated picks of two members differ by at most one, and no member that is not sticky has been returned two times more than another |
| RotationRuns.RotationCovers | internal/roundtrip/rotation.go:42-261 | From any cursor and any shuffle, some of the first ceil(n/budget) selections returns each member |
| RotationRuns.PromotedIsAlwaysSelected | internal/roundtrip/rotation.go:223-281 | A promoted field is in every later selection of its scope and cell exactly when the member list is not empty |
| RotationRuns.StickyStaysTidy | internal/roundtrip/rotation.go:269-281 | Sticky lists stay sorted and without repeats through any history |
| RoundTrip.DiffReport | internal/roundtrip/roundtrip.go:80-165 | Exactly one correctly classified row per declared field some side holds, sorted, never two for a path |
| RoundTrip.RowExistsExactly | internal/roundtrip/roundtrip.go:80-165 | Which paths have a row: declared fields some side holds, and fields only the mirror declares that the mirror holds |
| RoundTrip.ClassificationMeans | internal/roundtrip/roundtrip.go:28-67 | Each class in terms of what the two sides hold, with the values and the immutability the row records |
| RoundTrip.GroupCells | internal/roundtrip/cell.go:99-162 | Each cell holds exactly the rows of its class and shape; mirror-only rows are in none |
| RoundTrip.CellHolds | internal/roundtrip/cell.go:99-162 | A row is in a cell exactly when it has the cell's class, is not mirror-only, and the value it shows has the cell's shape |
| RoundTrip.CreditCells | internal/roundtrip/credit.go:38-69 | One credit per equal cell, from the state before the run in whatever order the map is ranged over, and only those cursors advanced |
| RoundTrip.CreditedNeverDeviates | internal/roundtrip/credit.go:21-69 | A path credited without a test holds the same value in spec and mirror |
| RoundTrip.TestedOrCredited | internal/roundtrip/credit.go:46-66 | A member of an equal cell is credited exactly when it is not a representative of this run |
| RoundTrip.DeviationIsNeverCredited | internal/roundtrip/credit.go:21-69 | A deviating field is a member of no collapsing cell |
| Adaptive.AdaptiveLimiter.constructor | internal/runner/adaptive.go:42-49 | Starts at the given ceiling, 1 for a non-positive one |
| Adaptive.AdaptiveLimiter.TryAcquire | internal/runner/adaptive.go:55-62 | Admits exactly below the ceiling and counts the slot |
| Adaptive.AdaptiveLimiter.Release | internal/runner/adaptive.go:66-71 | Frees one slot and nothing else |
| Adaptive.AdaptiveLimiter.Throttle | internal/runner/adaptive.go:79-89 | Lowers the ceiling and records the cut exactly for a request from 1 to below it |
| Adaptive.AdaptiveLimiter.CurrentLimit | internal/runner/adaptive.go:92-96 | The ceiling now in force |
| Adaptive.AdaptiveLimiter.Events | internal/runner/adaptive.go:100-106 | Every recorded cut, in order |
| Adaptive.ThrottleTracker.Observe | internal/runner/throttle.go:74-92 | The streak is the length of the trailing run of 429s, each of which is recorded, and the callback runs exactly on a 429 |
| Adaptive.TrailingRunMeans | internal/runner/throttle.go:74-92 | The streak is n exactly when the last n responses and no more were 429s |
| Adaptive.SustainedMeansThree | internal/runner/batch.go:151-163 | A sustained streak means the last three responses were all 429s |
| Adaptive.HandleThrottle | internal/runner/batch.go:151-163 | Alone, a handler halves a ceiling of two or more and records one cut on a streak of three or more, and otherwise changes nothing |
| AdaptiveRuns.OnlyFreshReadsCut | internal/runner/batch.go:151-163 | A handler that read an older ceiling is refused; an accepted cut halves the current one exactly |
| AdaptiveRuns.ThirdRefusalHalves | internal/runner/batch.go:151-163 | From any reachable state a third 429 in a row notifies a handler that, left alone, halves the ceiling and records the cut |
| AdaptiveRuns.SustainedStreakCuts | internal/runner/batch.go:151-163 | A handler notified by a streak of three or more that reads and writes with no cut in between halves the ceiling, whatever else is interleaved |
| AdaptiveRuns.NoStreakIsIgnored | internal/runner/batch.go:151-163 | Once no handler is in flight, any sustained streak of the batch has lowered the ceiling, unless it began at 1 |
| AdaptiveRuns.EveryStateIsSafe | internal/runner/adaptive.go:55-89 | The protocol's invariant holds in every state of every interleaving, whatever the tracker had seen before |
| AdaptiveRuns.CeilingIsHonest | internal/runner/adaptive.go:55-89 | The ceiling is the initial one floor-halved once per event and at least 1; events chain and trace to streaks of three or more |
| AdaptiveRuns.AdmissionRespectsCeiling | internal/runner/adaptive.go:55-62 | No worker is admitted at or above the ceiling then in force |
| AdaptiveRuns.NeverStuck | internal/runner/adaptive.go:55-89 | Some worker can always move, and with nobody active every waiter is awake and admitted |
| AdaptiveRuns.EveryRunCanFinish | internal/runner/batch.go:118-143 | From any reachable state some continuation finishes every worker, each result at its own index |
| AdaptiveRuns.ResultsAreIndexed | internal/runner/batch.go:118-143 | However workers finish, each result stands at its own input index |
| RunLoop.EventBurstCeiling | internal/runner/runner.go:960-965 | The ceiling is always positive, whatever the override |
| RunLoop.CheckClearAssertions | internal/runner/clear_assert.go:261-286 | The violations are the readable, still populated items in order; an unreadable item is an error |
| RunLoop.UnprovenReasonForField | internal/runner/clear_assert.go:303-314 | The first result of the field decides between skipped and no-op |
| RunLoop.ResetIfSpent | internal/runner/runner.go:1132-1151 | The burst check before a field test updates counter, baseline and failure flag as specified |
| RunLoop.RunTests | internal/runner/runner.go:987-1216 | Results and violations are those of the state machine, and unproven credits are the unsettled ones with their multiplicity and those without a trigger |
| RunSafety.BurstIsBounded | internal/runner/runner.go:1098-1167 | Between reset attempts at most the ceiling of field tests patch |
| RunSafety.ResetsExactlyWhenSpent | internal/runner/runner.go:1132-1151 | A reset is attempted before a tested entry exactly when the patches since the last attempt, or the growth in events, reach the ceiling |
| RunSafety.BaselineAfterReset | internal/runner/runner.go:1132-1151 | The baseline is the count read at the last readable reset attempt |
| RunSafety.NoTestStartsSpent | internal/runner/runner.go:1132-1154 | A test with no reset right before it starts with less than the ceiling's growth since the last readable reset, or since the run began |
| RunSafety.FailureIsSticky | internal/runner/runner.go:1050-1151 | The failure flag is set exactly when some reset so far was attempted and failed |
| RunSafety.ResultMeans | internal/runner/runner.go:1098-1192 | Each entry's verdict in terms of its own field test: passed exactly on a clean pass with no failed reset by then and every credit read |
| RunSafety.PrintResults | main.go:464-512 | Each counter is the number of results of its kind; every run test that is not passed counts as failed |
| RunSafety.NothingPassesUntrusted | internal/runner/runner.go:1132-1161 | After the first failed reset no later patched field is counted as passed |
| RunSafety.ViolationsAreTheChecks | internal/runner/runner.go:1172-1192 | A run's violations are those of each patched entry's own check, in order |
| RunSafety.ViolationMeans | internal/runner/clear_assert.go:229-286 | A violation is reported exactly when a representative was read back non-empty right after the entry its credit is keyed to patched |
| RunSafety.HonestMirrorIsCleared | internal/runner/clear_assert.go:229-286 | A backend whose mirror reports what the merge left is never accused |
| RunSafety.CreditIsSettledOnce | internal/runner/runner.go:1183-1213 | With distinct fields a credit is checked right after its lender or reported unproven for the lender's own reason, never both |
| RunSafety.EveryCreditIsSettled | internal/runner/runner.go:1017-1213 | From the manifest's own reports: a covered leaf's lender tests that very leaf, or its credit is checked after an entry that empties it, or reported once because that entry was a no-op |
| SchemaWalks.LeafPaths | internal/roundtrip/roundtrip.go:171-204 | The recursion lists what the specification walk lists, in sorted name order |
| SchemaWalks.CollectContainerLeaves | internal/roundtrip/containerclear.go:50-89 | Appends exactly the container leaves below the node |
| SchemaWalks.DeclaredContainerLeaves | internal/roundtrip/containerclear.go:34-48 | Those leaves sorted by path |
| SchemaWalks.CollectImmutablePaths | internal/roundtrip/immutable.go:46-73 | Adds exactly the immutable paths below the node to the shared map |
| SchemaWalks.LeafPathsAreLeaves | internal/roundtrip/roundtrip.go:171-204 | A path is listed exactly when it joins a route to a childless node below the root |
| SchemaWalks.NoLeafTwice | internal/roundtrip/roundtrip.go:171-204 | With proper names no leaf path is listed twice |
| SchemaWalks.LeavesAreNotAncestors | internal/roundtrip/roundtrip.go:171-204 | No leaf path is a dotted ancestor of another |
| SchemaWalks.ContainersAreLeaves | internal/roundtrip/containerclear.go:50-89 | Every container leaf is a leaf path |
| SchemaWalks.ContainersExactly | internal/roundtrip/containerclear.go:50-89 | The container leaves are exactly the array nodes and open-map nodes below the root that declare no properties |
| SchemaWalks.DeclaredLeavesAreDistinctLeaves | internal/roundtrip/containerclear.go:34-89 | The declared container leaves are distinct leaf paths, as the coverage loop relies on |
| SchemaWalks.ImmutableMeansMarked | internal/roundtrip/immutable.go:46-73 | A leaf is immutable exactly when some node from the root down to it carries the marker |
| Presence.TreeIsItsWrites | internal/roundtrip/ineligible.go:372-389 | The tree is the left-to-right application of every tested entry's writes, sibling order not mattering |
| Presence.LookupAfterSet | internal/roundtrip/ineligible.go:421-436 | Which paths one write adds, keeps and hides |
| Presence.FoundExactly | internal/roundtrip/ineligible.go:337-436 | Exactly which paths the finished tree holds |
| Presence.TestedPathsExactly | internal/roundtrip/ineligible.go:360-436 | In terms of entries: a path is found exactly when some tested entry brings it and no later tested entry writes at or above it |
| Presence.WrittenIsFound | internal/roundtrip/ineligible.go:417-436 | A written path is found unless a later write hit a strict ancestor |
| Presence.TestedPathIsFound | internal/roundtrip/ineligible.go:360-389 | The same in terms of the manifest's tested entries |
| PresenceHeap.CopyTreeValue | internal/roundtrip/ineligible.go:398-415 | A copy denotes the same value in storage allocated by the copy alone, with no node shared |
| PresenceHeap.SetAtPath | internal/roundtrip/ineligible.go:421-436 | Writing in place changes only the tree's own maps and makes it the tree with the value at the path |
| PresenceHeap.PresentAtPath | internal/roundtrip/ineligible.go:337-358 | The walk over the maps answers whether the path is present |
| PresenceHeap.TestEntryDataTree | internal/roundtrip/ineligible.go:372-389 | Builds the specified tree in fresh storage and modifies nothing reachable from the manifest |
| Guards.SplitTopLevelOr | internal/roundtrip/ineligible.go:697-721 | The scanning loop gives the trimmed top-level disjuncts |
| Guards.SplitUndoesJoin | internal/roundtrip/ineligible.go:697-721 | Joining trimmed, closed disjuncts without a top-level or-operator and splitting gives them back |
| Guards.SplitExactly | internal/roundtrip/ineligible.go:697-721 | Of any rule: the trimmed pieces of the one way to cut it at each first or-operator outside brackets and quotes, counted character by character |
| Guards.GuardPathResolves | internal/roundtrip/ineligible.go:660-670 | A guard path resolves exactly when it lies strictly under the anchor's own prefix, to the same place below it |
| Guards.FalseExactlyWhen | internal/roundtrip/ineligible.go:624-655 | The condition attached to a false disjunct says exactly when it is false, on any object |
| Guards.GuardDecides | internal/roundtrip/ineligible.go:610-655 | A resolving guard is true exactly when its path is absent or a string other than compared, and undecided exactly on a non-string |
| Guards.JoinConditions | internal/roundtrip/ineligible.go:675-693 | Keeps the conditions no equality on the same path implies, in order |
| Guards.KeptMeansAll | internal/roundtrip/ineligible.go:675-693 | The kept conditions mean the same as all of them and are never empty |
| Guards.SizeGuardRule | internal/roundtrip/ineligible.go:569-608 | No hit only if every rule with the clause has a true leading disjunct after false ones; else the first rule not passed over |
| Guards.RecognisedRule | internal/roundtrip/ineligible.go:555-608 | With every leading disjunct recognised: passed over exactly when one is true, conditional exactly when all are false |
| Guards.ReportedConditionIsExact | internal/roundtrip/ineligible.go:555-608 | A reported condition holds on the manifest, and on any object exactly when every leading disjunct is false there |
| Sidecar.SplitForUndoesJoin | sidecar/sidecar.go:306-312 | Splitting at the last slash undoes joining a version and a slash-free kind |
| Sidecar.JoinUndoesSplitFor | sidecar/sidecar.go:306-312 | Splitting fails exactly without a slash, and joining the parts gives the text back |
| Sidecar.FilterCandidates | sidecar/sidecar.go:449-465 | Exactly the candidates the selector picks, each once |
| Sidecar.ResolveOne | sidecar/sidecar.go:384-435 | Succeeds exactly when the selector picks one target and every weaker one at least two; each error says which part failed |
| Sidecar.Resolve | sidecar/sidecar.go:355-380 | Succeeds exactly when documents and targets match one to one, with that matching; a refusal names the first document at fault and why |
| Sidecar.AssignmentIsUnique | sidecar/sidecar.go:355-380 | The annotations each object receives are determined by the documents |
| Sidecar.OrderDoesNotMatter | sidecar/sidecar.go:355-380 | Success and assignment are the same for any order of documents |
| Sidecar.Conflicts | sidecar/sidecar.go:318-333 | Refuses exactly when two documents share a joined key |
| Sidecar.KeyIsTheTriple | sidecar/sidecar.go:318-333 | A document's for: and name: hold no NUL exactly when its key tells it from every other such document's selector |
| Sidecar.ConfusedExactly | sidecar/sidecar.go:204-333 | A parsed document can be taken for one with another selector exactly when name: or namespace: holds a NUL, or for: holds a slash before its last NUL and no placeholder after it |
| Sidecar.RefusalIsExact | sidecar/sidecar.go:314-333 | Among documents that cannot be confused, Conflicts refuses exactly a repeated selector |
| Sidecar.KeysCollideWithNul | sidecar/sidecar.go:318-333 | Two parsed documents with different selectors that Conflicts refuses |
| Sidecar.ResolvedMeansDistinct | sidecar/sidecar.go:314-380 | A sidecar that resolves repeats no selector |
| Converge.ConvergeArm | internal/runner/converge.go:241-364 | A window opens exactly when every gate but readiness passes, with the settled pod and the synced generation; an early verdict is never a pass |
| Converge.BuildConvergeResult | internal/runner/converge.go:525-617 | The accumulated verdict, its headline and its diagnostics in order |
| Converge.VerdictOn | internal/runner/converge.go:525-617 | Passes exactly on a quiet window; the loop headline exactly on drift, new events or Update() calls |
| Converge.LoopMeans | internal/runner/converge.go:525-617 | The loop headline is given exactly when drift, new events or Update() calls are among the problems reported |
| Converge.VerdictKeepsNotes | internal/runner/converge.go:518-617 | A verdict keeps every restart note and adds none |
| Converge.ProblemsAreReal | internal/runner/converge.go:525-617 | A verdict reports exactly the problems its window showed, with the values it showed |
| Converge.MeasuredMeans | internal/runner/converge.go:397-469 | A measured verdict is over an unchanged pod, within the retry bound, with one numbered note per discarded window |
| Converge.MeasuredExactly | internal/runner/converge.go:397-469 | A check is measured at attempt n exactly when n is at most two, every earlier window was spoiled, and its own was not and could be read |
| Converge.PassIsMeasured | internal/runner/converge.go:397-469 | A pass is always measured, after at most two discarded windows, all of them still reported |
| Converge.MeasuredPassIsQuiet | internal/runner/converge.go:397-617 | A measured verdict passes exactly when its own window was quiet |
| Converge.SpoiledExactly | internal/runner/converge.go:397-432 | A check is inconclusive exactly when all three windows were spoiled |
| Converge.EarlyExactly | internal/runner/converge.go:397-432 | A check ends on a re-arming's verdict exactly when every window up to it was spoiled and the re-arming gave that verdict |
| Converge.ConvergeWait | internal/runner/converge.go:139-145 | One and a half intervals rounded down, never less than one interval |
| Converge.ConvergeAllDeadline | internal/runner/convergeall.go:136-151 | Every armed target's own wait fits before the deadline, which is one baseline plus one wait |
| Converge.RunConvergeAll | internal/runner/convergeall.go:77-131 | Each target's result is its arming's, or its own check over the time since its own baseline, one barrier for all being the latest baseline plus the longest wait, or the end of arming if later |
| Converge.CountUpdateLogLinesIn | internal/runner/converge.go:907-928 | Counts the lines inside the window and, among them, the Update() lines of exactly this resource |

## Left out

- ClearCoverage.ClassifyIneligibility: takes each leaf's schema facts as a function; LeafFacts.ReadFacts computes them, except the reference shape and the required-by-policy rule, which are read from shapes and rule texts and stay inputs.
- Compare.CompareFieldValue: marshalling is an arbitrary codec whose failure is a None; numbers are reals, so only the values actually compared are ever asked to round-trip.
- Manifest.CheckEntries: leaves out the ignore-fields check before the entry loop and the assert-unchanged overlap check after it.
- LeafFacts.CoverageFromSchema: for proper property names, as the walks need; route facts are computed for every leaf, though only a list's are used.
- Sidecar.ConfusedExactly: over documents as decoded; whether YAML can carry a NUL in a scalar is the decoder's business.
- Sidecar.Resolve: a file is its decoded documents, and a nil file is an empty one.
- Guards.SizeGuardRule: the regular expressions and stripOuterParens are parameters (the clause a text carries, a disjunct's recognised shape); conditions are values, not their English rendering.
- PresenceHeap.TestEntryDataTree: map ranging is any order; a list's backing array is one node with its items.
- Rotation.ShuffledOrder: the seeded generator is an arbitrary function of seed, cell text, size and step.
- Converge.RunConvergeAll: targets are taken one after another with an arbitrary lag each; the bounded fan-out itself is modelled in AdaptiveRuns only for batches.
- Converge.ConvergeWait: on integers; the original multiplies a float64, exact for any interval below 2^52 nanoseconds.
- RunLoop.RunTests: the assert-unchanged check (its violations and its parse-time overlap check), the external-name and evidence checks and the texts of errors are not modelled; a field test's outcome is any value.
- RunSafety.CreditIsSettledOnce: for pairwise distinct fields, since pending credits are keyed by field name.
- RunSafety.BurstIsBounded: counts from the run's own baseline; events before the run are unknown to the code too.
- RotationRuns.RotationCovers: for a member list that does not change between the runs.
- ClearCredit.CreditIsSound: one direction only, since a null nested in an ancestor's value clears a leaf without earning a credit; CreditMeaning gives the exact textual condition.
- AdaptiveRuns.SustainedStreakCuts: asks for no cut between the read and the write; with one in between the write is refused, as OnlyFreshReadsCut shows.
- AdaptiveRuns.EveryRunCanFinish: that a finishing continuation exists from everywhere, not that every fair schedule takes one.
- ClearVerdict.PrintContainerClearCells: from the leaves and their facts on; finding the CRD in the repository is not part of this model.
- RunSafety.HonestMirrorIsCleared: for a codec that renders the empty list as `[]`.
- SchemaWalks.LeavesAreNotAncestors: for non-empty property names without dots, which served schemas have.
- validateSkipInfo and the YAML decoding of skip: and disposition: values: one-branch case tables.
- The reasons' prose, the blockers named in it and the contradiction texts: display only.
- Loading and saving rotation state: the state is taken as last saved.
- client-go, HTTP, the fake server, waiting and polling loops: the cluster is an oracle and times are integers.
- Scanning Go sources (observability, server echo, incomplete expectations), argument handling, hooks, residual and snapshot diffs, report formatting: heuristic or single-pass code with nothing hard to state.
- denominator.go, waiverbucket.go, provenance.go and resolve.go: mostly one-branch case tables.
