# Verified model of the attribution, completion and measurement cores

This project models the parts of the repository in which a wrong step is silent: the journal-first
attribution of Claude usage to accounts, the derivation completion that publishes a journal prefix, the
operator's attribution command, the dashboard's per-day report cache, two monitors of the soak harness, the
responsive table layout and the process-tree sampler. Each file is one module and follows the code it names;
`dafny verify dfyconfig.toml` checks all of them.

What is proved, module by module:

- **AttributionReplay.** The journal is a sequence of lines; any process may append observation lines, the
  holder of the cache writer lock alone appends decisions. Over every run of foreign appends, replays,
  journal-first appends, commits and crashes, the table after a replay is the first-wins fold of the
  admitted lines up to the consumed high water, whether the replay was incremental or from the origin. Which
  lines are admitted is told by the fences before them and their own stamps.
- **AttributionNeighbours.** The two early-stopping timeline seeks give exactly what a full scan gives, the
  answer is unique, and the attribution rule agrees on an account exactly when every observation it
  consults names that account; every fallback keeps the ingest account and gives the first reason that holds.
- **AttributionBatches.** The linear batcher returns the quadratic greedy partition under an additive
  encoding, that partition is characterised without an algorithm and shown unique, canonical JSON text is
  shown additive, for any encoder at all no line of two or more members is over the budget, and a batch of
  agreements carries its members' evidence once each in the order first seen.
- **AttributionPreserve.** Chunked preservation of unlinked rows equals one row-at-a-time run for every
  limit and chunk size; chained runs are one run; each wanted row is linked once to the decision it owns, and
  one whose account changes takes a new mutation number, later rows larger ones; a run that died with any of
  its exports journaled is made good by replaying them and running again.
- **AttributionRecovery.** That last claim end to end: appends cut short in the journal, the rollback, the
  replay of what survived, and the rerun.
- **CompletionRounds, CompletionObligations, CompletionPolicy.** No admitted derivable input is lost
  between the published prefix and the durable obligations, and a completion adds decisions for unanswered
  inputs only, one each; a certified proof is sound and stays so; an obligation leaves only when an ingest
  that started after it was read has derived what it owes; the emitted appends land the with-gap decision on
  every id and nothing elsewhere, each at the revision just above the selected, excluded and inert ones of
  its id.
- **AccountApply, AccountPlanner, AccountLabels.** From any sequence of interrupted runs at most two reruns
  bring journal, derived table, stats and certificate into agreement with every attributable group
  recorded, and from then on by exactly one op if and only if no other account claims a group and none was
  recorded twice to begin with; the bisect slices equal naive filtering; when two accounts share a label is
  read off the rows, exactly.
- **DashboardDayCache.** When the cached report is the full-window report, exactly, over every run of
  ingests and ticks, with dates of any length, and what the cached one lists when it is not.
- **SoakTicks, SoakReadiness.** A sampling that says it is complete has missed nothing; readiness is
  reported at the first observation that completes one exact pattern.
- **TableLayout, TableRender.** The trim loop ends with the space filled or every column at its floor, a
  dropped column moves no role, and the rendered table is the rules, header and rows of the kept columns,
  every line of one visible width and every cell right after the columns before it, whole or cut where one
  cell is left for the ellipsis.
- **ProcessTree.** The worklist visits exactly the reachable processes of an arbitrary, possibly cyclic,
  parent relation.

## Where the code and its own description disagree

- `conflicts` is described as a pure function of the journal. An append counts the contradictions of its
  own lines and the next incremental replay reads those lines again, so the stored count is right exactly
  when the batches agree with the decisions already stored and with each other (`AppendAgreesIff`,
  `ReplayRecountsAppends`, `ConflictCountedTwice`).
- The cursor's admission fingerprint leaves out the third revision fence. That is harmless: a line's
  admission never changes as the journal grows (`AdmissionIsStable`).
- "Any blocking group means nothing is appended" holds for the preview. The locked revalidation takes a
  changed plan for a recovery before it looks for blocking groups, so under drift a newly eligible group is
  recorded beside a blocking one, and exactly then (`BlockedApplyAppends`, `BlockedGroupAppended`).
- The label map is called injective by construction. It is exactly when no two accounts of one base are tied
  by plan and key prefix, no unshared label is another account's base and mark, and no base continues another
  into its mark (`InjectiveIff`); a name of the second kind breaks the claim (`DocumentedClaimFails`), and
  without names of a generated shape, ties and such continuations it holds (`WholeMapIsInjective`).
- An identical second apply is said to plan nothing. A group that active assertions of two accounts claim
  resolves to no owner, raises no conflict code and stays eligible, so every run appends one more assertion
  for it (`EachRunAppendsOne`). A finished store is left alone exactly when no other account claims a group
  the command may record (`LeftAloneIff`). Each group ends recorded by one op exactly when, besides, none
  was recorded twice before: what a dispute appended stays after the other account retracts its claim, and
  no attribution removes or reports it (`OneOpEachIff`, `ThreeRerunsIff`,
  `SettledDisputeKeepsDuplicates`).
- The journal-position tie-break among legacy candidates never decides anything (`LookupIsBest`).
- The warm dashboard report is called byte-identical to the full-window one. Its units are, for a fold that
  tells entry lists apart, exactly when no entry of the oldest date has left the window since that date was
  folded (`UnstraddledIsExact`, `Build`); two entries and two ticks one second apart falsify it
  (`StraddledTableIsStale`).
- A range that wholly covers a group need not reach the record made from it. Every such range does exactly
  when the group has an observation before its anchor and one, not necessarily the same, at or after its
  nominal start (`CoveringRangesReachIff`, `LateObservationIsMissed`, `StraddlingGroupIsReached`).

## Hypotheses

Encoded length is additive in items and evidence, where the greedy equality is claimed (proved for canonical
JSON text, and not needed for the budget). Timeline precisions lie between 1 and 1,000,000 microseconds. Row
identities are one per row. Only the lock holder appends decisions, and a decision comes after its input.
Tick numbers are consecutive and publication times do not decrease along them. A changed-rows watermark is
no later than any date that changed. An ingest reports no more than it derived. The dashboard's claims that
mention only the oldest date say in their antecedent that the clock has not stepped back. An assertion the
attribution command records resolves to the group it was recorded for, the lines a stopped run leaves for the
next one are of the same command, and other accounts' claims on a group stay as they are while it is rerun.
Lower-casing keeps at least one character for each. Journal keys name decision keys injectively.

## Model

| member | source | states |
|---|---|---|
| AttributionReplay.AdmissionIsStable | bin/_lib_account_protocol.py:693-739 | whether a line is admitted never changes as the journal grows past it, so a cursor under an older boundary loses nothing |
| AttributionReplay.AppliesIff | bin/_lib_account_protocol.py:693-739 | a decision or observation is replayed exactly when no cutover precedes it, or it carries the generation stamp, the second stamp where a revision stands between the first cutover and it, and the third where a third revision stands between such a revision and it |
| AttributionReplay.ReplayIsStable | bin/_cctally_claude_attribution.py:389-471 | replaying a range of a longer journal applies the same lines as replaying it when it ended there |
| AttributionReplay.TruthIsFirstWins | bin/_cctally_claude_attribution.py:352-372 | a key's decision is the one of the earliest admitted line naming it, at that line's position |
| AttributionReplay.TruthTimeline | bin/_cctally_claude_attribution.py:314-325 | the timeline holds one row per admitted observation and nothing else |
| AttributionReplay.TruthIsFromAdmitted | bin/_cctally_claude_attribution.py:389-471 | the fold of a prefix has one row per observation that counts and, for each key, the account and position of the first decision that counts and names it, by fence positions and stamps alone |
| AttributionReplay.CountAgainstIs | bin/_cctally_claude_attribution.py:352-372 | the contradictions counted for a line are its items, repeats included, that are decided with another account |
| AttributionReplay.TruthConflicts | bin/_cctally_claude_attribution.py:352-372 | the conflict count of a prefix can be read off the final table: each item against its key's first decision |
| AttributionReplay.ConflictsBetween | bin/_cctally_claude_attribution.py:352-372 | the count grows over a range by the contradictions of that range alone |
| AttributionReplay.IncrementalReplay | bin/_cctally_claude_attribution.py:389-471 | re-reading lines already inserted reaches the truth of the new high water in decisions and timeline, and adds exactly the conflicts read |
| AttributionReplay.ReplayRecountsAppends | bin/_cctally_claude_attribution.py:788-850 | after an append and the next replay the stored conflict count equals the truth if and only if every item already decided has its batch's account and batches that share an item share an account |
| AttributionReplay.AppendAgreesIff | bin/_cctally_claude_attribution.py:788-850 | an append counts no contradiction exactly under that condition on the table before it |
| AttributionReplay.ConflictCountedTwice | bin/_cctally_claude_attribution.py:788-850 | one contradiction stored as two, on a concrete journal |
| AttributionReplay.AttributionStore.constructor | bin/_cctally_claude_attribution.py:159-166 | a recreated cache has no cursor and satisfies the invariant whatever the journal holds |
| AttributionReplay.AttributionStore.ForeignAppend | bin/_cctally_claude_attribution.py:389-471 | a non-decision append by anyone, inside or between transactions, keeps the invariant and moves no table |
| AttributionReplay.AttributionStore.InsertDecisionItems | bin/_cctally_claude_attribution.py:352-372 | items are inserted first-wins and the result counts those decided otherwise |
| AttributionReplay.AttributionStore.ReplayLines | bin/_cctally_claude_attribution.py:389-471 | the traversal applies exactly the admitted lines of the range, in order |
| AttributionReplay.AttributionStore.Rehydrate | bin/_cctally_claude_attribution.py:389-471 | after a replay, incremental or authoritative, every row and decision comes from a line that counts by the fences and stamps, each such line up to the high water is in, the cursor is current, and the conflict excess is what committed appends counted twice |
| AttributionReplay.AttributionStore.InsertBatches | bin/_cctally_claude_attribution.py:788-850 | the rows of the lines just written are inserted at those lines' positions |
| AttributionReplay.AttributionStore.AppendDecisions | bin/_cctally_claude_attribution.py:788-850 | journal first, then rows: every named key holds a decision, the table is the truth of the whole journal |
| AttributionReplay.AttributionStore.AppendInterrupted | bin/_cctally_claude_attribution.py:788-850 | a failed append leaves a prefix of its lines durable and no row, and the invariant holds |
| AttributionReplay.AttributionStore.Commit | bin/_cctally_claude_attribution.py:389-471 | rows, cursor and counters become durable together |
| AttributionReplay.AttributionStore.Crash | bin/_cctally_claude_attribution.py:788-850 | tables roll back, the journal does not, and the invariant holds |
| AttributionNeighbours.NeighboursAreUnique | bin/_cctally_claude_attribution.py:485-538 | a timeline and a record determine before, overlapping and after instants completely |
| AttributionNeighbours.SeekBefore | bin/_cctally_claude_attribution.py:485-513 | what the backward seek skips ends before the best instant found, so the maximum by end then start is exact |
| AttributionNeighbours.SeekAfter | bin/_cctally_claude_attribution.py:514-526 | what the forward seek skips starts after the earliest following instant, so the minimum by start then precision is exact |
| AttributionNeighbours.SortedKeys | bin/_cctally_claude_attribution.py:527-538 | the grouped instants come out strictly ordered, each once |
| AttributionNeighbours.FindNeighbours | bin/_cctally_claude_attribution.py:485-538 | the two bounded seeks give the neighbours of an unbounded scan, with complete account sets and complete evidence |
| AttributionNeighbours.SeeksAreExact | bin/_cctally_claude_attribution.py:485-538 | any two seeks that stop under their break conditions determine the full-scan neighbours |
| AttributionNeighbours.AgreementIff | bin/_lib_claude_attribution.py:242-283 | an agreement on an account is reached exactly when the record is inside the clock, an observation precedes it, something closes it, and every consulted observation names that account |
| AttributionNeighbours.FallbackIff | bin/_lib_claude_attribution.py:242-283 | every fallback keeps the ingest account, and each of its five reasons is given exactly when it is the first to hold of the observations consulted; an agreement used the capture exactly when no observation follows |
| AttributionNeighbours.WitnessAccounts | bin/_cctally_claude_attribution.py:541-557 | each neighbour carries exactly the accounts observed at its instant |
| AttributionBatches.BuildEvidence | bin/_cctally_claude_attribution.py:703-717 | a batch of agreements carries every evidence entry of its members, each once and in the order first seen, and any other batch none |
| AttributionBatches.EvidenceIs | bin/_cctally_claude_attribution.py:703-717 | the same of the deduplicated union, by the members' own entries and their places |
| AttributionBatches.GreedyIsGreedy | bin/_cctally_claude_attribution.py:771-785 | the greedy rule's output keeps the members in order, fits as each batch grows, and no batch could have taken the next one's first member |
| AttributionBatches.GreedyPartitionIsUnique | bin/_cctally_claude_attribution.py:771-785 | there is only one such partition |
| AttributionBatches.FirstBatch | bin/_cctally_claude_attribution.py:771-785 | the first batch is the longest prefix that fits at every step |
| AttributionBatches.JsonIsAdditive | bin/_cctally_claude_attribution.py:664-677 | canonical JSON text with an absent empty evidence key is additive, with the batcher's own constants |
| AttributionBatches.LineLengthIs | bin/_cctally_claude_attribution.py:664-677 | a line is as long as its fixed parts, its items with a comma or bracket each, and its evidence likewise under its key |
| AttributionBatches.GroupLines | bin/_cctally_claude_attribution.py:664-723 | the journal lines of a group are the greedy partition of its members under the length of their text, the only one there is |
| AttributionBatches.FreshEntries | bin/_cctally_claude_attribution.py:740-752 | the entries a member adds are exactly those extending the deduplicated union |
| AttributionBatches.Predict | bin/_cctally_claude_attribution.py:740-762 | the arithmetic size of a grown batch is its encoded length when the encoding is additive |
| AttributionBatches.Emit | bin/_cctally_claude_attribution.py:733-739 | a built line is refused exactly when it disagrees with its prediction or is over budget with more than one member |
| AttributionBatches.Take | bin/_cctally_claude_attribution.py:740-768 | each member joins the batch or starts the next, in order and as the greedy rule would |
| AttributionBatches.LinearBatches | bin/_cctally_claude_attribution.py:726-768 | the linear batcher equals the greedy partition under an additive encoding, and whatever it emits is ordered and within budget |
| AttributionBatches.GreedyBatches | bin/_cctally_claude_attribution.py:771-785 | the fallback loop computes the greedy rule |
| AttributionBatches.GroupBatches | bin/_cctally_claude_attribution.py:680-723 | for any encoder the members come out in order and no line of two or more is over budget; under an additive one the partition is the greedy one |
| AttributionPreserve.LookupIsBest | bin/_lib_claude_attribution.py:370-421 | the lookup finds the best matching candidate, exact before split-unknown, and there is at most one of each rank |
| AttributionPreserve.LookupIgnoresOthers | bin/_cctally_claude_attribution.py:589-617 | decisions on other identities never change what an identity finds |
| AttributionPreserve.RunExports | bin/_cctally_claude_attribution.py:927-997 | a run adds exactly the decisions of the wanted rows that had none, each with that row's own stamp |
| AttributionPreserve.RunLinksEveryRow | bin/_cctally_claude_attribution.py:868-899 | every wanted row is linked to the decision it held or its own export, its stamp agrees with that decision, other rows are untouched, the mutation counter moves once per account change, and each changed row takes a number above the old counter, later ones larger |
| AttributionPreserve.RunInFields | bin/_cctally_claude_attribution.py:868-997 | the same in the rows' own fields: which key each unlinked row ends linked to, which account that key has, a real account kept, the stamp it leaves, a new number exactly where the stamp moved, and both counters up by as many rows |
| AttributionPreserve.CountWantedIs | bin/_cctally_claude_attribution.py:902-924 | the rows a run handles are counted: unlinked, behind the id, on a named path |
| AttributionPreserve.ChainedRunsAreOneRun | bin/_cctally_claude_attribution.py:927-997 | resuming from the last id ends in the same state as one unlimited run |
| AttributionPreserve.ChainedCount | bin/_cctally_claude_attribution.py:927-997 | the rows two chained runs handle add up to those of one run, none twice |
| AttributionPreserve.ChunkIsARun | bin/_cctally_claude_attribution.py:927-997 | aligning the found rows first and appending the exports after is the row-at-a-time rule |
| AttributionPreserve.RerunAfterCrash | bin/_cctally_claude_attribution.py:930-997 | with any of the exports decided and no link kept, a rerun ends in the same rows, decisions and counters as a run that was never interrupted |
| AttributionRecovery.NewDecisionHasLine | bin/_cctally_claude_attribution.py:352-372 | a key first decided behind an old journal end is decided by a line behind it, on that line's account |
| AttributionRecovery.SurvivorsArePartlyExported | bin/_cctally_claude_attribution.py:930-997 | replaying whatever export lines survived, among other writers' lines, gives the decisions before the run and some of its exports, nothing else |
| AttributionRecovery.ReplayAfterCrash | bin/_cctally_claude_attribution.py:930-997 | after an append cut short, the rollback and a replay, the table reads as decisions from which the rerun ends where an uninterrupted run ends |
| AttributionPreserve.Cache.AlignRow | bin/_cctally_claude_attribution.py:868-899 | a row is linked; where its account differs it takes the decision's account and the next mutation number, and otherwise nothing else of it moves |
| AttributionPreserve.Cache.FetchUnlinked | bin/_cctally_claude_attribution.py:902-924 | a chunk ends at a wanted row, and a short chunk leaves no wanted row behind |
| AttributionPreserve.Cache.AlignFound | bin/_cctally_claude_attribution.py:927-997 | every wanted row of the chunk is aligned or listed for export, never both |
| AttributionPreserve.Cache.AppendExports | bin/_cctally_claude_attribution.py:927-997 | the exported decisions are those of the listed rows, in order |
| AttributionPreserve.Cache.LinkExports | bin/_cctally_claude_attribution.py:927-997 | exactly the exported rows gain their link and nothing else changes |
| AttributionPreserve.Cache.PreserveChunk | bin/_cctally_claude_attribution.py:927-997 | one chunk is the row-at-a-time rule over its rows |
| AttributionPreserve.Cache.PreserveUnlinkedRows | bin/_cctally_claude_attribution.py:927-997 | for every limit and chunk size the loop ends in an exact prefix run, whose rows, numbers and decisions are stated in their own fields; saved is the number of rows linked, the limit is respected, and remaining is reported exactly |
| AttributionPreserve.Cache.PreserveChunks | bin/_cctally_claude_attribution.py:927-997 | the loop over chunks alone: it stops on a used-up limit or with nothing left to fetch |
| CompletionRounds.ProofIsStable | bin/_cctally_completion.py:733-762 | a proof stays true however the journal grows |
| CompletionRounds.CertifiedIsSound | bin/_cctally_completion.py:733-762 | in each of the three admitting cases no admitted decision after the frontier derives from an input after it |
| CompletionRounds.NoInputIsLost | bin/_cctally_completion.py:187-235 | each derivable input is in the published prefix with its decisions journaled, or reached by a durable obligation |
| CompletionRounds.AllAccounted | bin/_cctally_completion.py:485-532 | the same for every derivable input at once |
| CompletionRounds.RebuiltInLines | bin/_cctally_completion.py:187-235 | a completion in the lines themselves: each admitted deriving input published has an admitted decision, and each one gained is for such an input, behind what a trusted proof consumed, that had none before the prefix aimed at, no two for one |
| CompletionRounds.Completion.Interfere | bin/_cctally_completion.py:788-845 | while the ingest lock is held recorders append inputs and other lines, never decisions |
| CompletionRounds.Completion.WindowHasDerivableInputs | bin/_cctally_completion.py:170-180 | the window scan finds an admitted derivable input exactly when there is one |
| CompletionRounds.Completion.WindowHasAdmittedDecisions | bin/_cctally_completion.py:765-778 | the window scan finds an admitted decision exactly when there is one |
| CompletionRounds.Completion.Certify | bin/_cctally_completion.py:733-762 | a returned proof holds of the journal as it stands after concurrent appends and is exactly the one the three cases give; the fallback is kept only in the one refusing case |
| CompletionRounds.Completion.WindowOutputs | bin/_cctally_completion.py:1298-1360 | one decision for each deriving input of the window that no decision before the target answers, and no other |
| CompletionRounds.GainedInTurn | bin/_cctally_completion.py:788-845 | two rounds in a row gain decisions for inputs unanswered at the first only, and none twice |
| CompletionRounds.Completion.CompleteWindow | bin/_cctally_completion.py:1298-1360 | a window leaves every derivable input up to its target decided; each decision it adds is for a deriving input of the window that none before the target answered, no input gets two, and it appends exactly when there is such an input |
| CompletionRounds.Completion.Rounds | bin/_cctally_completion.py:788-845 | at most the allowed number of windows run and fewer only with nothing left unanswered before the target; the target never moves back, everything up to it is complete, and no decision is gained for an answered input, none at all where every one was answered |
| CompletionRounds.Completion.RunRounds | bin/_cctally_completion.py:788-845 | the rounds without the certification: fewer than allowed only with nothing left unanswered, and a journal with nothing unanswered is not touched |
| CompletionRounds.Completion.CompleteDerivation | bin/_cctally_completion.py:788-845 | the same from any trusted proof or none, and the proof is the trusted one or the one certified at the target |
| CompletionRounds.Completion.Publish | bin/_cctally_completion.py:187-235 | the completion aimed at the pinned prefix or the whole journal, and its publication with the proof |
| CompletionRounds.Completion.CompleteAndRebuild | bin/_cctally_completion.py:187-235 | on return every derivable input at or before the end it read is accounted for, or the obligation failure was raised; the journal gained decisions for unanswered inputs behind what a trusted proof consumed only, none where nothing was unanswered; the proof published is trusted, fresh, or withheld for the one reason; without a boundary nothing happens |
| CompletionObligations.IntervalDoubles | bin/_cctally_completion.py:592-613 | the retry interval starts at the base, doubles, and stops at the maximum |
| CompletionObligations.FailuresInARow | bin/_cctally_completion.py:592-613 | the n-th failure recorded in a row is counted as such and sets the retry one n-th interval after its own instant: 60 s, doubled each time, 3600 s from the seventh on |
| CompletionObligations.NeverStalls | bin/_cctally_completion.py:401-407 | an obligation is due now or within the maximum interval, at any clock reading |
| CompletionObligations.RecordedFailurePaces | bin/_cctally_completion.py:592-613 | with a clock that does not go back a recorded failure is not due before the base interval |
| CompletionObligations.CoveredIsDerived | bin/_cctally_completion.py:564-579 | an ingest that covers an obligation has derived everything it owes |
| CompletionObligations.DischargedIsSafe | bin/_cctally_completion.py:616-696 | whatever files an attempt removes, each removed obligation's debt is derived and every other one still has its file |
| CompletionObligations.Growth | bin/_cctally_completion.py:616-696 | journal growth never makes a paid debt owed again |
| CompletionObligations.Obligations.constructor | bin/_cctally_completion.py:273-309 | a store with nothing owed satisfies the invariant |
| CompletionObligations.Obligations.Append | bin/_cctally_completion.py:616-696 | appends at any moment keep every obligation ever written paid or on file |
| CompletionObligations.Obligations.CompletionReported | bin/_cctally_completion.py:485-532 | a completion that published short of the end leaves an obligation reaching the end, under a name of its own |
| CompletionObligations.Obligations.FileDamaged | bin/_cctally_completion.py:311-330 | an unreadable document still owes, and counts as owing everything |
| CompletionObligations.Obligations.Discharge | bin/_cctally_completion.py:582-589 | removing the file of an obligation the ingest covered, as the attempt read it and whatever the file has become, removes only a paid one, and every obligation ever written stays paid or on file |
| CompletionObligations.Obligations.BeginAttempt | bin/_cctally_completion.py:616-650 | an attempt is held off exactly when every retry instant lies ahead and no further than the longest wait, what it read owes no more than the journal holds then, and two failing attempts are at least the base interval apart |
| CompletionObligations.Obligations.BeginUnlistableAttempt | bin/_cctally_completion.py:699-730 | under a forward clock two attempts are at least the base interval apart once the first could be recorded, and no clock reading holds the next one off beyond the longest interval |
| CompletionObligations.Obligations.RecordFailures | bin/_cctally_completion.py:592-613 | each uncovered obligation that can be written holds the document that was read, its end unchanged, one failure further and waiting that failure's interval; no other file changes |
| CompletionObligations.Obligations.Settle | bin/_cctally_completion.py:650-696 | of the obligations read before the ingest, files damaged or gone meanwhile included, exactly the covered ones are removed and all of those are paid; the outcome follows from the rest |
| CompletionObligations.Obligations.ResidualCovered | bin/_cctally_completion.py:564-579 | an obligation is covered exactly when the ingest ran clean and no admitted input stands between where it applied to and the end owed, or, with no end known, when nothing blocked it |
| CompletionPolicy.AppendDesired | bin/_cctally_completion.py:1429-1501 | a desired event is written plainly when its id was never seen, as the next revision when it was, and not at all when already selected |
| CompletionPolicy.Emit | bin/_cctally_completion.py:1429-1501 | one id adds at most one line, above every physical revision of that id, and landing it selects what the id is owed |
| CompletionPolicy.Lands | bin/_cctally_completion.py:1429-1501 | landing the grown lists is landing the old ones and then the one emission |
| CompletionPolicy.EmissionSettles | bin/_cctally_completion.py:1383-1427 | an emission settles its own id and disturbs no other |
| CompletionPolicy.PlanAppends | bin/_cctally_completion.py:1383-1501 | what lands is, id by id, the planner's record, the with-gap decision carrying over what the current record holds, or nothing where the gap removes it, and no other id moves; every action takes the revision just above the selected, excluded and inert ones of its id, plain events name ids in none of the three, no id twice, and every action changes what is selected |
| CompletionPolicy.PhysicalIs | bin/_cctally_completion.py:1383-1389 | an id has no physical revision exactly when it is in none of the three maps, and otherwise the next one is the least above all three |
| CompletionPolicy.SettledCarries | bin/_cctally_completion.py:1383-1501 | what a settled selection holds under any id, in the round's own maps |
| CompletionPolicy.HighestWins | bin/_lib_journal.py:1514-1547 | after any batch an id is selected at the highest revision among its record and the batch's actions on it, as that one says, its record staying where none is higher |
| CompletionPolicy.PlanningAgainIsEmpty | bin/_cctally_completion.py:1429-1501 | a later plan over what landed appends nothing, whether its replay without the gap sees, id by id, what the first one saw there or what it saw with the gap |
| CompletionPolicy.CompletedBatchNeverMatches | bin/_cctally_completion.py:1429-1501 | the completed-batch guard never drops a change |
| AccountApply.BlockedPreviewChangesNothing | bin/_cctally_account.py:1497-1523 | a blocking group in the preview leaves the store as it was |
| AccountApply.BlockedApplyAppends | bin/_cctally_account.py:1227-1300 | a blocking group met at revalidation allows an append exactly when the change reads as a recovery and some group is newly eligible |
| AccountApply.BlockedGroupAppended | bin/_cctally_account.py:1227-1300 | that exception on a concrete store |
| AccountApply.EntryIs | bin/_cctally_account.py:849-905 | a group's plan entry by its own flags: it blocks on partial coverage, another account's evidence, foreign spend or one other owner, and is eligible exactly when nothing speaks against it and it is not already its own |
| AccountApply.StatusIs | bin/_cctally_account.py:1022-1037 | the preview is empty, refused, a no-op or something to apply exactly as the flags of the selected groups say |
| AccountApply.RetractionStatusIs | bin/_cctally_account.py:1022-1037 | a retraction is empty exactly when its range reaches no active assertion, and never refused |
| AccountApply.FlaggedGroupRefuses | bin/_cctally_account.py:1497-1523 | one selected group covered in part, with another account's evidence or with foreign spend leaves every store untouched at every stop |
| AccountApply.AppendedAreClean | bin/_cctally_account.py:978-1011 | every assertion a run appends, wherever it stops, is of a selected group with none of those flags, in scope and without native evidence |
| AccountApply.RecoveryIff | bin/_cctally_account.py:1173-1193 | the revalidation reads a change as a recovery exactly when something was wanted and each wanted group is now held by the account's own assertion alone |
| AccountApply.ApplyReports | bin/_cctally_account.py:1227-1406 | a drifted plan is a conflict and a blocking one refused, with nothing appended; any other apply is interrupted exactly by a stop inside it, recovered exactly when it had something to recover and appended nothing, and applied otherwise |
| AccountApply.StopsWhere | bin/_cctally_account.py:1227-1406 | the exact store a run with something to do leaves at each stop: the journal, table, stats and certificate as far as the steps before it went |
| AccountApply.RehydrateLands | bin/_cctally_account.py:1227-1260 | reconciling the tail lands every pending op and moves the revision with it |
| AccountApply.ActiveIs | bin/_cctally_account.py:1227-1260 | an assertion is active from its line on until a later line retracts it |
| AccountApply.RecordsAreOwn | bin/_cctally_account.py:978-1011 | the planned ops are one assertion per eligible group, or one retraction per reached assertion, each once |
| AccountApply.RecordsAre | bin/_cctally_account.py:978-1011 | the planned ops in order: an assertion for each wanted group, or a retraction for each reached assertion, oldest first |
| AccountApply.EveryStopIsRecoverable | bin/_cctally_account.py:1227-1406 | wherever a run stops, the store is one the same command can finish |
| AccountApply.RunsStayRecoverable | bin/_cctally_account.py:1227-1406 | the same after any number of interrupted runs |
| AccountApply.NoSelfRecovery | bin/_cctally_account.py:1173-1193 | an unchanged plan is never taken for a recovery |
| AccountApply.PendingIsPreviewed | bin/_cctally_account.py:1196-1224 | lines a crash left pending always give the next preview something to apply |
| AccountApply.FirstRerunLands | bin/_cctally_account.py:1227-1406 | one uninterrupted rerun leaves nothing pending |
| AccountApply.RunCompletes | bin/_cctally_account.py:1227-1406 | a run over a landed store makes journal, table, stats and certificate agree with every attributable group recorded or no reached assertion left |
| AccountApply.TwoRerunsRecover | bin/_cctally_account.py:1227-1406 | after any interrupted runs over any store two reruns agree on everything, with each attributable group recorded, by exactly one op where no other account claims a group and none was recorded twice before, or no reached assertion left |
| AccountApply.FinishedStoreIsLeftAlone | bin/_cctally_account.py:1022-1037 | on a finished store of which no group is claimed by another account every further run changes nothing |
| AccountApply.LeftAloneIff | bin/_cctally_account.py:849-905 | a finished store is left alone exactly when no other account claims a group the command may record |
| AccountApply.OneOpEachIff | bin/_cctally_account.py:849-905 | two runs over a landed store record each attributable group by one op exactly when no other account claims one and none is recorded twice already |
| AccountApply.ThreeRerunsIff | bin/_cctally_account.py:1227-1406 | the same after any interrupted runs, one rerun later |
| AccountApply.RunKeepsOneEach | bin/_cctally_account.py:978-1011 | a run wherever it stops never removes a second op for a group, and adds one only for a disputed group |
| AccountApply.DisputedIsAppended | bin/_lib_codex_window_attribution.py:144-228 | a group another account claims is asserted once more by every run that does not refuse it |
| AccountApply.EachRunAppendsOne | bin/_lib_codex_window_attribution.py:144-228 | a store on which everything agrees and every run, without end, appends one more assertion |
| AccountApply.SettledDisputeKeepsDuplicates | bin/_cctally_account.py:849-905 | once the other claim is gone the store is undisputed, agreed, recorded and left alone, with several ops for its group |
| AccountApply.Workspace.RehydrateTail | bin/_cctally_account.py:1227-1260 | the in-place reconciliation is the modelled replay |
| AccountApply.Workspace.ApplyPlan | bin/_cctally_account.py:1227-1406 | the in-place steps, stopped anywhere, leave the modelled store and status |
| AccountApply.Workspace.Attribute | bin/_cctally_account.py:1497-1523 | one command in place is the modelled run |
| AccountPlanner.SpendIndex | bin/_cctally_account.py:742-765 | the index is the rows, reordered by time |
| AccountPlanner.BisectLeft | bin/_cctally_account.py:785-792 | the cut parts the index at the instant |
| AccountPlanner.SpendSlice | bin/_cctally_account.py:785-792 | the bisect slice is the rows inside the half-open window |
| AccountPlanner.InWindowPermutes | bin/_cctally_account.py:785-792 | the window of a reordering is a reordering of the window |
| AccountPlanner.UnattributedPermutes | bin/_cctally_account.py:795-905 | counts do not depend on the index order |
| AccountPlanner.UnattributedIs | bin/_cctally_account.py:795-905 | the count is of the rows in the window without an account |
| AccountPlanner.GroupSpend | bin/_cctally_account.py:795-905 | counts and conflicts equal those of filtering the unsorted rows, and are those of the rows in the half-open window without an account and with another one |
| AccountPlanner.FillBuckets | bin/_cctally_account.py:795-905 | each group with an observation, and no other, has a bucket of exactly its own: as many, with their accounts and resets and whether any is model-scoped |
| AccountPlanner.BucketIs | bin/_cctally_account.py:795-905 | what a bucket says of its group, observation by observation |
| AccountPlanner.PlanGroup | bin/_cctally_account.py:795-905 | a group carries every refusal that applies and no other, each by the observations, rows and key it is about, and is eligible exactly when none does and nothing already says so |
| AccountPlanner.NeverWholeTwice | bin/_cctally_account.py:795-905 | no group is whole, so eligible, under two disjoint ranges |
| AccountPlanner.CoveringRangesReachIff | bin/_cctally_account.py:908-975 | every range that covers a whole group reaches its record exactly when the group has an observation before its anchor and one at or after its nominal start |
| AccountPlanner.RangeReachesItsRecord | bin/_cctally_account.py:908-975 | one observation inside the nominal window is enough for that |
| AccountPlanner.RangeMayMissItsRecord | bin/_cctally_account.py:908-975 | with every observation at or after the anchor, or every one before the start, some covering range misses the record |
| AccountPlanner.LateObservationIsMissed | bin/_cctally_account.py:908-975 | such a group and such a range |
| AccountPlanner.StraddlingGroupIsReached | bin/_cctally_account.py:908-975 | a group with observations before its start and after its anchor and none between is reached by every range that covers it |
| AccountLabels.GroupBy | bin/_cctally_account.py:152-168 | the groups part the rows by key, each in order |
| AccountLabels.LabelGroup | bin/_cctally_account.py:159-178 | within a collision group the plan discriminates where it is alone and the key prefix where it is not |
| AccountLabels.DisplayLabelMap | bin/_cctally_account.py:123-178 | every real account gets one label and no placeholder does; the label is name, email or key opening alone where no other real account shares that, and otherwise marked by a plan that stands out or the key opening |
| AccountLabels.LabelIsRead | bin/_cctally_account.py:109-178 | how a label reads off the rows' own names, emails, plans and keys |
| AccountLabels.InjectiveIff | bin/_cctally_account.py:123-178 | the map is injective exactly when no two accounts of one base share plan or prefix where those mark them, no unshared label is another's base and mark, and no base continues another into its mark |
| AccountLabels.SameLabelIff | bin/_cctally_account.py:123-178 | two accounts get one label exactly in those three cases |
| AccountLabels.LabelIsMarked | bin/_cctally_account.py:159-178 | a label is the base alone without a sibling, and otherwise the base marked with the plan where no sibling has it and with the key prefix where one does |
| AccountLabels.CollisionGroupIsSeparated | bin/_cctally_account.py:160-178 | with distinct key prefixes, and no plan equal to a sibling's prefix, two accounts of one case-insensitive base get different labels |
| AccountLabels.WholeMapIsInjective | bin/_cctally_account.py:123-178 | with distinct prefixes, no plan equal to a sibling's prefix, no name of a generated shape, and no parenthesis in the plan and prefix of an account whose base another one's runs on from with one, the whole map is injective |
| AccountLabels.DecoratedEqualIff | bin/_cctally_account.py:172-177 | two decorated texts are one exactly when their parts are, or one base runs on into the other's mark |
| AccountLabels.DocumentedClaimFails | bin/_cctally_account.py:123-152 | a family of populations in which two accounts share a label |
| AccountLabels.DocumentedClaimFailsOn | bin/_cctally_account.py:123-152 | such a population with distinct keys, distinct prefixes and plain discriminators |
| DashboardDayCache.NeededClosedDates | bin/_cctally_dashboard_cache_report.py:318-344 | exactly the dates from the window's start up to but not including today, ascending |
| DashboardDayCache.BuildCachedDays | bin/_lib_cache_report.py:1466-1528 | a date has a unit exactly when it has entries, and it is the fold of those in order |
| DashboardDayCache.SelectIs | bin/_lib_cache_report.py:1466-1528 | the entries of a date between two instants are those at exactly the places that qualify, each once, in table order |
| DashboardDayCache.UnitIs | bin/_lib_cache_report.py:1466-1528 | a unit is the fold of those entries in that order, and none without one |
| DashboardDayCache.Reconstruct | bin/_cctally_dashboard_cache_report.py:560-564 | rows come out in date order, one per real unit, none for a sentinel |
| DashboardDayCache.RowsList | bin/_cctally_dashboard_cache_report.py:560-564 | a row for each date with a unit and no other, oldest first |
| DashboardDayCache.RowsAgreeIff | bin/_cctally_dashboard_cache_report.py:560-564 | two assembled reports are equal exactly when they agree on every date's unit |
| DashboardDayCache.ClosedUnit | bin/_cctally_dashboard_cache_report.py:347-359 | a closed date lies wholly before now, so its unit no longer depends on the clock |
| DashboardDayCache.DayCache.constructor | bin/_lib_snapshot_cache.py:3411-3419 | an empty cache satisfies the invariant |
| DashboardDayCache.DayCache.Ingest | bin/_lib_snapshot_cache.py:3453-3530 | dropping every date from the watermark on keeps every kept unit the fold it was stored as |
| DashboardDayCache.DayCache.FullClear | bin/_lib_snapshot_cache.py:3500-3520 | a full clear is always safe |
| DashboardDayCache.DayCache.LookupAll | bin/_cctally_dashboard_cache_report.py:482-484 | the warm path is taken exactly when every needed date is cached |
| DashboardDayCache.DayCache.BuildToday | bin/_cctally_dashboard_cache_report.py:488-501 | fetching from today's midnight folds exactly today's entries |
| DashboardDayCache.DayCache.AssembleWarm | bin/_cctally_dashboard_cache_report.py:487-501 | closed dates come from the cache, today from the fetch, and nothing else |
| DashboardDayCache.DayCache.StoreClosed | bin/_cctally_dashboard_cache_report.py:521-547 | every closed unit and a sentinel per quiet needed date are stored, the open date never, and what is older than the window goes |
| DashboardDayCache.DayCache.AssembleCold | bin/_cctally_dashboard_cache_report.py:502-547 | the full-window fetch gives the true unit of every date, and the cache then holds them for every needed date and nothing older |
| DashboardDayCache.DayCache.OldestDecides | bin/_cctally_dashboard_cache_report.py:481-487 | with a clock that never stepped back every cached date but the oldest is exact |
| DashboardDayCache.DayCache.ExactUnlessStraddled | bin/_cctally_dashboard_cache_report.py:481-487 | the same of the oldest date's unit alone |
| DashboardDayCache.DayCache.UnstraddledIsExact | bin/_cctally_dashboard_cache_report.py:481-487 | every needed date is exact if, and for a fold that tells entry lists apart only if, no entry of the oldest one has left the window since it was folded |
| DashboardDayCache.DayCache.Shape | bin/_cctally_dashboard_cache_report.py:549-564 | an assembled report lists its units date by date, and is the full-window one exactly when every unit is |
| DashboardDayCache.DayCache.ScratchIs | bin/_cctally_dashboard_cache_report.py:502-564 | the full-window report is empty exactly without an entry in the window, and otherwise has a row for each date's unit |
| DashboardDayCache.DayCache.WarmTick | bin/_cctally_dashboard_cache_report.py:487-501 | the warm report lists the cached units of the closed dates and today's true one; it is the full-window one exactly when the window is not empty and the cached units are exact, which without a straddling entry they are |
| DashboardDayCache.DayCache.Build | bin/_cctally_dashboard_cache_report.py:397-564 | over every run a tick keeps the invariant; cold reports are always the full-window ones, warm ones list what is cached and are the full-window ones where no entry straddles, and only there for a telling fold; after a storing tick the cache holds the closed window and no open date |
| DashboardDayCache.LeavingChangesTheFold | bin/_cctally_dashboard_cache_report.py:481-501 | a date whose last entry leaves the window goes from a unit to none |
| DashboardDayCache.StraddledDayGoesStale | bin/_cctally_dashboard_cache_report.py:481-501 | two ticks without an ingest between them after which the warm report is not the full-window one |
| DashboardDayCache.StraddledTableIsStale | bin/_cctally_dashboard_cache_report.py:481-501 | two entries of a UTC calendar put through the cache whose warm report differs from the full-window one, for every fold |
| SoakTicks.Gather | bench/dashboard-soak.py:4800-4811 | the records are every polled numbered row, the latest for each number, and missing polls are counted |
| SoakTicks.GatheredIs | bench/dashboard-soak.py:4800-4811 | a number is recorded exactly when some poll carried it, with the last row carried under it |
| SoakTicks.GatheredIsPart | bench/dashboard-soak.py:4800-4811 | polls that show rows of a true log gather rows of that log |
| SoakTicks.Classify | bench/dashboard-soak.py:4812-4839 | each record falls in exactly one class, and the samples are the durations of the warm full ones inside the window |
| SoakTicks.LongestPeriod | bench/dashboard-soak.py:4854-4862 | the tail is covered exactly when some window tick's period reaches it |
| SoakTicks.NoGaps | bench/dashboard-soak.py:4846-4848 | as many distinct numbers as their span means none is missing |
| SoakTicks.WindowWasPolled | bench/dashboard-soak.py:4845-4853 | with head and gap checks passed every tick of the window up to its last number was polled |
| SoakTicks.CoverageProblems | bench/dashboard-soak.py:4843-4862 | no coverage problem is reported exactly when head, gaps and tail are covered |
| SoakTicks.WarmFullBuilds | bench/dashboard-soak.py:4786-4867 | the verdict counts each class, lists the samples in tick order, and says complete exactly when nothing is missing, unstamped or uncovered |
| SoakTicks.VerdictIs | bench/dashboard-soak.py:4812-4867 | the counts and samples by the records' own fields, and complete exactly when every poll carried records, none lacks what it needs, the window's numbers are a whole stretch whose predecessor lies before the window, and some period of theirs reaches from the last to the edge |
| SoakTicks.CompleteIsLossless | bench/dashboard-soak.py:4786-4867 | for any true tick log the polls showed parts of, complete means the samples are exactly the warm full ticks of the window up to its last number, and any later one is within the period of some window tick up to that number from the last poll |
| SoakReadiness.Observe | bench/dashboard-soak.py:3392-3417 | one observation's effect on the three variables, and when it ends the wait |
| SoakReadiness.ReportsIff | bench/dashboard-soak.py:3392-3417 | the wait ends exactly when this observation completes the pattern |
| SoakReadiness.AfterReflects | bench/dashboard-soak.py:3362-3417 | after every observation the three variables say exactly what the stream so far says |
| SoakReadiness.WaitForReady | bench/dashboard-soak.py:3360-3418 | readiness is reported at the first observation that completes the pattern, and never without one |
| SoakReadiness.ReadyMeans | bench/dashboard-soak.py:3360-3418 | a report implies caught up, then a full revalidation, then two caught-up passes of rising number and unchanged maintenance, settled throughout |
| TableLayout.ShiftedAllIs | bin/_cctally_cache_report.py:107-111 | a kept column is numeric after the drop exactly when it was before |
| TableLayout.DropFromColumns | bin/_cctally_cache_report.py:98-117 | the branches over the expanding, numeric and date indices compute the shifted columns |
| TableLayout.DroppedKeepsColumns | bin/_cctally_cache_report.py:98-117 | every kept column stays the same column under its new index: header, alignment and every role |
| TableLayout.DroppedKeepsCells | bin/_cctally_cache_report.py:98-104 | every kept cell of every row moves with its column |
| TableLayout.DropSaves | bin/_cctally_cache_report.py:78-98 | the drop saves exactly the column's floor and its border |
| TableLayout.FloorsAre | bin/_cctally_cache_report.py:78-86 | seven for figures, the given width for the expanding text column, ten for dates and eight for any other text |
| TableLayout.Widest | bin/_cctally_cache_report.py:200-209 | the column chosen is the first of the widest above their floors, the expanding one apart |
| TableLayout.Trim | bin/_cctally_cache_report.py:199-218 | the loop ends with the space exactly filled or every column at its floor, no column below its floor, the excess taken evenly from the widest and from the expanding column last |
| TableLayout.CompactWidths | bin/_cctally_cache_report.py:169-218 | every column takes the whole part of its share of the space, or its floor where that is more; what is left goes to the expanding column and what is lacking is trimmed; the space is filled exactly or every column is at its floor |
| TableLayout.ScaleAll | bin/_cctally_cache_report.py:169-189 | the shares alone, each by its bounds against the exact quotient |
| TableLayout.FillOrTrim | bin/_cctally_cache_report.py:190-218 | what becomes of the difference between the shares and the space |
| TableLayout.SumLowered | bin/_cctally_cache_report.py:217-218 | each round takes one cell off the total |
| TableLayout.SplitIsLossless | bin/_cctally_cache_report.py:225-226 | a text's lines joined by line breaks are the text, and no line holds one |
| TableLayout.PadIs | bin/_cctally_cache_report.py:304-311 | padding leaves the text whole and puts blanks on one side, in front of a right-aligned cell |
| TableLayout.SegmentsAre | bin/_cctally_cache_report.py:300-302 | a rule is dashes along each padded column and a crossing before every column but the first |
| TableLayout.JoinedWidth | bin/_cctally_cache_report.py:328-334 | padded cells between bars have the table's width |
| TableLayout.MakeRow | bin/_cctally_cache_report.py:313-334 | a row closes its border at the table's width, short rows padded with blank cells |
| TableLayout.HLine | bin/_cctally_cache_report.py:300-302 | a rule has the table's width |
| TableRender.TruncateDisplay | bin/_lib_fmt.py:316-347 | visible glyphs are cut to the width, escape sequences copied whole, and a text that fits is unchanged |
| TableRender.CutFits | bin/_lib_fmt.py:316-347 | a text that fits is kept, one that does not fills its width |
| TableRender.CutIs | bin/_lib_fmt.py:316-347 | a text too wide is kept up to the visible glyph that leaves one cell, escape sequences included, then a closing one where it has any, then the ellipsis |
| TableRender.ContentWidths | bin/_cctally_cache_report.py:133-146 | a row with surplus cells is refused, and otherwise each content width is the length of the longest line of its column, header included |
| TableRender.ContentIs | bin/_cctally_cache_report.py:133-146 | the same of the widths by rows and lines: none longer, and one that long |
| TableRender.WideWidths | bin/_cctally_cache_report.py:148-155 | every column is wider than its content, by alignment and role |
| TableRender.WideIs | bin/_cctally_cache_report.py:148-155 | the wide width is the greater of content with margin and the least width, three and eleven for figures, two and the given one for the expanding text, two and ten otherwise |
| TableRender.RenderCell | bin/_cctally_cache_report.py:365-384 | the compact-mode branches by role, then the colour, compute the cell's text on a line |
| TableRender.CellTextFits | bin/_cctally_cache_report.py:365-384 | that text never exceeds its column, in compact mode or where the line fits |
| TableRender.CellShows | bin/_cctally_cache_report.py:365-384 | what a line of a cell shows: all of it, or in compact mode a figure cut by its length and a text by its visible width, inside its colour whenever anything is shown |
| TableRender.FittingCellIsWhole | bin/_cctally_cache_report.py:365-384 | a line that fits is shown as it is |
| TableRender.RenderRow | bin/_cctally_cache_report.py:365-385 | a row takes as many lines as its tallest cell, each exactly its cells between bars and of the table's width |
| TableRender.LineCountIs | bin/_cctally_cache_report.py:266-275 | a row is as tall as its tallest cell |
| TableRender.CellStandsAt | bin/_cctally_cache_report.py:328-385 | each cell's padded text stands on its line right after the columns before it |
| TableRender.BlockStandsAt | bin/_cctally_cache_report.py:386-390 | every row's lines stand in their place, a rule between any two rows |
| TableRender.RenderBlocks | bin/_cctally_cache_report.py:386-388 | the rows come out in order, one block of lines each |
| TableRender.RenderHeaderRow | bin/_cctally_cache_report.py:356-362 | every header line has the table's width |
| TableRender.HeaderShows | bin/_cctally_cache_report.py:220-362 | a header line, its blanks turned to line breaks in compact mode and cut there by length, in colour |
| TableRender.HeaderHeightIs | bin/_cctally_cache_report.py:277-286 | the header is as tall as its tallest cell |
| TableRender.RenderTable | bin/_cctally_cache_report.py:355-391 | the table is its top rule, header lines, middle rule, rows with rules between and bottom rule, every line of one visible width |
| TableRender.RowStandsAt | bin/_cctally_cache_report.py:355-391 | every line of every row stands in the table below the header, in row order |
| TableRender.HeadStandsAt | bin/_cctally_cache_report.py:355-364 | the table opens with the top rule, the header lines in order and the rule below them |
| TableRender.RuleStandsAt | bin/_cctally_cache_report.py:386-390 | a rule stands below each row's lines, and the bottom rule ends the table |
| TableRender.ScanIs | bin/_cctally_cache_report.py:234-243 | the scan for flagged dates stops at the first data row whose date cell is missing or opens, escape sequences aside, with a warning glyph |
| TableRender.SplitsIff | bin/_cctally_cache_report.py:234-250 | dates are split in compact mode exactly when the scan meets no flagged data row |
| TableRender.ShownIs | bin/_cctally_cache_report.py:245-264 | only cells of the date column that read as a date are broken behind the year, and only where the table splits them |
| TableRender.Narrowed | bin/_cctally_cache_report.py:78-117 | the droppable column goes exactly when even the floors do not fit |
| TableRender.FitWidths | bin/_cctally_cache_report.py:155-218 | wide widths fit the terminal; compact ones equal it or the least possible width and are the wide ones' shares of it, filled up or trimmed |
| TableRender.Layout | bin/_cctally_cache_report.py:34-391 | the whole table is that of the kept columns and rows with the reflow the scan allows, no wider than the terminal unless its floors are, exactly as wide in compact mode; it fails exactly on a surplus cell or a data row without its date cell |
| ProcessTree.ReadSnapshot | bench/explain-benchmark.py:390-398 | the maps hold exactly the parent relation and each process's last memory figure |
| ProcessTree.ClosedHoldsReachable | bench/explain-benchmark.py:399-406 | a set closed under children that holds the root holds everything reachable |
| ProcessTree.Explore | bench/explain-benchmark.py:399-406 | the loop ends, cycles included, having visited exactly the reachable processes |
| ProcessTree.TotalWithout | bench/explain-benchmark.py:407-407 | the total does not depend on the order of adding up |
| ProcessTree.ProcessTreeSample | bench/explain-benchmark.py:384-407 | the sample is the memory of exactly the reachable processes and their count less the root |

## Left out

- SQLite transactions, file locks and fsync: maps and sequences, a held-lock assumption, and a durable-or-lost choice at each crash.
- Segments and byte offsets of the journal are line positions; partial last lines and segment rotation are not modelled.
- JSON bytes outside the batch lengths, SHA-256 keys, ISO instants and time-zone rules: abstract keys and integer instants; a date's length is arbitrary.
- Five-hour planning, scratch replays, retention and the preservation of non-derivable state are parameters of the append policy: a handled set, target events, and an idempotent preserving function.
- Spend reconciliation rows, JSON payloads and text rendering of the attribution command.
- The deferral markers and preservation bookkeeping documents of the attribution store.
- Floating-point sums of costs, pricing, the anomaly classifier and the project rollup: a date's fold is an abstract function of its entries.
- The seq-gated signature comparison of the cache reconciliation is two steps, a watermark ingest and a full clear.
- AttributionPreserve.Cache.AlignRow: the earliest timestamp that goes with a row's mutation number is not modelled.
- CompletionRounds.Completion.CompleteWindow: which inputs derive a decision is given, one decision per such input, where the original finds out by replaying the window; what each decision says is CompletionPolicy's subject.
- CompletionRounds.Completion.Interfere: what recorders append is arbitrary but finite at each point where the original can be overtaken.
- DashboardDayCache.DayCache.Ingest: takes the watermark's promise as its precondition, because the query that computes it is outside the cache.
- SoakTicks.CompleteIsLossless: after the last sampled number a tick can still be missed near the edge of the window; the claim bounds where.
- SoakTicks.WarmFullBuilds: durations stay in nanoseconds and the percentiles of the samples are not computed.
- SoakReadiness.WaitForReady: the deadline is the length of the observation stream; probing, sleeping and the file check behind the dormant-maintenance test are not modelled.
- TableRender.Layout: what counts as a decimal digit in a date is a parameter, and the banner is not modelled.
- TableRender.RenderCell: raw truncation counts an escape sequence as one character, where the original counts each of its characters.
- TableLayout.CompactWidths: a share is the whole part of an exact quotient, where the original multiplies by a rounded scale.
- AccountLabels.LabelGroup: visits a collision group in row order rather than plan group by plan group, which a map cannot tell apart.
- AccountApply.TwoRerunsRecover: speaks of commands without a blocking group, because a blocking group refuses every rerun, and of lines left pending by the same command.
- AccountApply: split and dormant outcomes of the resolution are not told apart from an absent owner, and other accounts' assertions do not change between reruns.
- CompletionPolicy.PlanningAgainIsEmpty: the later round's two replays are given by what they decide, not by replaying the journal.
- ProcessTree.ReadSnapshot: fields are integers already; a field that is not a number stops the original with an error.
- The receipt evaluators, the full-build gate and the other bounds checks of the benchmarks: independent comparisons, each settled by reading one branch.
- Subprocesses, HTTP, signals and timing probes of the benchmarks, the alert, diff and codex command modules, and the web files.
