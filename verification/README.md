# Verified models of the indexer store, the address codec and the graph layout

This project restates the stateful core of the repository in Dafny and proves what that code is for.
Each module follows one part of the program:

- `JobTable`, `JobRuns`, `JobRaces`, `JobLaws`, `JobQueue`: the job table, its cached counters, the admission check with its latch,
  and the claim protocol of `packages/db/src/store.ts`. `JobTable` says what each operation means on plain rows;
  the class `JobQueue.JobStore` performs it step by step with its cached counters and clamps; `JobRuns` proves
  safety over whole runs, and `JobRaces` for enqueues whose admission check and `INSERT` are apart; `JobLaws` says who
  joins and which row changes how in terms of counts, limits and fields alone.
- `LedgerTable`, `HackStats`, `EdgeBatch`, `LedgerBook`, `LedgerLaws`, `Ledger`: addresses and edges, with the per-hack
  statistics, the active-hacker count, the per-address sums, the grand total and the peak table kept beside them by
  increments. `LedgerBook` says what each method does to tables and figures, from any state; the class
  `Ledger.LedgerStore` performs it loop by loop; `LedgerLaws` says which edges and fields are left, and which rows a
  recount counts. `LedgerSteps`, `LedgerEdges` and `LedgerRepairs` prove which figure
  each method keeps exact, and exactly when it does not, for all inputs; `LedgerBatches` says which edge batches the
  figures follow, in terms of the rows alone; `LedgerRuns` proves each figure by itself over whole runs.
- `TopVictims`, `KeysetPaging`, `PageBoundaries`, `GraphWalks`: the top-victim lookup in its three forms, the
  cursor over out-edges, and the two worklist walks.
- `TickLease`, `RateLimit`, `SchedulerCache`, `QuotaMeter`: the tick lease as a transition system, the request
  limiter, the write-through cache of the scheduler row, and the row meter with its flush.
- `Base58`, `ConvertBits`, `WitnessGroups`, `Bech32`, `Bech32Values`, `Bech32Errors`, `AddressCodec`, `AddressBytes`,
  `LegacyTexts`: the address text codec of `local-private/scanner/src`. `Bech32Values` and `AddressBytes` say in
  integers and letters what a text holds and what its checksum covers.
- `HopDepth`, `Layout`, `GridLaws`: breadth-first hop depths and the node grids of
  `apps/web/src/lib/layoutGraph.ts`, with where nodes are relative to one another and to the anchor.
- `Positional`, `TableSums`, `Wrappers`: numerals, sums over the rows of a map, options.

A table is a map, and one SQL statement is one atomic step; a `SELECT` with an aggregate is a loop over the rows
that is proved to return the recount. Times, clocks, statement costs and the hash functions are parameters.
A counter column is proved equal to a recount of the table at every step, so the `MAX(0, ...)` clamps are shown
never to change a value on the paths where the figure is exact.

## What does not hold as one might expect

The code is modelled as it is. Where an expected property fails, a lemma or a contract gives the exact condition:

- A Base58 string of zero bytes alone does not come back: it gains two zero bytes (one from the encoder, one from
  the decoder). `Base58.RoundTrip` shows that these are the only exceptions, `AddressCodec.AddressRoundTrip` what
  that means for addresses: an address would be lost only if its hash and its SHA-256 checksum were all zero, and no
  such input is known. The decoder also takes the character NUL as a digit of value 58, since `strchr` finds
  the terminator of the alphabet; `LegacyTexts.LegacyExact` says which texts give a legacy key then, and
  `LegacyLettersExact` that without NUL it is the address alone.
- The per-hack statistics are exact after `upsertAddress` if and only if the change is not one of those described by
  `LedgerTable.Misses`: a total overwritten under an unchanged hack id, or an active flag that changes in the same
  upsert that moves a flagged address to another hack, and does not take a hack's sats below zero, where the clamp
  would hold them (`HackStats.HeldAtZero`). In the second case of `Misses` the clamp hides the double decrement when
  the old hack had one active hacker only. `LedgerRepairs.OverwriteMissed` and `MoveMissed` show stores where it
  happens, and `MissesCompensate` a batch in which two such changes make up for each other.
- An edge batch upsets the statistics if and only if some delta, when its turn comes, takes the sats of its hack below
  zero: a negative total by itself does no harm, as long as the other totals of the hack make up for it
  (`LedgerEdges.BatchStats`). `LedgerBatches.TracedAgainUpsets` shows such a batch. Orderly batches of positive
  amounts never do so while no total is below its edges (`LedgerBatches.CoveredFollows`).
- A batch that writes a key twice in one chunk, or turns the direction of an edge, can leave grand total, totals,
  inbound sums and peaks wrong: the differences are taken against the amounts read before the write, for the directions
  in the batch. `computeHackTraceEdges` and `applyHackTraceEdgesChunk` build such batches when a downstream address
  pays a flagged hacker: the payment is a row `in_to_hacker` and again a row `out_from_hacker`
  (`packages/core/src/graph/builder.ts:464-530` and `740-750`). `LedgerBatches.BothWaysMissed` shows that the incoming
  amount then stays in grand total, total and peak although the edge is gone, and `TracedAgainUpsets` that tracing the
  payment again takes the outgoing amount back from the total. By how much each sum drifts, for any batch, is
  `LedgerEdges.BatchDrift`; `BatchKeeps` says that it stays exact if and only if it does not drift, and for rows whose
  keys are new to the table `LedgerBatches.NewChunkExact` that this is so if and only if no row that counts for it is
  written again in the chunk; the peaks are then exact if and only if an edge reaches each incoming row.
- `recalcTotalReceived` repairs the total and the per-hack statistics, unless the loss takes the sats of the hack below
  zero, which cannot happen without negative totals, but leaves `hackerActiveCount` as it was; the
  count stays exact if and only if the repair does not change whether the address is active
  (`LedgerRepairs.RepairLeavesCount` shows a store where it does).
- The two deletions of edges update neither the grand total nor the peaks: both go stale if and only if an incoming
  edge goes, and the totals if and only if one of an address with a row goes. The victim lookup then names stale
  payers (`TopVictims.StalePeakNamed`).
- The caps on active jobs hold for enqueues one after another. The code awaits between the admission check and the
  `INSERT`, so several enqueues can pass one check: with no more than m of them in between at any time, a cap is
  exceeded by at most m - 1 (`JobRaces.OvershootBounded`), and that many can be reached (`OvershootReached`).
- `failJob` and `deferJob` on a finished job revive it without counting it; on active jobs they are exact.
- Out-edges of one parent with equal amount and target are skipped by the cursor when a page ends between them.
  Paging is complete for a page size if and only if no page does, and for every page size if and only if there are
  no such ties; with a page size of one, every tie loses an edge.
- A limit below one still lets through one request per window.
- A tick that outlives its lease lets another one in, and when it clears late it frees the lease of that other tick,
  so a third can join.
- The decoder regroups without looking at the bits it drops: a witness text with one needless group gives the same
  key, although BIP 173 forbids it (`AddressCodec.ExtraGroupAccepted`).
- In the hacker layout, a victim cluster is placed by a call of its own and always covers part of a victim's
  rectangle when there are victims too. The graphs built by `packages/core/src/graph/builder.ts` and
  `graphPaged.ts` in the same directory hold a cluster or victims, never both.

## Model

| member | source | states |
|---|---|---|
| JobQueue.JobStore.constructor | packages/db/src/store.ts:3229-3281 | An empty store starts with every cached counter equal to its recount. |
| JobQueue.JobStore.CountRows | packages/db/src/store.ts:3539-3547 | Counting rows one at a time returns the recount of the table, for any status or type asked for. |
| JobQueue.JobStore.CountActiveJobsForAddress | packages/db/src/store.ts:2602-2611 | The count cut off by LIMIT reaches the cap exactly when the recount does. |
| JobQueue.JobStore.ShouldAllowEnqueue | packages/db/src/store.ts:613-654 | Although it reads cached counters, the check admits exactly the jobs a recount of the table would admit, and sets the latch exactly when depth is reached; JobLaws.JoinsExact and LatchExact say which these are. |
| JobQueue.JobStore.EnqueueJob | packages/db/src/store.ts:2513-2534 | The table moves as the specification says, an id is returned just for an insertion, and all counters still equal the recounts; JobLaws.JoinsExact says when that is, and what row it is. |
| JobQueue.JobStore.EnqueueJobIfAbsent | packages/db/src/store.ts:2540-2576 | The same with the duplicate search in it; JobLaws.JoinsExact says what a duplicate is. |
| JobQueue.JobStore.MarkJobRunning | packages/db/src/store.ts:2717-2730 | A claim succeeds exactly on a pending job, which then runs; the counters stay equal to the recounts. |
| JobQueue.JobStore.CompleteJob | packages/db/src/store.ts:2858-2895 | Finishing a job from any status, or an unknown one, keeps the counters equal to the recounts. |
| JobQueue.JobStore.FailJob | packages/db/src/store.ts:2897-2913 | The counters stay exact if and only if the job is unknown or still active. |
| JobQueue.JobStore.DeferJob | packages/db/src/store.ts:2916-2932 | The counters stay exact if and only if the job is unknown or still active. |
| JobQueue.JobStore.ReclaimRow | packages/db/src/store.ts:2947-3002 | One stale row returns to pending, or is put off after enough reclaims without progress, with exact counters. |
| JobQueue.JobStore.ResetRunningJobs | packages/db/src/store.ts:2947-3002 | The loop over stale rows equals reclaiming all of them at once, in any order, with exact counters. |
| JobQueue.JobStore.DeleteActiveJobsForAddress | packages/db/src/store.ts:5753-5774 | Deltas collected before the deletion leave every counter equal to its recount after it. |
| JobQueue.CountsOfRows | packages/db/src/store.ts:5754-5768 | The collected deltas are minus the recounts of the rows that go. |
| JobQueue.JobStore.DeleteActiveJobs | packages/db/src/store.ts:5776-5798 | Setting all counters to zero agrees with the recount of what is left. |
| JobQueue.JobStore.PruneDoneJobs | packages/db/src/store.ts:4481-4495 | Pruning any finished rows needs no counter change. |
| JobQueue.PrunedTally | packages/db/src/store.ts:4481-4495 | No count sees finished rows, so any set of them may go. |
| JobQueue.JobStore.SetQueueSchedulingPaused | packages/db/src/store.ts:665-667 | Only the latch changes. |
| JobQueue.JobStore.MaybeClearQueueSchedulingPause | packages/db/src/store.ts:674-680 | The latch comes off exactly when the true pending depth is at or below the resume depth. |
| JobQueue.JobStore.Reconcile | packages/db/src/store.ts:3539-3572 | From any counter values, the recount makes all counters exact and leaves the table alone. |
| JobRuns.CapsHold | packages/db/src/store.ts:613-654 | Over every run of whole operations without bypass, active expand jobs, globally and per address, and active audits never exceed their caps. |
| JobRuns.CapsStep | packages/db/src/store.ts:631-648 | No single operation takes the table over a cap. |
| JobRuns.ActiveGrowsByInsertion | packages/db/src/store.ts:2513-2576 | For any count of active jobs, claims, failures, reclaims, deletions and the like add nothing. |
| JobRuns.AtMostOneOverflow | packages/db/src/store.ts:613-680 | Between two clears of the latch at most one job that is not a backfill continuation is inserted at full depth, and none once the latch is on. |
| JobRuns.LatchedInsertsContinue | packages/db/src/store.ts:622-629 | While the latch stays on, every row that joins the table is a backfill continuation. |
| JobRuns.KeepsPayloads | packages/db/src/store.ts:2513-2576 | No operation changes the type or payload of a row. |
| JobRuns.OnlyMatch | packages/db/src/store.ts:2540-2576 | A job enqueued only if absent, under a type and address of its own, is the one active match afterwards. |
| JobRuns.PendingByRelease | packages/db/src/store.ts:2897-3002 | A job that was not pending and later is has been failed, deferred or reclaimed in between. |
| JobRuns.OneClaimer | packages/db/src/store.ts:2717-2749 | In every interleaving two claims of one job cannot both succeed without a release between them. |
| JobRaces.OvershootBounded | packages/db/src/store.ts:613-648 | When admission check and INSERT are separate steps of interleaved enqueues, of which at most m are in between at any time, no cap is exceeded by more than m - 1 at any step. |
| JobRaces.CheckThenFinish | packages/db/src/store.ts:2513-2576 | With nothing in between, the two steps of an enqueue are the one of the job table. |
| JobRaces.OvershootReached | packages/db/src/store.ts:2513-2534 | From every table one job below the global cap, with the depth not reached, m enqueues in flight at once take it m - 1 beyond the cap: the bound is sharp. |
| JobLaws.TallyCounts | packages/db/src/store.ts:3539-3572 | Each recount is the number of the rows it names: pending ones, unfinished ones of a type, and those at an address. |
| JobLaws.JoinsExact | packages/db/src/store.ts:613-654 | An enqueue adds its row, pending and with nothing noted yet, if and only if it bypasses, continues a backfill under the latch, or with the latch off finds every count of its type below its cap and the depth below the maximum (a continuation at any depth), and no unfinished duplicate is there. |
| JobLaws.BackfillJoins | packages/db/src/store.ts:636-638 | Over every run, a backfill that is no continuation joins without bypass only while the latch is off and active backfills are below their cap. |
| JobLaws.BackfillsBounded | packages/db/src/store.ts:622-638 | Over every run without bypass, active backfills exceed their cap by no more than the continuations that joined. |
| JobLaws.LatchExact | packages/db/src/store.ts:613-680 | The latch goes on with a check at full depth that no cap turns away, and comes off by hand or at the resume depth, never otherwise. |
| JobLaws.ClaimEffect | packages/db/src/store.ts:2717-2730 | A claim changes status, start and end of a pending job, and nothing of any other. |
| JobLaws.CompleteEffect | packages/db/src/store.ts:2858-2895 | A finished job has its end, keeps its start and attempts and forgets its reclaims. |
| JobLaws.PutBackEffect | packages/db/src/store.ts:2897-2932 | A failed job is pending again with one attempt more, a deferred one with none, both from the given time. |
| JobLaws.ReclaimEffect | packages/db/src/store.ts:2943-3002 | Exactly the running jobs whose start is unknown or long enough ago go back; one that has made no progress for as many reclaims as allowed is put off and starts over, any other notes reclaim and progress. |
| JobLaws.DeleteEffect | packages/db/src/store.ts:5753-5798 | Which rows each deletion leaves, unchanged. |
| JobLaws.ShapesHold | packages/db/src/store.ts:2717-3002 | Over every run that revives no finished job, a pending row has no start, a running one has, and just the finished ones have an end. |
| LedgerTable.SumPut | packages/db/src/store.ts:1072-1097 | Writing one edge moves each sum over the table by the difference of its weights. |
| LedgerTable.SumKept | packages/db/src/store.ts:5595-5612 | Deleting edges leaves those sums alone to which they did not contribute, and of positive amounts never raises one. |
| LedgerLaws.EdgeSums | packages/db/src/store.ts:1305-1357 | Each sum over the edges adds up the amounts of the edges its query selects. |
| LedgerLaws.AddressSums | packages/db/src/store.ts:4671-4698 | The recounts count flagged addresses with a positive total, all or by hack, and add up flagged totals by hack. |
| HackStats.CountStepExact | packages/db/src/store.ts:3421-3461 | The hacker count per hack agrees with a recount after a row change if and only if the change is not a missed one across hacks. |
| HackStats.SatsStepExact | packages/db/src/store.ts:4742-4765 | The sats per hack agree with a recount after a row change if and only if the change is neither an overwritten total within one hack nor held at zero by the clamp, from any exact figures that are not negative. |
| HackStats.StepExact | packages/db/src/store.ts:3421-3461 | Both statistics stay exact over a row change if and only if it is neither one the update misses nor one the clamp holds at zero; flags, hack ids and totals, negative ones too, may change. |
| HackStats.NeverHeld | packages/db/src/store.ts:4742-4765 | Without negative totals the clamp holds nothing. |
| HackStats.TotalStepExact | packages/db/src/store.ts:1261-1337 | From figures no lower than the recount, a new total ends in exact statistics if and only if they were exact and it does not take its hack's figure below zero: what is too high stays too high. |
| HackStats.NoOverdraft | packages/db/src/store.ts:4708-4732 | While no total is negative no new total does that. |
| Ledger.LedgerStore.constructor | packages/db/src/store.ts:1017-1143 | All figures of an empty store are exact. |
| Ledger.LedgerStore.ReconcileHackStatsForAddress | packages/db/src/store.ts:4742-4765 | The two statistics move as the step functions say, which are proved against the recount. |
| Ledger.LedgerStore.ApplyAddressStatsDelta | packages/db/src/store.ts:3421-3469 | From any state, the calls move the three figures as the specification says that is compared with recounts below. |
| Ledger.LedgerStore.UpsertAddress | packages/db/src/store.ts:686-764 | From any state, the row is merged field by field and its change accounted for; see LedgerLaws.UpsertFields and LedgerSteps.UpsertKeeps. |
| Ledger.LedgerStore.InsertAddressIfMissing | packages/db/src/store.ts:767-801 | From any state, an existing row is left alone with all figures, and a new one is written and accounted for. |
| Ledger.LedgerStore.UpsertAddressesBatch | packages/db/src/store.ts:922-1015 | From any state, all rows are written before any is accounted for, each address once, last row first; see LedgerLaws.BatchFields and LedgerSteps.UpsertManyKeeps. |
| Ledger.LedgerStore.ApplyTotalReceivedDelta | packages/db/src/store.ts:1261-1291 | From any state and for any delta, total, statistics and active count move as the specification says; see LedgerEdges.TotalMovedKeeps. |
| Ledger.LedgerStore.RecalcTotalReceived | packages/db/src/store.ts:1305-1337 | From any state the total becomes the sum over the edges, the statistics follow and the active count does not; see LedgerRepairs.RecalcKeeps. |
| Ledger.LedgerStore.SumQuery | packages/db/src/store.ts:1305-1316 | The aggregate returns the sum over the table. |
| Ledger.LedgerStore.ApplyInboundSatsDelta | packages/db/src/store.ts:1201-1216 | Only the inbound sum of a present row moves, by the delta. |
| Ledger.LedgerStore.RecalcInboundSats | packages/db/src/store.ts:1346-1357 | The inbound sum of a present row becomes the sum over the edges. |
| Ledger.LedgerStore.UpsertChunk | packages/db/src/store.ts:1021-1141 | From any state, the write of a chunk and its four loops over deltas and peaks compose to one step; see LedgerEdges.ChunkRows, ChunkKeeps and ChunkPeaks. |
| Ledger.LedgerStore.UpsertEdgesBatch | packages/db/src/store.ts:1017-1143 | From any state and for any rows, the chunks follow one another on the tables the last one left, and the grand total moves once; see LedgerEdges.BatchKeeps, BatchStats and BatchPeaks. |
| Ledger.ChunkDeltas | packages/db/src/store.ts:1072-1089 | The deltas are collected per target in insertion order, with the differences added up. |
| EdgeBatch.OrderlyDrift | packages/db/src/store.ts:1072-1089 | In a chunk in which a key of the table has one row of its direction, while new keys may repeat, no sum drifts unless a row that counts for it is written again; with positive amounts it drifts if and only if one is, and upwards. |
| EdgeBatch.OldEdgeFound | packages/db/src/store.ts:1023-1046 | When no direction in the table is turned, every row's old edge is the one that was read before the write. |
| EdgeBatch.PeaksStart | packages/db/src/store.ts:1070-1141 | Exact peaks before the write satisfy the loop's invariant against the table already written. |
| EdgeBatch.PeaksNext | packages/db/src/store.ts:1126-1199 | One peak update, run against a table in which later rows are already written, keeps that invariant, keys repeated in the chunk included, when an edge reaches each incoming row. |
| EdgeBatch.PeaksEnd | packages/db/src/store.ts:1126-1199 | After the last row each peak is the maximum of its pair, and every pair with an edge has one. |
| EdgeBatch.StableAfterChunk | packages/db/src/store.ts:1021-1022 | The conditions on directions carry over to the next chunk. |
| Ledger.LedgerStore.MaxQuery | packages/db/src/store.ts:1175-1186 | The aggregate is the largest amount of the pair, or zero for a pair without edges, for any amounts. |
| Ledger.LedgerStore.ApplyHackerVictimPeakDelta | packages/db/src/store.ts:1145-1199 | A peak is raised, kept, recomputed or removed, by the old and the new amount, for any amounts. |
| Ledger.LedgerStore.ApplyPeaks | packages/db/src/store.ts:1126-1199 | The loop makes one such move for each incoming row, in order. |
| Ledger.LedgerStore.DeleteEdgesTouchingAddress | packages/db/src/store.ts:5595-5612 | From any state, just the edges from or to the address go, their number is returned, and the targets of outgoing ones are recounted; see LedgerLaws.DeleteTouchingExact and LedgerRepairs.DeleteTouchingKeeps. |
| Ledger.LedgerStore.DeleteHackTraceEdges | packages/db/src/store.ts:1365-1371 | From any state, just the edges of the two tracked directions go and all inbound sums become zero; see LedgerRepairs.DeleteTraceKeeps. |
| LedgerLaws.UpsertFields | packages/db/src/store.ts:686-751 | After an upsert a given field is written and an absent one kept, or at its default in a new row; no other address changes. |
| LedgerLaws.BatchFields | packages/db/src/store.ts:922-995 | After a batch each field of an address is the last value given for it in the batch, or what it was. |
| LedgerLaws.ReadBefore | packages/db/src/store.ts:1023-1050 | Exactly the edges with the transaction of a tracked row and the direction of a tracked row are read before the write. |
| LedgerLaws.PeakEffect | packages/db/src/store.ts:1145-1199 | One change of an amount moves the peak of its pair alone, for any amounts: none of zero or less, a rise up to the new amount, and a loss that reaches the peak to the largest edge left, if it is positive. |
| LedgerLaws.DeleteTouchingExact | packages/db/src/store.ts:5595-5612 | An edge is left if and only if neither end is the address; only targets of outgoing edges that go get a new inbound sum, and no other figure changes. |
| LedgerLaws.DeleteTraceExact | packages/db/src/store.ts:1365-1371 | An edge is left if and only if its direction is not tracked; only inbound sums change. |
| LedgerSteps.UpsertKeeps | packages/db/src/store.ts:686-764 | One upsert, each figure by itself: the hack statistics stay exact if and only if the change is neither missed nor held at zero, the active count always, totals if and only if the total is the sum, inbound sums if and only if a new row has no outgoing edge to it yet. |
| LedgerSteps.TotalKept | packages/db/src/store.ts:3421-3461 | Without negative totals, a change that keeps the total is neither missed nor held at zero, whatever flag and hack id do. |
| LedgerSteps.PartStep | packages/db/src/store.ts:998-1013 | Accounting for one address of a batch brings the statistics from exact on the rows done so far to exact on one more, although all rows are already written, if and only if its change does not upset them. |
| LedgerSteps.RowsKeep | packages/db/src/store.ts:998-1013 | The loop over a batch does so for every address once, in any repetition of addresses. |
| LedgerSteps.UpsertManyKeeps | packages/db/src/store.ts:922-1015 | A batch keeps the active count always, and the hack statistics when no address upsets them at its turn. |
| LedgerSteps.PlainHarmless | packages/db/src/store.ts:922-1015 | That is so for every batch that overwrites no existing total, without negative totals. |
| LedgerEdges.CollectedDrift | packages/db/src/store.ts:1072-1089 | For any rows and any amounts read before, the deltas collected per address and the grand delta are the changes of the sums over the table plus the drift. |
| LedgerEdges.TotalMovedKeeps | packages/db/src/store.ts:1261-1291 | One delta keeps the active count always, and ends in exact hack statistics if and only if they were exact and it does not overdraw its hack's figure. |
| LedgerEdges.TotalsMovedKeep | packages/db/src/store.ts:1091-1094 | The deltas of a chunk, applied one after the other, keep the statistics if and only if, adding them up hack by hack, none ever takes the sats of a hack below zero. |
| LedgerEdges.SolventDeltas | packages/db/src/store.ts:1091-1094 | That is so for deltas that leave no total negative. |
| LedgerEdges.ChunkRows | packages/db/src/store.ts:1021-1097 | For any rows, totals and inbound sums move by exactly what the sums over the edges move, and the drift. |
| LedgerEdges.ChunkKeeps | packages/db/src/store.ts:1021-1097 | A chunk keeps the active count always, and ends in exact statistics if and only if they were exact and no delta takes the sats of its hack below zero. |
| LedgerEdges.PeaksMovedExact | packages/db/src/store.ts:1126-1199 | Although each move runs against a table in which all rows of the chunk are written, exact peaks are exact again after the loop when an edge reaches each incoming row, and only then if no row lowers an amount; keys may repeat. |
| LedgerEdges.BatchKeeps | packages/db/src/store.ts:1017-1143 | After any batch, each figure by itself: exact totals, inbound sums and the grand total stay exact if and only if their drift over the chunks is zero, or, for the grand total, is taken up by the clamp at zero. |
| LedgerEdges.BatchStats | packages/db/src/store.ts:1017-1143 | After any batch, the active count stays exact, and the statistics if and only if no delta of any chunk, at its turn, takes the sats of its hack below zero. |
| LedgerEdges.BatchPeaks | packages/db/src/store.ts:1126-1199 | After a batch of positive amounts, exact peaks stay exact when in each chunk no direction in the table is turned and an edge reaches each incoming row. |
| LedgerBatches.OrderlyFollows | packages/db/src/store.ts:1017-1143 | For an orderly batch of positive amounts, totals, inbound sums and grand total follow it if and only if no chunk writes a row again that counts for them. |
| LedgerBatches.ValidBatchFollows | packages/db/src/store.ts:1017-1143 | All sums and peaks follow a batch with no key twice in a chunk and one direction for each key. |
| LedgerBatches.CoveredFollows | packages/db/src/store.ts:1017-1143 | While no total is below its edges, an orderly batch of positive amounts keeps it so and takes the sats of no hack below zero. |
| LedgerBatches.NewChunkExact | packages/db/src/store.ts:1021-1143 | For a chunk of keys new to the table with positive amounts, each sum stays exact if and only if no row that counts for it is written again in the chunk, the peaks if and only if an edge reaches each incoming row. |
| LedgerBatches.BothWaysMissed | packages/core/src/graph/builder.ts:464-530 | The two rows of a payment by a downstream address to a flagged hacker, on a store with exact figures: the incoming amount stays in grand total, total and peak although its edge is gone. |
| LedgerBatches.TracedAgainUpsets | packages/core/src/graph/builder.ts:740-750 | The same rows again: a total falls below zero, and the hack statistics are no longer the recounts. |
| LedgerRepairs.RecalcKeeps | packages/db/src/store.ts:1305-1337 | From totals however far off, the repair keeps the hack statistics exact if and only if it does not take the sats of the hack below zero, which it never does without negative totals; it keeps the active count if and only if the address stays active or inactive. |
| LedgerRepairs.RecalcInboundKeeps | packages/db/src/store.ts:1346-1357 | Repairing an inbound sum touches no other figure. |
| LedgerRepairs.DeleteTouchingKeeps | packages/db/src/store.ts:5595-5612 | Recounting just the targets that lose an edge keeps all inbound sums exact, for any amounts; with positive amounts grand total and peaks stay exact if and only if no incoming edge goes, totals if and only if none of an address with a row goes; statistics and active count are not touched. |
| LedgerRepairs.DeleteTraceKeeps | packages/db/src/store.ts:1365-1371 | Inbound sums are exact afterwards whatever they were; for grand total, peaks and totals the same conditions hold. |
| LedgerRepairs.DeletedPeaks | packages/db/src/store.ts:5595-5612 | When the edges of a pair go or stay together, peaks that nothing updates are exact if and only if no incoming edge goes. |
| LedgerRepairs.OverwriteMissed | packages/db/src/store.ts:4742-4765 | A store and an upsert that show a missed change: the total of an active hacker is overwritten. |
| LedgerRepairs.MoveMissed | packages/db/src/store.ts:3421-3461 | Another: a hacker that becomes active while it moves is counted twice by its new hack. |
| LedgerRepairs.RepairLeavesCount | packages/db/src/store.ts:1305-1337 | A store in which the repair makes an address inactive and the active count wrong. |
| LedgerRepairs.MissesCompensate | packages/db/src/store.ts:998-1013 | A batch of upserts whose two missed changes make up for each other. |
| LedgerRuns.SoundStep | packages/db/src/store.ts:686-1371 | From exact statistics, an upsert, insert, edge batch, repair or deletion ends in exact ones if and only if it is neither missed nor held at zero; a batch of upserts if no address of it is. |
| LedgerRuns.HackStatsHold | packages/db/src/store.ts:686-1371 | Over every run of such operations, edge batches of any rows included, the hack statistics are the recounts at every step, whatever the active count and the other figures are. |
| LedgerRuns.HackStatsHoldExact | packages/db/src/store.ts:686-1371 | In runs without batches of upserts they are the recounts at every step if and only if every step is accounted for. |
| LedgerRuns.CarefulHold | packages/db/src/store.ts:686-1371 | Over every run in which no existing total is overwritten, new totals cover their edges and edge batches are orderly and positive, the statistics are the recounts at every step and no total is below its edges. |
| LedgerRuns.ActiveStepExact | packages/db/src/store.ts:686-1371 | Any operation keeps the active count if and only if it is not a repair that changes whether an address is active. |
| LedgerRuns.ActiveHold | packages/db/src/store.ts:686-1371 | Over every run without such a repair the active count is the recount at every step. |
| LedgerRuns.InboundStep | packages/db/src/store.ts:1201-1371 | From exact inbound sums, an operation keeps them exact if and only if it makes no row that edges already pay and is no edge batch that drifts. |
| LedgerRuns.InboundHold | packages/db/src/store.ts:1201-1371 | Over every run of such operations, both deletions and the repairs anywhere, inbound sums are the sums over the edges at every step. |
| LedgerRuns.GrandTotalHold | packages/db/src/store.ts:1017-1143 | Over every run in which no edge batch drifts and no deletion takes an incoming edge, the grand total is the sum over the incoming edges at every step. |
| LedgerRuns.GrandTotalStep | packages/db/src/store.ts:1017-1143 | Each operation keeps an exact grand total under that condition, and with positive amounts only then. |
| LedgerRuns.PeaksHold | packages/db/src/store.ts:1126-1199 | Over every run of positive batches in which an edge reaches each incoming row, with anything else but deletions of incoming edges, each peak is the maximum of its pair at every step. |
| LedgerRuns.TotalsStep | packages/db/src/store.ts:1017-1337 | Each operation keeps exact totals if it writes the sums, does not drift and deletes no counted edge, and with positive amounts only then. |
| LedgerRuns.TotalsHold | packages/db/src/store.ts:1017-1337 | Over every run of such operations each total is the sum over its incoming edges at every step. |
| TopVictims.SelectTop | packages/db/src/store.ts:1671-1677 | A query with ORDER BY and LIMIT returns distinct rows in order, as many as asked for or all, and no row left out is larger. |
| TopVictims.TopMeans | packages/db/src/store.ts:1644-1749 | A top set is: payers of the hacker above the floor, as many as asked for or all, and each payment of one left out is matched by a payment of every member. |
| TopVictims.PrefixIsTop | packages/db/src/store.ts:1695-1729 | The first distinct victims of a descending scan are a top set of that size, whatever was cut off behind them. |
| TopVictims.CollectByScan | packages/db/src/store.ts:1695-1729 | The doubling scan ends; what it returns is a top set of the asked size, and it gives up only after a full fetch at the largest limit that names too few victims. |
| TopVictims.PeaksNameVictims | packages/db/src/store.ts:1661-1692 | With exact peaks of the hacker, the pairs above the floor name exactly the victims above the floor. |
| TopVictims.PeakRowsAreTop | packages/db/src/store.ts:1661-1692 | With exact peaks of the hacker, the largest peaks name a top set of victims. |
| TopVictims.CollectFromPeaks | packages/db/src/store.ts:1661-1692 | With exact peaks the answer is a top set, with any others it is the names of the largest ones; it sends the caller on if and only if there are edges and no peaks. |
| TopVictims.CollectByGroupBy | packages/db/src/store.ts:1731-1749 | Grouping by victim and ordering by maximum gives a top set. |
| TopVictims.GetVictimAddressSet | packages/db/src/store.ts:1644-1659 | Whichever form answers, for exact or missing peaks the set has the right size and no victim left out beats a member; for stale ones it is the names of the largest peaks. |
| TopVictims.StalePeakNamed | packages/db/src/store.ts:1661-1692 | A peak table and no edges, where the lookup names a victim that is none. |
| KeysetPaging.GetOutEdgesFromAddress | packages/db/src/store.ts:1495-1510 | A page query equals the next rows behind the cursor in the sorted listing: outgoing edges of the parent from the floor up, of smaller amount than the cursor or of the same amount with a later target, amounts descending and equal ones by target; a row left out comes after all of them and finds the page full. |
| KeysetPaging.SelectIsRest | packages/db/src/store.ts:253-265 | Filtering by the cursor and then sorting is the same as sorting and then going on behind the cursor. |
| KeysetPaging.ListingComplete | packages/db/src/store.ts:1495-1510 | A listing holds each eligible row as often as the table, and no other. |
| KeysetPaging.LessIsEarlier | packages/db/src/store.ts:253-259 | One target sorts before another if and only if it ends or has the smaller character where they first differ. |
| KeysetPaging.QueryIsPage | packages/db/src/store.ts:1495-1510 | WHERE, ORDER BY and LIMIT together: which rows are in the page, in which order, and which are left out. |
| KeysetPaging.PageTraverses | packages/db/src/store.ts:1512-1554 | From any cursor, the rows of a page come from the parents in order and descend within each; those of the cursor's parent are behind the cursor. |
| KeysetPaging.UniqueInOrder | packages/db/src/store.ts:1520 | Repeated parents count once, where they first occur. |
| KeysetPaging.PageIsNext | packages/db/src/store.ts:1512-1554 | A page over several parents is the next part of the traversal, its cursor is given exactly when the page is full, and something is always consumed. |
| KeysetPaging.PagesAreWhole | packages/db/src/store.ts:1512-1554 | Without ties, pages of any size together are the whole traversal, nothing repeated or skipped. |
| KeysetPaging.TieLosesEdge | packages/db/src/store.ts:253-265 | With pages of one edge, a tie ahead always loses an edge. |
| KeysetPaging.PagingExact | packages/db/src/store.ts:1512-1554 | Paging gives the whole traversal for every page size if and only if no parent has a tie. |
| KeysetPaging.GetOutEdgesFromParents | packages/db/src/store.ts:1512-1554 | The loop over parents returns the page the recursive definition gives, from any cursor: parent after parent in the given order, amounts descending within each, the first parent behind the cursor. |
| PageBoundaries.RestBehind | packages/db/src/store.ts:253-265 | Behind edge i of a sorted listing comes the end of the listing, from edge i + 1 on if and only if the two do not tie. |
| PageBoundaries.PageLeavesEnd | packages/db/src/store.ts:1512-1554 | What a page leaves is the end of the traversal, all of it if and only if the page does not split two tied edges of one parent. |
| PageBoundaries.PagingExactFor | packages/db/src/store.ts:1512-1554 | For one page size: the traversal is read whole if and only if no page boundary separates two tied edges of one parent; what is read is always in its order, nothing twice. |
| PageBoundaries.ReadAll | packages/db/src/store.readBatch.test.ts:172-210 | A client that follows the cursor ends, and reads the whole traversal under exactly that condition, a part of it in order otherwise. |
| GraphWalks.ExploredNext | packages/db/src/store.ts:5574-5593 | Visiting one address keeps the search invariant and takes it closer to its end, on cyclic graphs too. |
| GraphWalks.CollectDownstreamAddresses | packages/db/src/store.ts:5574-5593 | The result is exactly the set of addresses reachable along edges, without the start. |
| GraphWalks.TracedNext | packages/db/src/store.ts:5363-5376 | One step back keeps the invariant of the search for flagged ancestors. |
| GraphWalks.FindRoots | packages/db/src/store.ts:5336-5378 | From one seed, exactly the flagged addresses reached backward through unflagged ones, whatever a fresh cache already holds. |
| GraphWalks.FindRootHackersForSpenders | packages/db/src/store.ts:5329-5380 | The same for every seed: the caches shared between seeds change nothing. |
| HopDepth.LayerIsWalks | apps/web/src/lib/layoutGraph.ts:228-255 | A layer holds exactly the ends of the walks of that length through downstream nodes. |
| HopDepth.LayersDone | apps/web/src/lib/layoutGraph.ts:243-252 | Every layer below the queue has been visited. |
| HopDepth.PopIsShortest | apps/web/src/lib/layoutGraph.ts:243-246 | The hop of the entry taken from the queue is the shortest distance of its node. |
| HopDepth.BuildHopDepthMap | apps/web/src/lib/layoutGraph.ts:228-255 | On every graph the map gives exactly the reachable downstream nodes their shortest hop distances. |
| Layout.GridApart | apps/web/src/lib/layoutGraph.ts:100-201 | No two rectangles of a grid overlap, for all node counts, block sizes, measures and both sides. |
| Layout.DropBelow | apps/web/src/lib/layoutGraph.ts:162-198 | A later block starts below the end of every earlier one. |
| Layout.InBlockHeight | apps/web/src/lib/layoutGraph.ts:82-121 | Every node of a block lies within the height computed for it. |
| Layout.LayoutNodeGrid | apps/web/src/lib/layoutGraph.ts:123-201 | The loops over blocks and rows place node k where the closed form says, each node once and in order. |
| Layout.GroupDownstreamByHop | apps/web/src/lib/layoutGraph.ts:257-291 | Each group holds exactly the nodes of its hop, in order; the hops searched for are the shortest distances, and there are none without a hacker. |
| Layout.LayoutDownstreamByHopGrids | apps/web/src/lib/layoutGraph.ts:293-329 | All grouped nodes are placed once, each hop as the grid of its own column by shortest distance, none overlapping another within or across columns, all right of the anchor. |
| Layout.LayoutVictimGrid | apps/web/src/lib/layoutGraph.ts:215-226 | The victims are placed left of the anchor without overlap. |
| Layout.LayoutHackerGraph | apps/web/src/lib/layoutGraph.ts:364-410 | The anchor, every grouped downstream node and every victim are placed once and never overlap, downstream on the right and victims on the left, for any graph. |
| GridLaws.GridSteps | apps/web/src/lib/layoutGraph.ts:100-201 | Blocks are filled column by column: the next node is a gap below the last, or at the block's top one column further from the anchor, and a block begins next to the anchor. |
| GridLaws.BlocksFollow | apps/web/src/lib/layoutGraph.ts:162-198 | A block begins a gap below the lowest node of the one before. |
| GridLaws.Centered | apps/web/src/lib/layoutGraph.ts:123-201 | The highest and the lowest node of a grid are equally far above and below the anchor, for all sizes and options. |
| GridLaws.ColumnAt | apps/web/src/lib/layoutGraph.ts:293-329 | The column of the g-th hop begins 300 + 2460 g to the right of the anchor. |
| GridLaws.ResolveExact | apps/web/src/lib/layoutGraph.ts:257-275 | A node belongs to the hop it carries, or else to its shortest distance from the hacker. |
| GridLaws.GroupsExact | apps/web/src/lib/layoutGraph.ts:257-291 | The groups hold each node under the hop it belongs to, and there are no others. |
| Layout.ClusterOverlapsVictims | apps/web/src/lib/layoutGraph.ts:399-403 | A victim cluster always overlaps some victim when there is one. |
| TickLease.MutualExclusion | packages/db/src/store.ts:3005-3026 | In every interleaving in which ticks clear before their leases expire, at most one tick is between acquire and clear. |
| TickLease.AcquireExact | packages/db/src/store.ts:3005-3017 | A tick gets in if and only if there is no lease or it ended before the tick looked; its lease then lasts as asked, at least a millisecond. |
| TickLease.IntrusionExact | packages/db/src/store.ts:3005-3017 | Another tick can join one that is inside if and only if that one has outlived its lease. |
| TickLease.LateClearFreesOthers | packages/api/src/workerCron.ts:68-87 | A run in which a late clear lets a third tick in beside a second. |
| TickLease.AbandonedLeaseExpires | packages/db/src/store.ts:3005-3017 | The lease of a crashed tick can be acquired exactly from the moment the clock has passed its end. |
| RateLimit.WindowBounded | packages/db/src/store.ts:2673-2715 | Over every request sequence a stored window counts no more than the limit, or one. |
| RateLimit.UsageHolds | packages/db/src/store.ts:2673-2715 | The requests of an interval no longer than the window fall into its current stored window and at most one full one before it. |
| RateLimit.IntervalBounded | packages/db/src/store.ts:2673-2715 | Any interval up to the window's length lets through at most twice the limit, in milliseconds although windows are compared in seconds. |
| RateLimit.LimitExact | packages/db/src/store.ts:2690-2710 | The limit is kept by every sequence of requests if and only if it is at least one. |
| RateLimit.RowIsStored | packages/db/src/store.ts:2673-2707 | The stored row always holds the time of the request that began the window, and how many requests since were let through. |
| RateLimit.AllowedExact | packages/db/src/store.ts:2697-2707 | Over every sequence of requests, one is refused if and only if the requests let through since its window began have reached the limit, or one. |
| RateLimit.FirstOnes | packages/db/src/store.ts:2697-2707 | So exactly the first requests of a window get through, as many as the limit. |
| RateLimit.RetrySucceeds | packages/db/src/store.ts:2700-2712 | If nothing else comes in between, waiting the returned number of seconds after a refusal gets the request through. |
| RateLimit.RetryExact | packages/db/src/store.ts:2709-2712 | A request let through is told no wait; a refused one the least number of whole seconds, from one up, after which the window is over. |
| RateLimit.RetryNotSooner | packages/db/src/store.ts:2709-2712 | Waiting a second less than told is refused again when the window began on a whole second. |
| RateLimit.RateLimiter.ConsumeRateLimit | packages/db/src/store.ts:2673-2715 | The stored row of the key alone changes, by the step the sequence lemmas speak of; RateLimit.AllowedExact says whom it lets through. |
| SchedulerCache.SchedulerStore.GetSchedulerState | packages/db/src/store.ts:3149-3156 | The cached read returns what a read of the row would. |
| SchedulerCache.SchedulerStore.UpdateSchedulerState | packages/db/src/store.ts:3622-3697 | The given fields are written, and the patched cache is still the row. |
| SchedulerCache.SchedulerStore.AdjustCounter | packages/db/src/store.ts:3219-3281 | The clamp in SQL and the clamp in the cache agree, a zero delta included. |
| SchedulerCache.SchedulerStore.AdjustEdgeTotalsCounters | packages/db/src/store.ts:3408-3419 | Two clamps in one statement agree with two separate cache bumps, as counters are never negative. |
| SchedulerCache.SchedulerStore.AddQuota | packages/db/src/store.ts:3194-3217 | Adding amounts to row and cache leaves them equal. |
| SchedulerCache.BumpExact | packages/db/src/store.ts:3219-3281 | A bump moves one counter by its delta, stopping at zero, and no other column. |
| SchedulerCache.AddExact | packages/db/src/store.ts:3194-3217 | Amounts move exactly their own columns. |
| SchedulerCache.SchedulerStore.TryAcquireTickLease | packages/db/src/store.ts:3005-3017 | The cache is patched exactly when the conditional update changed the row. |
| SchedulerCache.SchedulerStore.ClearTickLease | packages/db/src/store.ts:3019-3026 | Row and cache lose the lease together. |
| SchedulerCache.SchedulerStore.TryClaimHackStatsDay | packages/db/src/store.ts:4767-4776 | A day is claimed exactly once, and the cache follows. |
| SchedulerCache.SchedulerStore.IncrementMaintenanceCronCounter | packages/db/src/store.ts:4231-4244 | The returned count is the row's new count, cached or not. |
| SchedulerCache.SchedulerStore.ClaimNextHackerPollIndex | packages/db/src/store.ts:4247-4263 | The index used is the stored one within the hacker count, and the cache's recomputed index is the one stored. |
| SchedulerCache.NextIndex | packages/db/src/store.ts:4247-4263 | Used and stored index determine each other through the remainders, for every stored index and count. |
| SchedulerCache.SchedulerStore.ReconcileActiveJobCounts | packages/db/src/store.ts:3550-3572 | Columns changed behind the cache are seen by the next read, as the cache is dropped. |
| QuotaMeter.D1RowMeter.Record | packages/db/src/d1RowMeter.ts:74-90 | Every recorded row of the day is an app row, a drained overhead row or an undrained one, and just one of them. |
| QuotaMeter.D1RowMeter.RolloverIfNeeded | packages/db/src/d1RowMeter.ts:44-54 | A new day starts all counts at zero and agrees with the empty log of that day. |
| QuotaMeter.D1RowMeter.DrainOverhead | packages/db/src/d1RowMeter.ts:66-72 | What is drained is handed over once, and stays accounted for. |
| QuotaMeter.D1RowMeter.Unsuppress | packages/db/src/d1RowMeter.ts:61-63 | Nesting never goes below zero, and no count changes. |
| QuotaMeter.QuotaStore.GetQuotaSnapshot | packages/db/src/store.ts:3789-3842 | The first look of a day clears the columns; the snapshot is of today, and its figures are the sums over the flushes filed today. |
| QuotaMeter.QuotaStore.FlushUpdate | packages/db/src/store.ts:3873-3928 | What waited, and what the snapshot cost, is drained before the UPDATE; the UPDATE's own rows after it. |
| QuotaMeter.QuotaStore.FlushTail | packages/db/src/store.ts:3930-3938 | The rows of the UPDATE are filed too; what filing them costs waits for the next flush. |
| QuotaMeter.QuotaStore.FlushQuotaUsage | packages/db/src/store.ts:3865-3939 | The flush is filed on one day with exactly the overhead that waited or arose, total = cron + API + overhead for reads, writes and requests, and the suppression depth is restored. |
| QuotaMeter.FlushHolds | packages/db/src/store.ts:3882-3929 | Columns equal to the recounts over the day's flushes stay so when one more is filed. |
| QuotaMeter.TotalSplits | packages/db/src/store.ts:3882-3929 | The rows of any sequence of flushes are those of cron, of the API and of the overhead, nothing else. |
| Base58.CarryLoop | local-private/scanner/src/address_encode.cpp:18-29 | The in-place carry loop with its appended digits computes the digit-wise multiply-and-add. |
| Base58.EncodeDigits | local-private/scanner/src/address_encode.cpp:17-29 | The digits are the change of base of the bytes. |
| Base58.DecodeBytes | local-private/scanner/src/address_decode.cpp:21-36 | The bytes are the change of base of the letter indices; an unknown letter fails. |
| Base58.Base58Encode | local-private/scanner/src/address_encode.cpp:16-37 | The loops compute the encoding about which the round trips are proved. |
| Base58.Base58Decode | local-private/scanner/src/address_decode.cpp:16-43 | The loops compute the decoding about which the round trips are proved. |
| Base58.RebaseValue | local-private/scanner/src/address_encode.cpp:18-29 | The carry loop keeps the value of the numeral. |
| Base58.MulAddKeepsTop | local-private/scanner/src/address_encode.cpp:20-28 | A step keeps the top digit from being zero. |
| Base58.RebaseShape | local-private/scanner/src/address_encode.cpp:17-29 | The digits have no leading zero exactly when some byte is not zero; otherwise there is one zero digit. |
| Base58.RebaseInverse | local-private/scanner/src/address_decode.cpp:21-36 | Changing the base there and back returns the digits. |
| Base58.RoundTripNonzero | local-private/scanner/src/address_decode.cpp:21-43 | Bytes that are not all zero come back, leading zeros included. |
| Base58.RoundTripAllZero | local-private/scanner/src/address_decode.cpp:37-40 | Zero bytes alone, or none, come back with two more. |
| Base58.RoundTrip | local-private/scanner/src/address_decode.cpp:21-43 | Decoding the encoding returns the bytes if and only if one of them is not zero. |
| Base58.DecodeThenEncode | local-private/scanner/src/address_encode.cpp:16-37 | A text of alphabet letters is spelled again from its bytes if and only if it is not ones alone. |
| ConvertBits.EncoderConvertBits | local-private/scanner/src/address_encode.cpp:66-81 | The loop with its wrapping accumulator computes the conversion the value lemmas speak of. |
| ConvertBits.DecoderConvertBits | local-private/scanner/src/address_decode.cpp:105-121 | The same, and nothing for an input value that is too wide. |
| ConvertBits.WrapKeepsLowBits | local-private/scanner/src/address_encode.cpp:72-76 | Wrapping to 32 bits changes none of the bits still to be read. |
| ConvertBits.AbsorbKeepsBits | local-private/scanner/src/address_encode.cpp:71-78 | Output and pending bits together hold exactly the input read so far, however often the accumulator wraps. |
| ConvertBits.PaddedValue | local-private/scanner/src/address_encode.cpp:79-80 | With padding, the output is the input followed by fewer zero bits than one group. |
| ConvertBits.RoundTrip | local-private/scanner/src/address_decode.cpp:105-121 | Regrouping into narrower groups with padding and back without it returns the input, for all lengths; 8 to 5 bits is one case. |
| WitnessGroups.TwentyBytes | local-private/scanner/src/address_decode.cpp:105-121 | Twenty bytes come from their 32 groups, or from those and any one more, and from nothing else. |
| Bech32.StepLoop | local-private/scanner/src/address_encode.cpp:56-62 | The loop over the five generators computes one step of the checksum. |
| Bech32.PolymodLoop | local-private/scanner/src/address_encode.cpp:53-64 | The loop over the values computes the checksum word. |
| Bech32.ShiftLinear | local-private/scanner/src/address_encode.cpp:57-61 | One step of the checksum is linear over GF(2). |
| Bech32.ShiftInjective | local-private/scanner/src/address_encode.cpp:57-61 | Different words of 30 bits stay different. |
| Bech32.PolymodSplit | local-private/scanner/src/address_encode.cpp:53-64 | The word after any values is that after as many zeros, combined with the values' own. |
| Bech32.PolymodInjective | local-private/scanner/src/address_encode.cpp:53-64 | Different states stay different over any values. |
| Bech32.ChecksumExact | local-private/scanner/src/address_encode.cpp:88-93 | Six symbols drive the checksum word to 1 if and only if they are the six the encoder appends. |
| Bech32.OneErrorDetected | local-private/scanner/src/address_decode.cpp:93-99 | A change of a single value always changes the checksum word. |
| Bech32.Bech32Encode | local-private/scanner/src/address_encode.cpp:83-95 | The program builds the text about which the decoder lemmas speak; Bech32Values.EncodeExact says which text that is. |
| Bech32.Bech32Decode | local-private/scanner/src/address_decode.cpp:82-103 | The program with all its ways to fail computes the decoding about which the lemmas speak; Bech32Values.DecodeChecked says which texts it takes. |
| Bech32.DecodeExact | local-private/scanner/src/address_decode.cpp:82-103 | A text decodes to a prefix and data if and only if it is their encoding, capitals allowed after the separator. |
| Bech32.RoundTrip | local-private/scanner/src/address_decode.cpp:82-103 | For every prefix and all 5-bit values, decoding the encoding returns both. |
| Bech32.OneSubstitutionRejected | local-private/scanner/src/address_decode.cpp:82-103 | A valid text with one symbol after the separator replaced by another symbol is rejected. |
| Bech32Values.ByteParts | local-private/scanner/src/address_encode.cpp:85-87 | A prefix character contributes its quotient and its remainder by 32, from 128 up the quotient of the signed byte. |
| Bech32Values.CheckedExact | local-private/scanner/src/address_decode.cpp:93-99 | Symbols are those the encoder makes if and only if quotients of the prefix, a zero, its remainders and the symbols, in this order, have the checksum word 1. |
| Bech32Values.EncodeExact | local-private/scanner/src/address_encode.cpp:83-95 | The encoder writes exactly the prefix, a one, and the letters of the data and of six symbols that make that word 1. |
| Bech32Values.DecodeChecked | local-private/scanner/src/address_decode.cpp:82-103 | The decoder takes exactly such texts, capitals allowed after the separator. |
| Bech32Values.AlphabetExact | local-private/scanner/src/address_encode.cpp:49-51 | The letters are those of BIP 173, in its order. |
| Bech32Values.KnownText | local-private/scanner/src/address_encode.cpp:53-95 | The encoder gives the test vector a12uel5l of BIP 173. |
| Bech32Errors.TimesShift | local-private/scanner/src/address_encode.cpp:57-61 | One step of the checksum is linear over the field of 32 elements too. |
| Bech32Errors.SymbolRunsWide | local-private/scanner/src/address_encode.cpp:57-61 | An error of one symbol is never down to one symbol again within 88 steps. |
| Bech32Errors.TwoErrorsDetected | local-private/scanner/src/address_decode.cpp:93-99 | Changing two symbols no more than 88 places apart always changes the checksum word. |
| Bech32Errors.TwoSubstitutionsRejected | local-private/scanner/src/address_decode.cpp:82-103 | A valid text with two symbols after the separator replaced, within the length that BIP 173 allows, is rejected. |
| AddressCodec.CheckRoundTrip | local-private/scanner/src/address_decode.cpp:45-55 | A payload comes back from its checked encoding, unless payload and checksum bytes are all zero. |
| AddressBytes.KeyHashBytes | local-private/scanner/src/address_encode.cpp:124-126 | A public key hash address decodes to version 0, the hash and four bytes of the double SHA-256 of both, unless all are zero. |
| AddressBytes.ScriptHashBytes | local-private/scanner/src/address_encode.cpp:108-123 | A script hash address decodes to version 5, the hash of the key's witness program and four bytes of the double SHA-256 of both. |
| AddressBytes.WitnessSymbols | local-private/scanner/src/address_encode.cpp:102-107 | A witness address spells version 0 and 32 groups of five bits with the value of the hash, and six symbols that complete them. |
| AddressBytes.AlphabetExact | local-private/scanner/src/address_encode.cpp:14 | The Base58 letters, in the order of their values. |
| AddressCodec.SegwitRoundTrip | local-private/scanner/src/address_decode.cpp:125-138 | Every witness address of a 20-byte hash gives back the hash. |
| AddressCodec.WitnessExact | local-private/scanner/src/address_decode.cpp:125-138 | A text gives a witness key if and only if it spells version 0, the 32 groups of the hash and at most one group more. |
| LegacyTexts.DecodeExact | local-private/scanner/src/address_decode.cpp:16-43 | A text decodes to given bytes if and only if its digits, NUL as 58, have their value and it has a one for each leading zero byte; zero bytes alone have ones alone, one fewer. |
| LegacyTexts.LegacyExact | local-private/scanner/src/address_decode.cpp:139-151 | A text gives a legacy key if and only if it does not begin with bc1 and denotes version, hash and checksum. |
| LegacyTexts.LegacyLettersExact | local-private/scanner/src/address_decode.cpp:12-43 | A text without NUL gives a legacy key if and only if it is the address the encoder writes, or, for bytes that are all zero, 24 ones. |
| AddressCodec.ExtraGroupAccepted | local-private/scanner/src/address_decode.cpp:105-121 | A text with a needless 33rd group of any value gives the key as well. |
| AddressCodec.FirstLetter | local-private/scanner/src/address_decode.cpp:127 | No legacy address starts like a witness address, whatever its hash. |
| AddressCodec.LegacyRoundTrip | local-private/scanner/src/address_decode.cpp:139-151 | Both legacy families give back family and hash. |
| AddressCodec.ZeroAddressIsLost | local-private/scanner/src/address_decode.cpp:139-140 | An address whose bytes are all zero cannot be looked up. |
| AddressCodec.AddressRoundTrip | local-private/scanner/src/address_encode.cpp:99-127 | For each family and every hash, looking the address up gives family and bytes back if and only if its bytes are not all zero. |

## Left out

- `total_out_sats`: the code adds the full amount on every upsert, so it is no sum over the table.
- Other counters of the store: `victimCount` with `hack_victims`, crawl-pending and crawl-expanded counts, tree counts and the poll-due cache, which is an approximation with a time to live.
- Address fields that no modelled figure reads: role, label, hop, source, expand status, timestamps.
- Payload JSON: whether a job is a continuation, its address and its progress cursor are given with the job.
- Claim order: priorities and the age boost only choose which pending job is claimed next; claims of any pending job are modelled.
- `lastError`, the job timings in the scheduler row and the dirty flags of snapshots.
- `deleteAddress`, `resetHackerTotalReceived` and `addInboundSats`, which do not maintain the modelled figures.
- SQL text, drizzle and D1 plumbing, statement failures and the splitting of IN lists; a statement is one atomic step and does not fail.
- Statements of other requests between those of one method: the methods of a class run one after another. The lease and the claims are modelled as interleaved steps, and enqueues with their admission check apart from the rest; the reads of one check, and INSERT with its counter updates, are one step each.
- Several stores with a cache each: cache coherence is proved for one store that writes the row.
- `loadSnapshot`, `reset` and the listeners of the row meter, and what overhead a day's end discards.
- SHA-256 and RIPEMD-160: parameters that return digests of the right length.
- Integer widths of the store: JavaScript numbers and SQLite integers are unbounded here; the codec's 32-bit words are modelled as such.
- The display order of grid nodes: nodes arrive in the order in which they are shown; positions are real numbers without rounding.
- The victim-centric layout and misc nodes, which are put at the anchor's position on purpose.
- Scanner search, key derivation, storage and encryption; API, web pages, providers, configuration and migrations.
- LedgerEdges.BatchPeaks: one direction only; a row that lowers an amount makes the code look a peak up again, which can repair one that an earlier row left too high.
- LedgerSteps.UpsertManyKeeps: one direction only; two missed rows of one batch can make up for each other (LedgerRepairs.MissesCompensate).
- Layout.ClusterOverlapsVictims: speaks of a cluster laid out from the same anchor as the victims.
- AddressCodec.AddressRoundTrip: the public key argument of encode_address is unused there and not modelled.
