# Scheduling, ledger and settlement proofs

A Dafny model of four parts of the repository, with proofs of what they keep over every input, every run
and every reachable state.

* **Dual-channel rescore scheduler** (`scripts/verify-copy-pool-dual-channel-flow.ts`). A priority channel
  for the TopN preempts a cursor-driven background rotation; a deep batch keeps a floor for QUALIFIED
  wallets. `RescoreScheduler` holds the functions, `Rotation` sees the background channel as a walk around
  a ring, `RescoreLaws` and `RescoreInterleavings` prove what the two channels do to each other,
  `RescoreDays` follows the debt from day to day, `RescoreSession` has the wallets as objects that are
  rescored in place.
* **Smart-money pipeline** (`scripts/simulate-smart-money-pipeline-flow.ts`). Discovery, light and deep
  analysis, CopyPool hysteresis, rank flush and quota picker. `PipelineRules` holds the rules on values,
  `PipelineSession` the mutable rows, the insertion-ordered `db` and the clock; `PipelineLaws`,
  `PipelineTiming`, `RankFlush`, `DeepPicker` and `DeepDrain` hold the proofs about runs, `PipelineCases` and
  `DeepQuota` state each step and each pick case by case.
* **Wallet ledger listing** (`src/routes/custody.ts`). Keyset scans that hide on-chain rows which repeat a
  business row of the same transaction, with marker sets that grow batch by batch. `WalletLedger` holds the
  scans, `LedgerLaws` what a scan shows and hides, `LedgerWalks` whole listings, `LedgerCases` the rules row
  by row and page by page, `LedgerCursor` the cursor text.
* **Copy-settlement repair** (`scripts/repair-copy-settlement-pnl.ts` and its helpers in
  `src/copyTrading/services/copySettlementProceeds.ts`). Several passes over the same lot-close rows.
  `CloseCapping`, `RedeemPlans`, `LotRepair` and `SettlementRepair` hold the passes, `SettlementCases` what
  each plan and each pass decides, `SettlementRun` the whole repair of one user.

`Seqs` has the array operations (`filter`, `map`, `slice`, a stable `sort`, `new Set`), `Options`, `Texts`,
`StringOrder`, `Money` and `Lots` the remaining vocabulary. Amounts are reals; `EPS` and the rounding to 8
decimals (`toFixed(8)`, halves away from zero) are written out. Clocks, database tables, chain receipts,
scores and analysis outcomes are parameters.

## What the proofs found

* A call with limit 0 does not leave the rotation alone: it resets the cursor
  (`RescoreLaws.ZeroSlotsResetTheRotation`). A deep batch of fewer than 5 places makes that call whenever a
  QUALIFIED wallet waits, so such batches restart the rotation every time
  (`RescoreLaws.DeepBatchStarvesRotationExactly`).
* The one allowed miss of `EXIT_MISS = 2` never survives a rank flush: a flush takes out exactly the wallets
  that are on it (`PipelineLaws.FlushPurgesExactlyFirstMisses`).
* On an arbitrary table `pickDeep` can return nothing while work is due, with a limit of 1 under overload
  (`PipelineTiming.OnePlaceOverlooksWork`). No run gets there: QUALIFIED wallets are always due, so in every
  reachable state an empty pick means that no work is due
  (`PipelineTiming.ReachablePickDeepEmptyExactly`).
* The guard that keeps a redeem from turning a small booked loss into a large profit holds only for groups
  that had proceeds before. A group with none falls back to the whole payout of the transaction, up to a
  dollar a share, which can be far more than the plan that was held back
  (`RedeemPlans.LostGroupIsPaidTheWholeWallet`; exact condition in `RedeemPlans.RedeemRaiseIsSmallExactly`).
* A cursor walk of the ledger loses no row that the filter with all markers keeps, unless a page spends its
  ten fetches on fewer than `take` visible rows while rows remain. `LedgerWalks.StalledWalkLosesARow` gives a
  ledger of 261 rows where the last row never comes up, `LedgerWalks.DenseWalksAreComplete` a condition on the
  ledger that rules it out. Because every request starts with empty marker sets,
  a walk can list a duplicate that the offset listing hides (`LedgerWalks.WalkMayListADuplicate`).
* A ledger of 2000 rows or more is reported truncated, also when 2000 is all it has, and `hasMore` then stays
  true at every offset (`LedgerWalks.OffsetPagingEndsExactly`). A request for one category switches
  de-duplication off, because the marker rows are filtered out of the table
  (`LedgerLaws.CategoryRequestHidesOnlyInternal`). The `total` of a truncated listing follows the question: past
  the visible rows it is the asked offset, and on a full page that ends with the last of them it is one more
  than there are (`LedgerCases.OffsetPageExactly`).
* The comment above `zeroDuplicateRedeemTxPlans` says that the earliest group of a transaction keeps its
  proceeds. The code keeps a unique full-win group and zeroes all groups otherwise; the model follows the
  code. The sort by creation time in that function has no effect on the result and is not modelled.
* A second cash-anchoring pass rests on every list of `n` rows if and only if `n` is at most ten million
  (`LotRepair.SecondAnchorPassRestsExactly`): beyond that the rounding of the rows can exceed the tolerance.

## Model

| member | source | states |
|---|---|---|
| Rotation.AfterCursorAgreesWithSort | scripts/verify-copy-pool-dual-channel-flow.ts:112-130 | for eligible wallets, the cursor predicate at the cursor of `v` holds of `w` exactly when the sort puts `v` before `w` |
| Rotation.AfterCursorExactly | scripts/verify-copy-pool-dual-channel-flow.ts:121-130 | what any cursor, stale or invented, has after it: everything for the null cursor, otherwise the later ranks and the later names of its own rank, wallets without a rank first |
| Rotation.BackgroundByRing | scripts/verify-copy-pool-dual-channel-flow.ts:132-167 | a background call depends on the rows only through the sorted ring of eligible keys |
| Rotation.EveryCursorStands | scripts/verify-copy-pool-dual-channel-flow.ts:121-130 | every cursor, stale or invented, splits every ring into a part behind it and a part ahead of it |
| Rotation.PickAt | scripts/verify-copy-pool-dual-channel-flow.ts:132-167 | one call emits the next `limit` keys from the cursor's position and moves the cursor to the last one; from the end it acts like a first call |
| Rotation.LapIsComplete | scripts/verify-copy-pool-dual-channel-flow.ts:132-167 | from the null cursor `ceil(n / limit)` calls emit every eligible wallet exactly once in sort order, and the calls after that repeat the lap |
| Rotation.RingWallets | scripts/verify-copy-pool-dual-channel-flow.ts:133-142 | what a lap emits is exactly the pooled CopyPool wallets without a rank or ranked above 100 that are not cooling |
| Rotation.LapOrder | scripts/verify-copy-pool-dual-channel-flow.ts:112-130 | a lap lists wallets without a rank first, then by rank, then by name |
| Rotation.EveryWalletWithinOneLap | scripts/verify-copy-pool-dual-channel-flow.ts:132-167 | from any cursor whatever, every eligible wallet comes up within `ceil(n / limit) + 1` calls |
| RescoreLaws.PriorityPreemptsExactly | scripts/verify-copy-pool-dual-channel-flow.ts:169-183 | with a slot to give, the priority channel is taken if and only if some TopN wallet is due today and not cooling, and it leaves the cursor as it was |
| RescoreDays.DueIsOwing | scripts/verify-copy-pool-dual-channel-flow.ts:31-55 | on the day that holds the clock a wallet is due if and only if it is pooled in COPY_POOL with a rank from 1 to 100 and its last score is absent or from another day |
| RescoreDays.PriorityAnswersExactly | scripts/verify-copy-pool-dual-channel-flow.ts:82-109 | a slot pick reports the wallets that owe a score for the day, takes the priority channel if and only if one of them is not cooling, and then serves `min(limit, those)` of them |
| RescoreDays.DebtReturnsAtMidnight | scripts/verify-copy-pool-dual-channel-flow.ts:31-90 | once every due wallet is rescored there is no debt until the day ends, and from midnight on every one of them is due again |
| RescoreLaws.ZeroSlotsResetTheRotation | scripts/verify-copy-pool-dual-channel-flow.ts:144-161 | a call with limit 0 picks nothing and resets the cursor from any position |
| RescoreLaws.PriorityPicksBestRanks | scripts/verify-copy-pool-dual-channel-flow.ts:94-109 | priority picks come in rank order, and a ready wallet that is left out ranks after every picked one |
| RescoreLaws.PickedAreSafe | scripts/verify-copy-pool-dual-channel-flow.ts:169-183 | a slot pick only hands out CopyPool wallets that are not cooling, so rescoring them is safe |
| RescoreInterleavings.SafeRescoringKeepsRing | scripts/verify-copy-pool-dual-channel-flow.ts:210-227 | rescoring a wallet that is neither QUALIFIED nor cooling changes neither the ring nor, in either direction, which wallets are safe to rescore |
| RescoreInterleavings.PriorityWorkIsInvisible | scripts/verify-copy-pool-dual-channel-flow.ts:169-227 | in every interleaving of slot picks, deep batches and rescoring of any wallets at a fixed clock, the background calls return exactly what they return when all priority picks and all rescoring that is safe at its moment are deleted, and end at the same cursor |
| RescoreInterleavings.SafeStaysSafe | scripts/verify-copy-pool-dual-channel-flow.ts:210-227 | no rescoring ever makes a safe wallet unsafe |
| RescoreInterleavings.HandedOutWorkIsInvisible | scripts/verify-copy-pool-dual-channel-flow.ts:169-227 | when only wallets are rescored that a slot handed out before, however long ago, the background calls return what they return on rows nobody rescores |
| RescoreInterleavings.LoopKeepsRotation | scripts/verify-copy-pool-dual-channel-flow.ts:296-303 | so the loop that rescores what it picks leaves the rotation as if nothing were rescored |
| RescoreLaws.RescoringPaysOne | scripts/verify-copy-pool-dual-channel-flow.ts:210-227 | rescoring a due wallet lowers the priority debt by exactly one and leaves every other debt standing |
| RescoreLaws.RoundPaysExactly | scripts/verify-copy-pool-dual-channel-flow.ts:298-302 | a round of picking and rescoring lowers the debt by `min(limit, due)` and keeps the cursor |
| RescoreLaws.DebtDrains | scripts/verify-copy-pool-dual-channel-flow.ts:295-304 | the debt falls by `limit` a round and is zero after `ceil(due / limit)` rounds and not before, with the cursor where it was |
| RescoreLaws.RescoredRowExactly | scripts/verify-copy-pool-dual-channel-flow.ts:210-227 | the whole row after a rescore: a QUALIFIED wallet enters the pool at rank 999 exactly when its last digit is even and becomes SCORED otherwise, any other wallet keeps its standing |
| RescoreLaws.LastDigitEvenExactly | scripts/verify-copy-pool-dual-channel-flow.ts:217-217 | the parity of a wallet is that of its last decimal digit, and a wallet without digits counts as even |
| RescoreLaws.RefreshLimitIsLargest | scripts/verify-copy-pool-dual-channel-flow.ts:187-192 | the rescore share is the largest one within the requested share and, while a QUALIFIED wallet waits, within a fifth of the batch |
| RescoreLaws.DeepBatchStarvesRotationExactly | scripts/verify-copy-pool-dual-channel-flow.ts:186-194 | the exact condition under which a deep batch has no rescore slot, and that it then resets the rotation |
| RescoreLaws.SlotsAreDistinct | scripts/verify-copy-pool-dual-channel-flow.ts:169-183 | slots go to at most `limit` distinct wallets, none of them QUALIFIED |
| RescoreLaws.DeepBatchKeepsQualifiedFloor | scripts/verify-copy-pool-dual-channel-flow.ts:186-208 | a deep batch has at most `limit` distinct wallets and holds exactly `min(limit - refreshLimit, ready)` QUALIFIED ones: the final slice drops none |
| RescoreLaws.DeepBatchExactly | scripts/verify-copy-pool-dual-channel-flow.ts:186-208 | a deep batch is the rescore slots followed by the QUALIFIED wallets that wait, in table order, uncut, with the channel, cursor and debt of the slot pick |
| RescoreSession.SimWallet.MarkRescored | scripts/verify-copy-pool-dual-channel-flow.ts:213-226 | the field updates of a rescore, in place |
| RescoreSession.RescoreWallet | scripts/verify-copy-pool-dual-channel-flow.ts:210-227 | rescores the first wallet of that name and no other, or nothing if it is unknown |
| RescoreSession.RescorePicked | scripts/verify-copy-pool-dual-channel-flow.ts:302-302 | rescores a picked batch one wallet after the other |
| RescoreSession.ClearTopN | scripts/verify-copy-pool-dual-channel-flow.ts:294-303 | the clearing loop uses `min(200, ceil(due / limit))` rounds, keeps the cursor, and leaves exactly the debt that 200 rounds cannot pay |
| PipelineLaws.IngestIsIdempotent | scripts/simulate-smart-money-pipeline-flow.ts:91-125 | discovering a wallet twice from a source is discovering it once, whatever the letter case |
| PipelineLaws.IngestTouchesOneRow | scripts/simulate-smart-money-pipeline-flow.ts:91-125 | discovery adds or touches one row; a new or woken wallet is due at once, an awake one only gains its source |
| PipelineCases.NewWalletExactly | scripts/simulate-smart-money-pipeline-flow.ts:91-115 | every field of a newly discovered row |
| PipelineCases.KnownWalletExactly | scripts/simulate-smart-money-pipeline-flow.ts:116-124 | a known row gains the source once, wakes up due for both analyses if it was dormant, and keeps everything else |
| PipelineLaws.LightPickExactly | scripts/simulate-smart-money-pipeline-flow.ts:127-138 | the light picker serves `min(limit, due)` wallets, each once, every one awake, RAW and due, so that its light analysis is enabled |
| PipelineCases.LightWorkExactly | scripts/simulate-smart-money-pipeline-flow.ts:127-134 | who is due for a light analysis |
| PipelineCases.LightPicksInOrder | scripts/simulate-smart-money-pipeline-flow.ts:127-138 | no wallet with work is passed over for one discovered later, however short the limit |
| PipelineCases.LightRowExactly | scripts/simulate-smart-money-pipeline-flow.ts:194-216 | a light analysis qualifies exactly the profiles with holdings of 1000, 10 predictions and 5 curves or more and eliminates the others, with every field either way |
| PipelineLaws.DeepKeepsRow | scripts/simulate-smart-money-pipeline-flow.ts:286-343 | a deep analysis, failing or not, keeps the row invariant and keeps or drops the rank |
| PipelineCases.DeepLeavesAlone | scripts/simulate-smart-money-pipeline-flow.ts:286-343 | what no deep analysis touches, and the queueing time it leaves |
| PipelineCases.DeepProfileExactly | scripts/simulate-smart-money-pipeline-flow.ts:218-306 | a deep analysis reuses the profile that is there if it is at most 45 minutes old, and otherwise works on one fetched now |
| PipelineCases.DeepErrorExactly | scripts/simulate-smart-money-pipeline-flow.ts:335-342 | an analysis that throws leaves the standing as it was and the wallet due at once |
| PipelineCases.DeepL1Exactly | scripts/simulate-smart-money-pipeline-flow.ts:311-319 | an L1 failure ends in ELIMINATED without pool place, rank or due dates |
| PipelineCases.SyncExactly | scripts/simulate-smart-money-pipeline-flow.ts:225-255 | the hysteresis on a row in any stage: stage, pool place, rank and misses in every case |
| PipelineCases.DeepScoreExactly | scripts/simulate-smart-money-pipeline-flow.ts:320-334 | without one the row stores exactly the analysed score and tier, is due a week later, and its standing is given for every case of the hysteresis |
| PipelineCases.EliminationExactly | scripts/simulate-smart-money-pipeline-flow.ts:194-343 | a step of any kind makes a wallet ELIMINATED if and only if it is its light analysis and fails the floors, or its deep analysis, does not throw and fails L1 |
| PipelineLaws.IngestKeepsInv | scripts/simulate-smart-money-pipeline-flow.ts:91-125 | discovery keeps the invariant, wallets stay distinct |
| PipelineLaws.FlushKeepsInv | scripts/simulate-smart-money-pipeline-flow.ts:258-278 | a rank flush keeps the invariant, ranks stay distinct |
| PipelineLaws.StepKeepsInv | scripts/simulate-smart-money-pipeline-flow.ts:80-343 | every enabled step keeps the invariant |
| PipelineLaws.RunKeepsInv | scripts/simulate-smart-money-pipeline-flow.ts:80-343 | so does every run, whatever the scores, failures, clock and order of work |
| PipelineLaws.ReachableStates | scripts/simulate-smart-money-pipeline-flow.ts:194-343 | in every reachable state no wallet rests in an ANALYZING stage, COPY_POOL means pooled with a score above the exit line, pooled means scored and COPY_POOL or SCORED, a rank means pooled, the miss count is below EXIT_MISS, ELIMINATED is unpooled and unranked, wallets and ranks are distinct |
| PipelineLaws.EliminatedIsAbsorbing | scripts/simulate-smart-money-pipeline-flow.ts:91-343 | no run leads out of ELIMINATED or back into the pool |
| PipelineLaws.FlushPurgesExactlyFirstMisses | scripts/simulate-smart-money-pipeline-flow.ts:242-267 | a flush takes out of the pool exactly the wallets on their one allowed miss |
| PipelineLaws.PoolMembershipExactly | scripts/simulate-smart-money-pipeline-flow.ts:225-255 | a scored wallet is pooled afterwards if and only if it is not hard-flagged and either enters at 40 or stays above 30 or has its first miss |
| PipelineTiming.OutageChangesNoStanding | scripts/simulate-smart-money-pipeline-flow.ts:335-342 | over any run of failing analyses and clock advances every wallet keeps its stage, score, pool place, rank and misses |
| PipelineTiming.ProfileFetchesAreSpaced | scripts/simulate-smart-money-pipeline-flow.ts:218-223 | over any run a fetched profile is fetched again only when it is more than 45 minutes old, and an analysed wallet never becomes RAW again |
| PipelineTiming.RunKeepsQualifiedDue | scripts/simulate-smart-money-pipeline-flow.ts:91-343 | over any run every QUALIFIED wallet stays due |
| PipelineTiming.ReachablePickDeepEmptyExactly | scripts/simulate-smart-money-pipeline-flow.ts:140-192 | in every reachable state and for every limit of at least 1 the deep pick is empty if and only if no work is due |
| PipelineTiming.OnePlaceOverlooksWork | scripts/simulate-smart-money-pipeline-flow.ts:170-191 | a concrete table, which no run reaches, on which a limit of 1 overlooks due work |
| RankFlush.BoardIsSorted | scripts/simulate-smart-money-pipeline-flow.ts:268-270 | the board holds exactly the pooled rows above the exit line, each once, best score first and insertion order among equals |
| RankFlush.RankIsPlace | scripts/simulate-smart-money-pipeline-flow.ts:271-276 | after a flush a rank is the row's place on the board and nothing else of a kept row changed |
| RankFlush.FlushIsTrueRanking | scripts/simulate-smart-money-pipeline-flow.ts:258-278 | after a flush pooled means ranked and above the exit line, the ranks are exactly 1 to k, and a smaller rank means a higher score or an earlier row of equal score |
| RankFlush.FlushIsIdempotent | scripts/simulate-smart-money-pipeline-flow.ts:258-278 | a second flush purges nothing and changes nothing |
| PipelineCases.PurgeExactly | scripts/simulate-smart-money-pipeline-flow.ts:259-267 | the purge of one row: who leaves the pool, and what the row is then |
| PipelineCases.FlushedRowExactly | scripts/simulate-smart-money-pipeline-flow.ts:258-278 | a flush keeps a pooled row above 30, takes any other pooled row out and shows it as SCORED if it has a score; ranks go to exactly the kept rows |
| RankFlush.CachedBoardIsThePool | scripts/simulate-smart-money-pipeline-flow.ts:280-284 | right after a flush the cached board is exactly the pool |
| PipelineCases.CachedBoardExactly | scripts/simulate-smart-money-pipeline-flow.ts:280-284 | the cached board is the pooled and ranked rows above 30, and in every state that keeps the invariant, between flushes too, the ranked wallets in stage COPY_POOL |
| DeepPicker.PickedAreDue | scripts/simulate-smart-money-pipeline-flow.ts:140-192 | everything picked is awake, due and waiting in the deep queue |
| DeepPicker.DeepPicksAreEnabled | scripts/simulate-smart-money-pipeline-flow.ts:140-192 | so a deep analysis of it is an enabled step |
| DeepPicker.RefreshPicksLongestWaiting | scripts/simulate-smart-money-pipeline-flow.ts:145-155 | the refresh part takes the due pool wallets queued longest ago |
| DeepPicker.PickDeepEmptyExactly | scripts/simulate-smart-money-pipeline-flow.ts:140-192 | on any table the pick is empty if and only if no work is due, or limit is 1 under overload with nothing to refresh and no QUALIFIED wallet due |
| DeepPicker.NormalPickSize | scripts/simulate-smart-money-pipeline-flow.ts:157-168 | without overload the pick is at most the limit and the due wallets, and at least what the pipeline places can serve |
| DeepQuota.WorkExactly | scripts/simulate-smart-money-pipeline-flow.ts:140-176 | what each part of the picker takes for due work |
| DeepQuota.QuotaExactly | scripts/simulate-smart-money-pipeline-flow.ts:171-171 | the QUALIFIED quota is the least number that is at least one and at least three tenths of the places left |
| DeepQuota.RefreshSize | scripts/simulate-smart-money-pipeline-flow.ts:145-155 | the refresh part has as many due pool wallets as the share of the limit allows |
| DeepQuota.PickDeepExactly | scripts/simulate-smart-money-pipeline-flow.ts:140-192 | the whole pick, wallet by wallet: the refresh part, then under overload the quota of QUALIFIED and the rest of the places for wallets scored before, otherwise whoever has work, without repetition and cut at the limit |
| DeepPicker.OverloadKeepsQualifiedShare | scripts/simulate-smart-money-pipeline-flow.ts:170-191 | under overload the pick is distinct, within the limit, and holds exactly `min(due QUALIFIED, max(1, ceil(0.3 * pipelineLimit)))` QUALIFIED wallets after de-duplication and slicing, unless refreshing takes every place |
| DeepDrain.AnalysisSettlesOne | scripts/simulate-smart-money-pipeline-flow.ts:286-343 | an analysis that does not throw settles exactly its own wallet for a week |
| DeepDrain.InvPooledAreQueued | scripts/simulate-smart-money-pipeline-flow.ts:225-278 | what a flush relies on, that pooled wallets wait in the deep queue, follows from the invariant of every run |
| DeepDrain.FlushKeepsPending | scripts/simulate-smart-money-pipeline-flow.ts:258-278 | a rank flush moves no wallet into or out of the pending ones |
| DeepDrain.OneRound | scripts/simulate-smart-money-pipeline-flow.ts:140-192 | a round of picking, analysing and perhaps flushing lowers the pending wallets by exactly the number picked |
| DeepDrain.DrainTerminates | scripts/simulate-smart-money-pipeline-flow.ts:616-659 | with no thrown error and the clock within seven days, no more rounds pick anything than there are wallets pending at the start, with flushes in between or without |
| DeepDrain.SomeRoundFindsNoWork | scripts/simulate-smart-money-pipeline-flow.ts:616-659 | with a limit of 2 or more, one of that many rounds and one more finds no work due |
| PipelineSession.WalletRow.Touch | scripts/simulate-smart-money-pipeline-flow.ts:116-124 | the field updates of a repeated discovery, in place |
| PipelineSession.WalletRow.LightAnalyze | scripts/simulate-smart-money-pipeline-flow.ts:194-216 | the whole new row after a light analysis, both branches |
| PipelineSession.WalletRow.SyncCopyPool | scripts/simulate-smart-money-pipeline-flow.ts:225-255 | the hysteresis in place: hard flag, entry, first miss, second miss, recovery |
| PipelineSession.WalletRow.StartDeep | scripts/simulate-smart-money-pipeline-flow.ts:298-306 | queueing and the choice between snapshot and live profile |
| PipelineSession.WalletRow.DeepAnalyze | scripts/simulate-smart-money-pipeline-flow.ts:286-343 | the whole deep analysis on one row, with the previous stage and the profile source it returns |
| PipelineSession.WalletRow.Purge | scripts/simulate-smart-money-pipeline-flow.ts:261-266 | a pooled row without a score or at the exit line leaves the pool |
| PipelineSession.Pipeline.AdvanceClock | scripts/simulate-smart-money-pipeline-flow.ts:80-82 | time moves and no row changes |
| PipelineSession.Pipeline.IngestWallet | scripts/simulate-smart-money-pipeline-flow.ts:91-125 | discovery on the mutable map is the discovery step |
| PipelineSession.Pipeline.LightAnalyzeWallet | scripts/simulate-smart-money-pipeline-flow.ts:194-216 | light analysis of a known wallet changes its row and no other |
| PipelineSession.Pipeline.DeepAnalyzeWallet | scripts/simulate-smart-money-pipeline-flow.ts:286-343 | deep analysis of a known wallet changes its row and no other, and returns its previous stage and profile source |
| PipelineSession.Pipeline.PurgePass | scripts/simulate-smart-money-pipeline-flow.ts:259-267 | the purge loop and its count |
| PipelineSession.Pipeline.ClearPass | scripts/simulate-smart-money-pipeline-flow.ts:271-273 | rows off the board lose their rank, the others wait for theirs |
| PipelineSession.Pipeline.RankPass | scripts/simulate-smart-money-pipeline-flow.ts:274-276 | rows on the board get their place counted from 1 |
| PipelineSession.Pipeline.RecomputeRanks | scripts/simulate-smart-money-pipeline-flow.ts:258-278 | the three loops together are the flush of `RankFlush`, with the purge and board counts |
| PipelineSession.Pipeline.FinalSweep | scripts/simulate-smart-money-pipeline-flow.ts:661-689 | the sweep ends however the clock moves, keeps the invariant, and leaves no QUALIFIED wallet due |
| WalletLedger.NoteDedupMarkers | src/routes/custody.ts:579-603 | adds exactly the transactions of the marker rows to the two sets |
| LedgerCases.MarkersExactly | src/routes/custody.ts:579-603 | which rows mark their transaction as a commission or as business, by rail, direction and category |
| LedgerCases.TxHashExactly | src/routes/custody.ts:543-548 | a transaction hash is text with something other than blanks in it |
| LedgerCases.FromAddressExactly | src/routes/custody.ts:550-555 | the sender is `fromAddress`, or `from` when there is no such field |
| WalletLedger.RowsAfterCursor | src/routes/custody.ts:639-651 | on a ledger every cursor, also one no row has, selects a suffix |
| WalletLedger.PositionOfRow | src/routes/custody.ts:639-677 | the cursor of a row selects what follows it |
| LedgerCases.ListingOrderExactly | src/routes/custody.ts:654-660 | a ledger is a table of distinct ids, newest first, and of rows from the same moment the larger id first |
| LedgerCases.EveryTableIsListed | src/routes/custody.ts:654-660 | any rows with distinct ids, moments shared or not, can be put into that order, so the results about ledgers speak of every table |
| LedgerCases.CursorSelects | src/routes/custody.ts:639-651 | a cursor selects what is older, and of its own moment the smaller ids |
| WalletLedger.PushVisible | src/routes/custody.ts:667-674 | pushes the rows that are not hidden, in order, and stops one past the early-stop count |
| WalletLedger.AddBatch | src/routes/custody.ts:665-674 | a batch is filtered knowing the markers of all rows read so far, itself included |
| WalletLedger.FetchFilteredRows | src/routes/custody.ts:625-692 | reads at most 2000 rows, lists exactly the visible rows of that window up to the early stop, and is truncated if and only if there are 2000 rows or more and no early stop came; the bound of 50 rounds never ends it |
| WalletLedger.PageScan | src/routes/custody.ts:816-862 | the ten-fetch loop of a cursor page: where it stands, what it listed, and what its last fetch was |
| WalletLedger.NextDecided | src/routes/custody.ts:864-879 | what the loop knows at its end decides whether a further page exists |
| WalletLedger.CursorPage | src/routes/custody.ts:799-883 | the items and the next cursor of a cursor page as functions of the ledger |
| LedgerLaws.HiddenExactly | src/routes/custody.ts:605-623 | a row is hidden exactly when it is a transfer between the user's own collateral contracts or repeats the transaction of a marker row seen so far |
| LedgerCases.DuplicatesExactly | src/routes/custody.ts:605-623 | which credits repeat which marker of their transaction, category by category |
| LedgerCases.InternalSenderExactly | src/services/polymarket/web3.ts:38-52 | a sender is internal if and only if it is the collateral onramp or offramp up to letter case and surrounding blanks |
| LedgerLaws.HidingIsMonotone | src/routes/custody.ts:605-623 | knowing more markers never shows a row again |
| LedgerLaws.MarkersAreNeverHidden | src/routes/custody.ts:587-622 | no marker row is ever hidden |
| LedgerLaws.ShownExactly | src/routes/custody.ts:636-689 | a scan shows a row if and only if the markers up to the end of its own batch do not hide it |
| LedgerCases.OffsetShowsExactly | src/routes/custody.ts:625-692 | the offset listing shows a row if and only if it is among the first 2000 and the rows up to the end of its batch of 80 do not hide it |
| LedgerCases.PageShowsExactly | src/routes/custody.ts:816-862 | a cursor page can show a row if and only if it lies in one of ten fetches of `take + 25` rows and the rows from the page start to the end of that fetch do not hide it |
| LedgerLaws.ShownInOrder | src/routes/custody.ts:654-674 | a scan lists its rows in listing order, each at most once |
| LedgerLaws.BatchingShowsAllKept | src/routes/custody.ts:636-689 | a batched scan shows every row that the filter with all markers keeps |
| LedgerLaws.BatchedEqualsOneShotExactly | src/routes/custody.ts:636-689 | it shows exactly those rows if and only if every duplicate has a marker of its transaction in its own or an earlier batch |
| LedgerLaws.NoTransactionIsErased | src/routes/custody.ts:579-674 | a row that the offset scan reads and hides is an internal transfer, or a listed row carries the same transaction |
| LedgerLaws.CategoryRequestHidesOnlyInternal | src/routes/custody.ts:770-777 | a request for one category hides internal transfers and nothing else |
| LedgerCases.RequestExactly | src/routes/custody.ts:770-777 | which rows a request covers, with and without a rail and a category |
| LedgerWalks.OffsetPagesConcatenate | src/routes/custody.ts:779-795 | pages at 0, take, 2 take concatenate to the filtered list, every reply knows the total, `hasMore` is false exactly on the last page |
| LedgerWalks.OffsetListingIsComplete | src/routes/custody.ts:779-797 | below the scan limit the pages together list, in order and once each, every row the all-markers filter keeps, and no transaction is lost |
| LedgerWalks.NothingBeyondTheScan | src/routes/custody.ts:684-687 | a row below the first 2000 is on no offset page |
| WalletLedger.OffsetBranch | src/routes/custody.ts:779-797 | the reply at an offset is the page that `OffsetPageExactly` describes |
| LedgerCases.OffsetPageExactly | src/routes/custody.ts:779-797 | for every ledger, truncated or not: item `k` of a page is the visible row at `offset + k`, the length is `min(take, visible - offset)` or 0 past the end, and `hasMore`, `truncated` and `total` are given in every case |
| LedgerCases.OffsetPagesAddUp | src/routes/custody.ts:779-797 | pages at 0, take, 2 take concatenate to the visible rows on every ledger, truncated or not |
| LedgerWalks.OffsetPagingEndsExactly | src/routes/custody.ts:779-797 | paging by offset comes to a reply without `hasMore` if and only if the ledger has fewer than 2000 rows; otherwise pages past the end are empty and still announce more |
| LedgerWalks.NextIsLastItem | src/routes/custody.ts:864-879 | the next cursor is the position just after the last item of the page |
| LedgerCases.PageNextExactly | src/routes/custody.ts:864-879 | a further page exists if and only if this one is full and a visible row is to spare, or ten full fetches were made, or its last item lies in a tenth fetch that is not full and has rows after it |
| LedgerWalks.PageVisibleExactly | src/routes/custody.ts:816-862 | what a cursor page can show: the rows of its window not hidden by the markers between the page's start and the end of their batch |
| LedgerWalks.WalkLosesNoOrder | src/routes/custody.ts:799-883 | a walk along `nextCursor` lists rows below its cursor in listing order, each at most once |
| LedgerWalks.PageInOrder | src/routes/custody.ts:864-879 | a page has at most `take` rows, in order, between its own cursor and the next one |
| LedgerWalks.WalkShowsExactly | src/routes/custody.ts:799-883 | a walk lists a row if and only if it reads that far and the markers of the row's page do not hide it |
| LedgerWalks.WalkEndsEarlyExactly | src/routes/custody.ts:820-879 | a walk stops short of the end if and only if it meets a page that spends ten full fetches on fewer than `take` visible rows |
| LedgerWalks.WalkKeepsEveryKeptRow | src/routes/custody.ts:799-883 | every row the all-markers filter keeps comes up, unless it lies beyond such a page, and then it never does |
| LedgerWalks.WalkErasesNoTransaction | src/routes/custody.ts:799-883 | a row that a walk reads and does not list is an internal transfer, or a row of the walk carries the same transaction |
| LedgerWalks.DensePagesDoNotStall | src/routes/custody.ts:820-862 | a condition on the ledger alone: if every stretch of ten full fetches with rows below it holds `take` rows that the all-markers filter keeps, no page stalls from any cursor |
| LedgerWalks.DenseWalksAreComplete | src/routes/custody.ts:799-883 | on such a ledger every walk lists every row that the all-markers filter keeps |
| LedgerWalks.StalledWalkLosesARow | src/routes/custody.ts:820-879 | a concrete ledger of 261 rows on which a page stalls and a row is lost |
| LedgerWalks.WalkMayListADuplicate | src/routes/custody.ts:816-818 | a concrete ledger whose walk lists a duplicate that the offset scan hides |
| LedgerCursor.CursorRoundTrip | src/routes/custody.ts:530-541 | decoding an encoded cursor gives it back if and only if the id is not empty, has no double underscore and does not start with one; otherwise it is rejected, never a different position |
| LedgerCursor.DecodeExactly | src/routes/custody.ts:534-541 | text is read as a cursor if and only if its last double underscore has a date before it and an id that is not empty after it |
| LedgerCursor.LawfulIsPossible | src/routes/custody.ts:531-537 | date functions with the assumed properties exist |
| SettlementProceeds.PlanRedeemBounds | src/copyTrading/services/copySettlementProceeds.ts:175-190 | a planned redeem pays between nothing and the smaller of the chain payout and a dollar a share |
| SettlementProceeds.FullWinIsPaidInFull | src/copyTrading/services/copySettlementProceeds.ts:142-190 | a full win is not scaled down by an inflated wallet size |
| SettlementCases.PlanRedeemExactly | src/copyTrading/services/copySettlementProceeds.ts:146-190 | the planned part of a redeem in every case: nothing for dust, all of a win, otherwise the payout divided by the wallet shares times the closed ones, up to a dollar a share |
| SettlementCases.WalletSharesExactly | src/copyTrading/services/copySettlementProceeds.ts:146-163 | the wallet size of a redeem: the closed shares for a win, otherwise the least number not below the recorded size, the closed shares and a payout above them |
| SettlementProceeds.MarketSellBounds | src/copyTrading/services/copySettlementProceeds.ts:47-69 | a repaired market sell pays between nothing and a dollar a share, dust lots included |
| SettlementCases.SellTotalExactly | src/copyTrading/services/copySettlementProceeds.ts:12-69 | what a repaired market sell pays: its value up to a dollar a share, a dust lot at most its cost |
| SettlementCases.ScaledFillExactly | src/copyTrading/services/copySettlementProceeds.ts:111-122 | a fill counts in proportion to the closed shares, in every case of missing amounts |
| SettlementCases.BudgetScaleExactly | src/copyTrading/services/copySettlementProceeds.ts:165-173 | amounts above the payout are scaled so that they keep their proportion and add up to it, others stay |
| CloseCapping.CapLotCloseRows | scripts/repair-copy-settlement-pnl.ts:150-208 | the pass in place, with its counts and totals |
| CloseCapping.CapsExactly | scripts/repair-copy-settlement-pnl.ts:162-178 | a row is cut if and only if its buy has a recorded size and what is left of it differs from the size of the row by more than EPS |
| CloseCapping.KeptExactly | src/copyTrading/services/copySettlementProceeds.ts:124-140 | the size and the cost basis that a row keeps |
| CloseCapping.CutRowExactly | scripts/repair-copy-settlement-pnl.ts:176-205 | every field of a cut row, in a dry run and in a live one |
| CloseCapping.ReportIsTrue | scripts/repair-copy-settlement-pnl.ts:158-207 | the reported count is the number of rows that changed, the reported total what the new rows close up to EPS a row |
| CloseCapping.BudgetIsMet | scripts/repair-copy-settlement-pnl.ts:162-178 | the rows of a buy with a recorded size close what they ask for or what is left of that size, whichever is less, up to EPS a row |
| CloseCapping.NoRowGrows | scripts/repair-copy-settlement-pnl.ts:162-207 | no row grows and a row without a recorded size is not touched |
| CloseCapping.CutKeepsPrice | scripts/repair-copy-settlement-pnl.ts:180-201 | a cut row keeps its proceeds per share and its books balance, up to rounding |
| CloseCapping.SecondPassCutsNothing | scripts/repair-copy-settlement-pnl.ts:150-208 | after a pass a second one cuts no row, although sizes were rounded in between |
| CloseCapping.CappingSettles | scripts/repair-copy-settlement-pnl.ts:149-208 | the whole pass: every recorded buy keeps and uses its budget, and a second pass cuts nothing |
| LotRepair.SpreadConserves | scripts/repair-copy-settlement-pnl.ts:700-717 | a group's rows share its planned total exactly before rounding |
| LotRepair.PortionsFollowShares | scripts/repair-copy-settlement-pnl.ts:700-717 | the part of a row stands to the total as its shares to those of the group |
| LotRepair.StoredRow | scripts/repair-copy-settlement-pnl.ts:710-721 | a stored row is within half a unit of the 8th decimal of its amounts and its books balance |
| LotRepair.ExitPriceExactly | scripts/repair-copy-settlement-pnl.ts:710-731 | the exit price is the proceeds per share, rounded, and 0 for a row that closed nothing; nothing but price, proceeds and result changes |
| Money.DecExactly | scripts/repair-copy-settlement-pnl.ts:96-104 | a stored amount is the nearest whole number of units of the 8th decimal, halves away from zero |
| LotRepair.StoredGroupConserves | scripts/repair-copy-settlement-pnl.ts:699-731 | what is stored for a group of n rows misses its total, and its result, by at most n half units |
| LotRepair.ApplyGroupRepairs | scripts/repair-copy-settlement-pnl.ts:691-773 | spreading in place: the group's rows, the untouched others, and the reported totals |
| LotRepair.AnchorPass | scripts/repair-copy-settlement-pnl.ts:627-689 | anchoring in place: when it applies, proceeds are exactly the non-negative target and the result exactly balance minus deposit, or proceeds are zero for a negative target |
| LotRepair.ScaledToTarget | scripts/repair-copy-settlement-pnl.ts:650-660 | one common factor takes the proceeds to the target |
| LotRepair.AnchoredTotals | scripts/repair-copy-settlement-pnl.ts:654-676 | what is stored is within half a unit a row of the target, costs are unchanged |
| LotRepair.SecondAnchorPassRests | scripts/repair-copy-settlement-pnl.ts:637-648 | a second pass does not apply for up to ten million rows, or for a negative target |
| LotRepair.ManyRowsNeedASecondPass | scripts/repair-copy-settlement-pnl.ts:637-663 | for any more rows there is a list on which it does |
| LotRepair.SecondAnchorPassRestsExactly | scripts/repair-copy-settlement-pnl.ts:627-689 | the bound is exact |
| LotRepair.ExitAtMostADollar | scripts/repair-copy-settlement-pnl.ts:709-717 | spreading a total of at most a dollar a share gives no row an exit price above a dollar |
| RedeemPlans.Resolve | src/services/polymarket/redeemProceedsFromChain.ts:14-42 | a confirmed chain amount is never negative |
| RedeemPlans.RedeemTotalBounds | scripts/repair-copy-settlement-pnl.ts:280-299 | a redeem group is paid at most what the chain paid and at most a dollar a share |
| SettlementCases.RedeemTotalExactly | scripts/repair-copy-settlement-pnl.ts:280-299 | the payment of a confirmed redeem in every case: the planned part for a win, for a booked result of at least 20 cents or for a raise of at most 50 cents; held back, the old proceeds if there were any, else the whole payout, both capped |
| RedeemPlans.WinningRedeemIsPaidInFull | scripts/repair-copy-settlement-pnl.ts:288-299 | a payout of 90 cents to $1.05 a share is paid in full whatever the old books say |
| RedeemPlans.RedeemRaiseIsSmallExactly | scripts/repair-copy-settlement-pnl.ts:280-299 | short of a win, a group booked below 20 cents of profit is raised by at most 50 cents or not beyond its old proceeds if and only if it had old proceeds, or the plan itself raises it so little, or already the whole payout at a dollar a share does |
| RedeemPlans.LostGroupIsPaidTheWholeWallet | scripts/repair-copy-settlement-pnl.ts:295-299 | a concrete group without old proceeds whose part of a payout is 60 cents and which is credited all six dollars |
| RedeemPlans.MarketSellPaysAtMostItsFill | scripts/repair-copy-settlement-pnl.ts:363-387 | a repaired market sell with a usable fill is credited at most that fill and at most 5% above its price a share; without one, at most the proceeds it had |
| RedeemPlans.PlanGroupIsOk | scripts/repair-copy-settlement-pnl.ts:210-388 | every fresh plan that will be applied exits between zero and a dollar a share, and a redeem within its chain amount |
| SettlementCases.LegacyPlanExactly | scripts/repair-copy-settlement-pnl.ts:231-317 | the whole plan of a legacy group, reason by reason |
| SettlementCases.CopyPlanExactly | scripts/repair-copy-settlement-pnl.ts:319-388 | the whole plan of a copied sell, reason by reason, with what it pays |
| SettlementCases.EmptyPlanExactly | scripts/repair-copy-settlement-pnl.ts:210-229 | a group that closed nothing is skipped |
| RedeemPlans.CapMeetsBudget | scripts/repair-copy-settlement-pnl.ts:402-417 | the budget pass brings a transaction over its budget to exactly the chain amount and leaves the others alone |
| SettlementCases.BudgetPassExactly | scripts/repair-copy-settlement-pnl.ts:402-417 | the budget pass scales a plan if and only if its transaction is confirmed and its plans exceed the payout by more than two cents, and by which factor |
| RedeemPlans.CapKeepsOk | scripts/repair-copy-settlement-pnl.ts:390-419 | the budget pass keeps the bounds of every plan |
| RedeemPlans.DedupKeepsOk | scripts/repair-copy-settlement-pnl.ts:422-478 | so does the duplicate pass |
| RedeemPlans.OnePayerPerTx | scripts/repair-copy-settlement-pnl.ts:435-474 | after the duplicate pass at most one plan of a transaction pays anything |
| SettlementCases.DuplicatePayoutExactly | scripts/repair-copy-settlement-pnl.ts:435-474 | who is paid in a transaction with several redeem groups: the only one whose closed shares fit the payout gets `min(usd, closed)` and stays a redeem, all others, or all of them when none or several fit, end at 0 and ExpiredWorthless |
| SettlementCases.OthersPassUntouched | scripts/repair-copy-settlement-pnl.ts:422-448 | the duplicate pass changes nothing but applied redeems with a transaction |
| RedeemPlans.ManualClosesPayNothing | scripts/repair-copy-settlement-pnl.ts:504-524 | a redeem booked after its position was closed by hand ends up worthless after all passes |
| SettlementCases.ManualPassExactly | scripts/repair-copy-settlement-pnl.ts:504-524 | which plans the manual-close pass expires, and that it changes no other |
| SettlementCases.SurvivorKeepsItsPart | scripts/repair-copy-settlement-pnl.ts:840-857 | the order of the passes: a redeem whose rivals were all closed by hand keeps the part the budget pass gave it, although that pass counted the rivals |
| RedeemPlans.LoneRedeemIsKept | scripts/repair-copy-settlement-pnl.ts:390-526 | a redeem alone in its transaction and not closed by hand passes through unchanged |
| RedeemPlans.NoTxIsOverCredited | scripts/repair-copy-settlement-pnl.ts:390-526 | after all passes the applied plans of a transaction add up to at most the chain amount and at most one pays |
| SettlementRepair.GroupLotCloses | scripts/repair-copy-settlement-pnl.ts:113-121 | the groups by sell key in order of first occurrence |
| SettlementRepair.GroupsPartition | scripts/repair-copy-settlement-pnl.ts:113-121 | every row is in the group of its key and in no other, once |
| SettlementRepair.GroupByTx | scripts/repair-copy-settlement-pnl.ts:394-400 | the plans of each transaction that take part in a pass |
| SettlementRepair.CapRedeemPlansByTxBudget | scripts/repair-copy-settlement-pnl.ts:390-419 | the budget pass in place changes exactly the plans of transactions over budget |
| SettlementRepair.LatestManualCloses | scripts/repair-copy-settlement-pnl.ts:493-500 | the latest manual close of each token |
| SettlementRepair.ZeroAutoRedeemAfterManualClose | scripts/repair-copy-settlement-pnl.ts:480-526 | the manual-close pass in place |
| SettlementRepair.WinnersOfTx | scripts/repair-copy-settlement-pnl.ts:450-459 | collecting winners within a transaction finds exactly its full-win redeems |
| SettlementRepair.ZeroDuplicateRedeemTx | scripts/repair-copy-settlement-pnl.ts:422-478 | the duplicate pass in place |
| SettlementRun.RunPasses | scripts/repair-copy-settlement-pnl.ts:840-857 | the three passes one after the other |
| SettlementRun.PassesKeepGroups | scripts/repair-copy-settlement-pnl.ts:390-526 | the passes change what a plan pays and its kind, never its group, transaction or skip reason |
| SettlementRun.ApplyPlans | scripts/repair-copy-settlement-pnl.ts:859-884 | every row ends up as the plan of its own group makes it, although groups are applied one by one on shared rows |
| SettlementRun.PlanAndApply | scripts/repair-copy-settlement-pnl.ts:826-884 | grouping, planning, passes and application together |
| SettlementRun.RepairUser | scripts/repair-copy-settlement-pnl.ts:815-884 | the whole repair of one user from the stored rows to the stored rows |
| SettlementRun.StoredGroup | scripts/repair-copy-settlement-pnl.ts:859-884 | an applied group stores its planned total up to half a unit a row |
| SettlementRun.SkippedRowsAreUntouched | scripts/repair-copy-settlement-pnl.ts:859-884 | a skipped group keeps its rows |
| SettlementRun.AppliedRowsGetTheirPart | scripts/repair-copy-settlement-pnl.ts:859-884 | every row of an applied group stores its part of the group total, by its shares |
| SettlementRun.NoRowExitsAboveADollar | scripts/repair-copy-settlement-pnl.ts:815-884 | after the repair no row of an applied group has an exit price above a dollar a share |
| SettlementRun.ManuallyClosedRowsPayNothing | scripts/repair-copy-settlement-pnl.ts:480-526 | after the repair no row of a redeem booked after a manual close keeps proceeds |
| SettlementRun.TxRowsStayWithinBudget | scripts/repair-copy-settlement-pnl.ts:815-884 | after the repair the rows settled by one transaction store at most what the chain confirmed for it, up to half a unit a row |

## Left out

- Prisma, HTTP handling, authentication, chain RPC, the deposit syncs and cron wiring: tables, receipts and requests are parameters.
- Floating-point representation: amounts are reals; the shares 0.8 and 0.3 are the exact fractions, while `Math.ceil(limit * 0.8)` and `Math.ceil(limit * 0.3)` may differ by one where the product is not exact in binary.
- Text beyond ASCII and UTF-16 order: wallets and ids are compared character by character, as `>` and `localeCompare` agree on lower-case hexadecimal text; the database is taken to order ids the same way.
- Date parsing: the cursor codec takes `toISOString` and `Date` as parameters with the properties it needs; trimming of the query parameter is not modelled.
- A `take` that is not a whole number from 1 to 50, and metadata values that are neither text nor absent.
- Rows inserted or changed between ledger requests: the table is fixed during a walk.
- The display mapping of ledger entries, its category relabelling, and the early-stop parameter's callers.
- Limits that are negative or not whole numbers, and a negative `refreshShare` of `pickDeep`.
- The bench loop's fallback to due QUALIFIED wallets after an empty pick, and the analyses that it makes fail on purpose.
- `runIncrementalUnit`, seed data, assertions, bench estimates, console reports, logging and the adjusted-group counters.
- The `scoreCache` map, which nothing in the modelled functions reads, and the setting of `dormant`, which nothing in the source file does: the run laws hold from every state that satisfies the invariant, dormant rows included.
- `runReconcilePass`, `resolveCashAnchor` and `syncLegacySettlementExecutionsFromLotCloses`: calls into modules and tables outside the modelled passes.
- The writes of `applyGroupRepairs` to `copyExecution` and `copyTradeRow`; only the lot-close rows are kept.
- Equality of dry runs and live runs: in a dry run the capping pass changes sizes and costs but not proceeds, as `CutLot` shows.
- Aliasing of row objects between a plan and the row list: a plan keeps a copy of its rows taken when it was made; no pass changes the rows before the plans are applied, so it reads the same values.
- Cash anchoring after a repair: it scales all rows by one factor and may raise the rows of a transaction above its budget, so the two are not stated together.
