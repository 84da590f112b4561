# Verification of the shai price oracle and its neighbours

This project models, in Dafny, the parts of shai that keep state which must agree with a simpler
history, or that do exact arithmetic with a real bound, and proves what they are for.

- **Confirmed pool activity.** `Activity` is the in-memory tracker of swap-shaped reserve moves over a
  rolling slot window; `ActivityStorage` is the same data in an ordered key-value store with budgeted
  pruning and a rollback in several transactions; `Oracle` drives both. Each is a class whose methods
  are proved against a specification function or relation (`ActivitySpec`, `ActivityRestore`,
  `ActivityStore`, `OracleRuns`). `ActivityReports` says which swaps a volume counts,
  `ActivityHistory` compares the tracker with an unpruned log, `ActivityBatches` a rollback batch with the
  disk and the budget it finds, and `OracleResults`, `OracleVolume`, `OracleEvents` and `OracleLosses`
  compare whole runs, with rollbacks, crashes between the batches of a rollback, and restarts, with the
  chain that was delivered.
- **TWAP.** `Twap` is the engine; `TwapSpec`, `TwapHistory` and `TwapResults` relate its bounded list
  to the integral of the step function of the never-pruned history.
- **Swap arithmetic.** `SwapMath` and `SpectrumPool` hold the constant-product swap with its floors,
  over sequences of swaps; `SwapTx` the amounts of a swap transaction and their balance.
- **ADA/USD.** `WeightedMedian` and `AdaUsd` hold the qualification of pools, the liquidity-weighted
  median and the agreement checks.
- **Djed.** `DjedSpec` and `Djed` hold the tracker of produced and spent oracle outputs.
- **Derived views.** `MempoolSpec` and `Mempool` (pending deltas on a moving confirmed state),
  `WatchesSpec`, `WatchRuns` and `Watches` (indexed watches against a scan of targets), `ChainSyncSpec`
  and `ChainSync` (recent blocks streamed to subscribers).

`Words`, `Text` and `Dex` hold machine words, Go's string order and decimal renderings, and the pool and
swap records. 64-bit words are subset types of `int`, so every wrap and every conversion is written
out where the source has one. A Go map that is iterated becomes a loop that picks any remaining key, so
what is proved holds for every iteration order. A mutex-protected method is one atomic step, and so is
one database transaction.

## What turned out false, and exactly when it holds

- *Retained swaps are the history cut at the window of the highest slot.* After a rollback deeper than
  the window, newly accepted swaps lie below that window (`ActivityHistory.DeepRollbackKeepsMore`).
  It holds throughout a run if and only if no step records a swap at a slot below that window
  (`ActivityHistory.RunStaysExactIff`; `ActivityHistory.StepStaysExactIff` for one step). Volume
  queries at or above the highest slot are exact in any case (`ActivityHistory.VolumeScansWholeHistory`).
- *Every swap-shaped move on the chain is recorded.* A rollback drops the pools it rolls back instead of
  going back to their earlier state, so the next move of such a pool is not recorded
  (`OracleLosses.RolledBackPoolMissesNextMove`; `OracleLosses.MissedMoveRun` is a run from the start in
  which that move is swap-shaped). A move is recorded if and only if it is swap-shaped and its pool is
  tracked when it arrives (`OracleLosses.DeliveryRecordsIff`; `OracleEvents.RecordedIff` and
  `OracleEvents.TrackedByIff` decide it from the events alone). The reported volume is the turnover of the
  recorded moves in every run (`OracleVolume.VolumeIsRecordedTurnover`, `OracleEvents.VolumeFromEvents`).
- *A restart after a failed write reports the same volume.* `handleTransaction` moves memory before it
  writes. If the write fails and the process restarts, a query at or above the highest slot is answered as
  memory answered it if and only if the pool was not tracked, the move was not swap-shaped, the query is
  about another pool, the slot lies before the window of the query, or the volume overflowed already
  (`OracleLosses.FailedWriteVolumeIff`; `OracleLosses.FailedWriteAgreesIff` for the restored swaps;
  `OracleLosses.FailedWriteRun` is a run from the start whose answers differ). Delivering the state again
  does not bring the swap to the disk (`OracleLosses.RetryRecordsNothing`).
- *An interrupted rollback never leaves a rolled-back swap at or below the recorded tip*, as the comment on
  `RollbackActivity` says. After a committed batch such a swap remains if and only if the budget did
  not reach the start of every rolled-back slot, counted from the newest key down
  (`ActivityBatches.BatchLeavesCountedIff`; `ActivityBatches.InterruptedRollbackCounts` is a batch that
  shows it). What every batch does keep is that nothing is stored above the recorded tip, and
  that running the rollback again completes it.
- *TWAP pruning is invisible at or after the newest observation.* After a rollback it can show
  (`TwapResults.RollbackMakesPruningVisible`). `TwapResults.PruningInvisibleIff` has the exact condition,
  and `TwapResults.AnswerIsUnprunedIff` the one that the engine's own fields decide for an answer it gives;
  without the limit on the number of observations pruning is invisible at or after the latest time
  observed.
- *createSwapTx conserves value.* `CalculateReturnToPool` adds the input to the reserve without a check
  for overflow; value is conserved if and only if that sum fits a word (`SwapTx.ValueConservedIff`).
  `SwapTx.WrappedReserveLosesValue` is an order that every guard accepts and that does not balance.
- *Splitting a swap never pays more.* It holds for all 64-bit reserves and all amounts that fit them if and
  only if the fee multiplier is at most one (`SwapMath.SplittingNeverPaysMoreIff`); the fee comes unchecked
  from a datum.
- *Djed pruning never changes the current observation.* It needs later rollbacks to stay at or after the
  slot before the pruned one. `DjedSpec.PruneThenRollbackIff` says exactly when a rollback loses an unspent
  observation, `DjedSpec.PruneChangesCurrentIff` when the answer differs at some time, and
  `DjedSpec.PruneBeyondTheHorizonLoses` shows a loss.
- *Chain replay does not resurrect a consumed Djed output*, as the comment in `Apply` says. After `Prune` has
  removed the output, delivering it again tracks it as unspent (`DjedSpec.RedeliveryResurrects`). A
  redelivered consumed output comes back if and only if it was spent before the pruned slot
  (`DjedSpec.RedeliveredAfterPruneIff`), and after any run a delivery keeps the unspent observations those
  of the chain if and only if it is not the production of a pruned output
  (`DjedSpec.DeliveryKeepsUnspentIff`). Other events may be delivered again at any time.
- *Rebased mempool deltas are exact.* Outside int64 they can drift (`MempoolSpec.SaturationDrifts`).
  `MempoolSpec.RebaseIsExactIff` has the exact condition for one rebase, and
  `MempoolSpec.RunStaysFreshIff` for a whole run, confirmation by confirmation.

## Model

| member | source | states |
|---|---|---|
| `Dex.InferenceIsExact` | dex/activity.go:107-152 | a transition is inferred exactly when the two reserves moved in opposite directions, and it is the only one that explains the move; anything else is no swap |
| `Dex.InferenceCases` | dex/activity.go:107-152 | nothing is inferred without two confirmed states, and two of them mismatch exactly when their pool or an asset differs |
| `Activity.ActivityTracker.NewActivityTracker` | dex/activity.go:94-102 | a window of zero is refused, and a new tracker is empty |
| `Activity.ActivityTracker.Observe` | dex/activity.go:156-184 | the new tracker state is the specified one: out-of-order states refused, the window advanced and pruned, an inferred swap appended |
| `Activity.ActivityTracker.ObserveTransition` | dex/activity_state.go:37-87 | as Observe, with a redelivered swap accepted but not recorded again and a conflicting one refused; returns the swap that was newly recorded |
| `Activity.ActivityTracker.Volume` | dex/activity.go:187-239 | refuses a query below the latest slot; otherwise the sums of either amount, the number, and the least and the greatest slot of the retained swaps of the window, none exactly when there is none, and an overflow exactly when one of the numbers does not fit a word |
| `Activity.ActivityTracker.Rollback` | dex/activity.go:246-268 | drops exactly the swaps at or after the slot and moves the tip back |
| `Activity.ActivityTracker.Prune` | dex/activity.go:270-291 | drops exactly the swaps below the cutoff, and pools left with none |
| `Activity.ActivityTracker.Snapshot` | dex/activity_state.go:97-112 | the snapshot lists all retained swaps, sorted, with window and tip |
| `Activity.ActivityTracker.Restore` | dex/activity_state.go:117-157 | succeeds or fails as specified, and a failed restore changes nothing |
| `Activity.ActivityTracker.GroupByPool` | dex/activity_state.go:137-151 | the comparison with the previous swap of the list finds every repeated identity |
| `ActivityHistory.RunRefines` | dex/activity.go:156-291 | over every run of observations and rollbacks each retained list is a suffix of the unpruned history of its pool that contains everything in the window of the highest slot |
| `ActivityHistory.VolumeScansWholeHistory` | dex/activity.go:187-239 | at or above the highest slot ever observed Volume equals a scan of the whole never-pruned history, and fails exactly when a true sum does not fit in 64 bits |
| `ActivityHistory.VolumeReportsHistory` | dex/activity.go:187-239 | over every run, at or above the highest slot, Volume reports every swap of that pool in the window, each as often as it was recorded, and no swap of another pool |
| `ActivityReports.PoolKeyIff` | dex/models.go:222-224 | keys tell pools apart when network and protocol are free of the separator |
| `ActivityHistory.VolumeExactWithoutRollback` | dex/activity.go:187-239 | without rollbacks every accepted query is answered from the whole history |
| `ActivityHistory.RetainedSorted` | dex/activity.go:176-182 | every retained list is in slot order after any run |
| `ActivityHistory.WindowIsNothingBelow` | dex/activity.go:270-291 | the retained lists are the history cut at the window of the highest slot if and only if nothing older is retained |
| `ActivityHistory.StepStaysExactIff` | dex/activity.go:270-291 | one step keeps them so if and only if it does not record a swap at a slot below that window |
| `ActivityHistory.RunStaysExactIff` | dex/activity.go:270-291 | they are so throughout a run if and only if no step of it records such a swap |
| `ActivityHistory.DeepRollbackKeepsMore` | dex/activity.go:246-268 | a run in which a rollback deeper than the window leaves more than that cut |
| `ActivityLists.TurnoverOfPermutation` | dex/activity.go:187-239 | the reported volume depends on which swaps are listed, not on how those of one slot are ordered |
| `ActivityLists.TurnoverOfSameWindow` | dex/activity.go:187-239 | two lists that agree on the swaps of the window report the same volume |
| `ActivityLists.SortedProperties` | dex/activity_state.go:181-200 | sorting permutes, and the result is in the canonical order |
| `ActivityRestore.LastOfPoolFindsDuplicate` | dex/activity_state.go:137-151 | in a sorted list the check against the last swap of the same pool finds every repetition |
| `ActivityRestore.ObserveTransitionOk` | dex/activity_state.go:37-87 | the tracker's invariant is kept, and an accepted state changes the retained swaps only by its own swap and by what left the window |
| `ActivityRestore.ObserveOutcome` | dex/activity.go:156-184 | each refusal of Observe names its check, changes nothing, and a swap is returned exactly when one is inferred in order |
| `ActivityRestore.ObserveTransitionOutcome` | dex/activity_state.go:37-87 | each refusal of ObserveTransition names its check and changes nothing, and a swap is returned exactly when one of a new identity is inferred in order |
| `ActivityRestore.RollbackOk` | dex/activity.go:246-268 | exactly the swaps below the slot are kept, and the tip becomes the greatest slot not above it that is below the rollback point |
| `ActivityRestore.RestoredExactly` | dex/activity_state.go:117-157 | Restore accepts exactly the states with the tracker's window, valid swaps and no repeated identity, and then holds the listed swaps inside the window |
| `ActivityRestore.RestoreRefusals` | dex/activity_state.go:119-190 | another window is refused as such, and a missing window, a malformed swap or a repeated identity as invalid |
| `ActivityRestore.SnapshotRestores` | dex/activity_state.go:97-157 | restoring the snapshot of a reachable tracker succeeds and answers every volume query as the tracker did |
| `ActivityStore.KeyHoldsSlot` | internal/oracle/activity_storage.go:299-324 | the slot is read back from the key, for every 64-bit slot |
| `ActivityStore.SlotReadIff` | internal/oracle/activity_storage.go:313-324 | a slot is read from exactly the keys with twenty digits before the separator whose value fits a word |
| `ActivityStore.KeyOrderIsSlotOrder` | internal/oracle/activity_storage.go:299-311 | lexicographic key order is numeric slot order |
| `ActivityStore.ReverseSeekIsAbove` | internal/oracle/activity_storage.go:437-442 | the seed of the reverse scan is above every key |
| `ActivityStore.KeyInjective` | internal/oracle/activity_storage.go:299-311 | equal keys mean the same swap identity |
| `ActivityStore.StateKeyIff` | internal/oracle/storage.go:311-313 | keys of pool states tell pools apart when network and protocol are free of the separator |
| `Text.PaddedOrder` | internal/oracle/activity_storage.go:299-311 | zero-padded decimals of one width are ordered as their numbers |
| `Text.PaddedValue` | internal/oracle/activity_storage.go:313-324 | parsing a zero-padded decimal gives the number back |
| `ActivityStorage.OracleStorage.PrunableKeys` | internal/oracle/activity_storage.go:342-385 | the scan in key order selects the oldest swaps below the cutoff, as many as the budget allows and no others |
| `ActivityStore.PruneMissesNothing` | internal/oracle/activity_storage.go:360-369 | stopping at the first key at or above the cutoff misses nothing |
| `ActivityStore.FitsIff` | internal/oracle/activity_storage.go:326-390 | a deletion budget limits the number of keys, and the length of their text with twelve bytes for each |
| `ActivityStorage.OracleStorage.RolledBackKeys` | internal/oracle/activity_storage.go:392-435 | the reverse scan selects whole slots, newest key first, and goes on exactly as long as the next slot starts within the budget, but takes at least one slot; says truly whether anything at or after the slot remains |
| `ActivityStorage.OracleStorage.SavePoolStateAndActivity` | internal/oracle/activity_storage.go:45-132 | one transaction writes the state, the swap and the metadata and prunes; a failed one changes nothing |
| `ActivityStorage.OracleStorage.LoadActivityState` | internal/oracle/activity_storage.go:135-201 | loads every stored swap once with the recorded window and tip, and refuses swaps without metadata |
| `ActivityStorage.OracleStorage.RollbackActivityBatch` | internal/oracle/activity_storage.go:227-262 | one transaction deletes a selection and rewinds the tip below it |
| `ActivityStorage.OracleStorage.RewindActivityMeta` | internal/oracle/activity_storage.go:270-297 | the recorded tip ends just below the first invalid slot (or at 0 when that is slot 0), is never advanced, and stays as it is when already below; the window stays |
| `ActivityStorage.OracleStorage.RollbackActivity` | internal/oracle/activity_storage.go:209-220 | for every budget, zero included, it terminates in the one-shot result |
| `ActivityStore.SaveKeepsOk` | internal/oracle/activity_storage.go:78-127 | a save keeps: nothing stored above the recorded tip, and swaps only with metadata |
| `ActivityStore.BatchKeepsOk` | internal/oracle/activity_storage.go:227-262 | so does every batch of a rollback |
| `ActivityStore.BatchIsPartOfRollback` | internal/oracle/activity_storage.go:209-262 | after a batch the rest of the rollback reaches the same disk, the last batch reaches it itself, and any other makes the table smaller |
| `ActivityBatches.SelectedIsPrefix` | internal/oracle/activity_storage.go:392-435 | what a batch selects is a prefix of the listing of all rolled-back keys from the newest down |
| `ActivityBatches.LastBatchIff` | internal/oracle/activity_storage.go:392-435 | the batch is the last one if and only if the budget reaches the start of every rolled-back slot in that listing |
| `ActivityBatches.BatchLeavesCountedIff` | internal/oracle/activity_storage.go:203-262 | after a batch some rolled-back swap is stored at or below the recorded tip if and only if the budget did not reach every rolled-back slot |
| `ActivityBatches.InterruptedRollbackCounts` | internal/oracle/activity_storage.go:203-262 | a committed batch that leaves one |
| `ActivityStore.InterruptedRollbackResumes` | internal/oracle/activity_storage.go:209-297 | wherever a rollback stopped, the disk is valid and rolling back again reaches the one-shot result |
| `ActivityStore.LoadedRestores` | internal/oracle/activity_storage.go:135-201 | what is loaded from a valid disk can be restored, and the tracker holds exactly the stored swaps inside the window |
| `Oracle.PoolOracle.HandleTransaction` | internal/oracle/oracle.go:338-387 | success is one delivery step of memory and disk; a refused state changes nothing; a failed write leaves the disk as it was and memory moved on, tracker and pools |
| `Oracle.PoolOracle.HandleRollback` | internal/oracle/oracle.go:549-672 | memory and disk both become the rolled-back machine, and the tracker only follows a durable rollback that succeeded |
| `Oracle.PoolOracle.LoadPersistedStates` | internal/oracle/oracle.go:692-753 | loads all stored pools and the tracker; from a valid disk with the same window it always succeeds |
| `OracleRuns.RunsOk` | internal/oracle/oracle.go:338-387 | an invariant of every world of every run of deliveries, rollbacks, crashes and crashes between the batches of a rollback |
| `OracleRuns.BatchesShrink` | internal/oracle/activity_storage.go:227-297 | batches never add swaps, never touch those below the rollback point and only lower the tip |
| `OracleResults.TrackedPoolsAreLastOnChain` | internal/oracle/oracle.go:339-367 | every tracked pool, in memory and on disk, is the pool's last state on the current chain |
| `OracleResults.RetainedSwapsAreOnChain` | internal/oracle/oracle.go:339-367 | every retained swap is the exact reserve difference of two consecutive on-chain states of its pool, and no identity is retained twice |
| `OracleResults.InOrderDeliveriesAccepted` | dex/activity_state.go:37-87 | no in-order delivery is refused, after any run |
| `OracleResults.RestartAgrees` | internal/oracle/oracle.go:692-753 | at any crash point of any run what is loaded can be restored, and the restored tracker answers every query at or above the highest slot as the running one; while a rollback is pending, every query |
| `OracleResults.PendingAgrees` | internal/oracle/oracle.go:692-753 | while a rollback is pending another restart gives the same answer to every query, refusals included |
| `OracleResults.RestartAgreesWithoutRollback` | internal/oracle/oracle.go:692-753 | in runs without rollbacks the restored tracker gives the same answer to every query at all |
| `OracleVolume.VolumeIsRecordedTurnover` | dex/activity.go:187-239 | in every run with rollbacks, crashes and restarts, unless a rollback is pending, the volume at or above the highest slot is the turnover of the pool's recorded moves on the current chain in the window |
| `OracleVolume.VolumeIsChainTurnover` | dex/activity.go:187-239 | as long as nothing tracked was rolled back every swap-shaped move is recorded, so the volume is the turnover of all of them |
| `OracleEvents.TrackedByIff` | internal/oracle/oracle.go:549-607 | after any events a state is tracked if and only if it was delivered and no later event replaced it, rolled it back or crashed after deleting its record |
| `OracleEvents.TrackedIsTrackedBy` | internal/oracle/oracle.go:549-607 | after every run the pools in memory are the ones that the events leave |
| `OracleEvents.RecordedIff` | internal/oracle/oracle.go:339-367 | a move is recorded if and only if some delivery made it while its pool was tracked, by the events before, and no later rollback took it back |
| `OracleEvents.VolumeFromEvents` | dex/activity.go:187-239 | the reported volume is the turnover, in the window, of the moves that the events say were recorded |
| `OracleEvents.VolumeReportsRecorded` | dex/activity.go:187-239 | in every run the volume is made up of every move of that pool in the window that the events say was recorded, each once, and of no other: its sums, its number of moves, its first and last slot |
| `OracleEvents.VolumeReportsChain` | dex/activity.go:187-239 | as long as nothing tracked is rolled back these are all the swap-shaped moves of that pool on the chain |
| `OracleLosses.DeliveryRecordsIff` | internal/oracle/oracle.go:339-367 | a delivery records its move on the chain if and only if the move is swap-shaped and the pool is tracked |
| `OracleLosses.RolledBackPoolMissesNextMove` | internal/oracle/oracle.go:549-607 | after a rollback the next delivery of a rolled-back pool records nothing |
| `OracleLosses.MissedMoveRun` | internal/oracle/oracle.go:549-607 | a run from the start in which that delivery is a swap-shaped move on the chain |
| `OracleLosses.DeliveryPossible` | internal/oracle/oracle.go:338-387 | every in-order delivery has a next world, so the runs above do not get stuck |
| `OracleLosses.FailedWriteAgreesIff` | internal/oracle/oracle.go:349-387 | a restart after a failed write restores the swaps in memory on the window of the highest slot if and only if the pool is untracked, the move not swap-shaped, or the slot below that window |
| `OracleLosses.FailedWriteVolumeIff` | internal/oracle/oracle.go:349-387 | a query at or above the highest slot is answered after the restart as memory answered it if and only if it is not about a lost move in its window whose pool had a volume that fits |
| `OracleLosses.FailedWriteRun` | internal/oracle/oracle.go:349-387 | a run from the start after which memory reports a swap and the restarted oracle none |
| `OracleLosses.RetryRecordsNothing` | internal/oracle/oracle.go:349-387 | delivering the state again after a failed write stores no swap |
| `Twap.TWAPEngine.NewTWAPEngine` | price/twap.go:106-115 | exactly the valid configurations make an engine, and it is empty |
| `Twap.TWAPEngine.NewTWAPEngineFromState` | price/twap.go:118-155 | replays the persisted observations, or fails as specified |
| `Twap.TWAPEngine.Observe` | price/twap.go:159-183 | the new state or the error is the specified one; an accepted observation leaves the anchor of the window and everything later, or exactly the newest up to the limit |
| `Twap.TWAPEngine.Prune` | price/twap.go:315-335 | keeps the newest observation at or before the window start and all later ones when they fit the limit, and otherwise exactly the newest up to the limit; notes when anything was dropped |
| `Twap.TWAPEngine.TWAPAt` | price/twap.go:187-263 | the interval sums are the average of the step function over the covered time, with the source's errors |
| `Twap.TWAPEngine.Accumulate` | price/twap.go:225-241 | the loop over intervals computes the integral of the step function and counts the observations used |
| `Twap.TWAPEngine.IntervalWeight` | price/twap.go:341-350 | each added product is the integral over its interval |
| `Twap.TWAPEngine.Rollback` | price/twap.go:267-285 | keeps exactly the observations at or below the slot, or refuses and changes nothing |
| `Twap.TWAPEngine.Snapshot` | price/twap.go:295-313 | returns the whole state |
| `TwapHistory.RunHolds` | price/twap.go:159-335 | in every run the retained observations are a suffix of the logical history, all of it unless history was pruned |
| `TwapHistory.ObservationRetains` | price/twap.go:159-335 | after every run an accepted observation leaves the anchor of the window and everything later when that fits the limit, otherwise exactly as many of the newest, and the flag tells whether anything was ever dropped |
| `TwapResults.ObserveRefusals` | price/twap.go:159-183 | an observation is refused as invalid without a time or a positive price, as out of order when it does not follow the newest in slot and time, and accepted otherwise |
| `TwapResults.TwapIsExact` | price/twap.go:187-263 | whenever an answer is given, price times coverage is the integral of the step function of the never-pruned history over the covered time |
| `TwapResults.TwapWithinPrices` | price/twap.go:187-263 | the price lies between any bounds of the prices in effect there |
| `TwapResults.QueryIff` | price/twap.go:187-263 | an answer is given exactly when the latest observation is fresh and enough time is covered, each refusal names what is missing, and every field of the answer is that of the observations: the covered time, the number of them used, and the slot and time of the latest |
| `TwapResults.PruningInvisibleIff` | price/twap.go:315-335 | exactly when a pruned engine answers as a never-pruned one |
| `TwapResults.AnswerIsUnprunedIff` | price/twap.go:315-335 | an answer is that of a never-pruned engine if and only if nothing was pruned or the oldest observation is not after the window start |
| `TwapResults.TimePruningInvisible` | price/twap.go:315-335 | without the limit on the number of observations both give the same answer or error at or after the latest time observed |
| `TwapResults.RollbackMakesPruningVisible` | price/twap.go:267-285 | a run in which a query after a rollback tells the difference |
| `TwapResults.RollbackKeepsNewest` | price/twap.go:267-285 | a rollback is refused exactly when history was pruned and nothing retained is old enough; otherwise the newest logical observation at or below the slot is kept |
| `TwapResults.RollbackKeepsExactly` | price/twap.go:267-285 | exactly the retained observations at or below the slot stay, in order; it is refused exactly when history was pruned and all of them are above the slot |
| `TwapResults.SnapshotRestoresEngine` | price/twap.go:118-155 | restoring any reachable snapshot by replay prunes nothing and yields the same engine |
| `SwapMath.Remaining` | internal/spectrum/pool.go:114-165 | what stays in the pool is at least its exact share |
| `SwapMath.OutputBelowReserve` | internal/spectrum/pool.go:114-165 | a pool with both reserves never pays out all of one |
| `SwapMath.ProductNeverDecreases` | internal/spectrum/pool.go:114-165 | the product of the reserves never decreases |
| `SwapMath.SplittingNeverPaysMore` | internal/spectrum/pool.go:114-165 | the floored outputs of any list of same-direction swaps add up to at most the output of their total |
| `SwapMath.SplittingCanPayMoreAboveOne` | internal/spectrum/pool.go:114-165 | for every 64-bit fee multiplier above one there are 64-bit reserves that take both inputs, from which two swaps of one unit pay more than one of two |
| `SwapMath.SplittingNeverPaysMoreIff` | internal/spectrum/pool.go:114-165 | splitting never pays more, for all 64-bit reserves and amounts that fit, if and only if the multiplier is at most one |
| `SpectrumPool.OutputIsNotTruncated` | internal/spectrum/pool.go:140-164 | taking the low 64 bits of the output loses nothing |
| `SpectrumPool.OutputIsExact` | internal/spectrum/pool.go:114-165 | the output is in the other asset and is the exact floor of the fee-reduced share; an asset outside the pool gives nothing, and only an empty reserve with an input that counts for nothing divides by zero |
| `SpectrumPool.CalculateReturnToPool` | internal/spectrum/pool.go:176-209 | it fails exactly when the reward exceeds its reserve, and for a pool of ADA it returns the value of the pool with the (wrapped) sum on the side paid in and the rest on the other |
| `SpectrumPool.ReturnedValueIsMoved` | internal/spectrum/pool.go:176-209 | with ADA on one side the returned value is exactly the moved pool, with the wrapped sum on the side paid in |
| `SpectrumPool.ReturnedValueIsNextPool` | internal/spectrum/pool.go:176-209 | when the reserve takes the input, it is the pool after the swap |
| `SpectrumPool.SwapKeepsPool` | internal/spectrum/pool.go:114-209 | a swap pays less than the reserve, keeps the pool trading and never lowers the product |
| `SpectrumPool.NoSequenceProfits` | internal/spectrum/pool.go:114-209 | no sequence of swaps in whatever directions leaves both reserves no higher and one of them lower, so a round trip never profits |
| `SpectrumPool.SplitNeverPaysMore` | internal/spectrum/pool.go:114-209 | swapping a list of amounts, each against the updated pool, pays at most what the single swap of their total pays |
| `SpectrumPool.QuoteMatchesPool` | dex/models.go:132-219 | Quote fails exactly for an invalid fee, a foreign asset or an empty reserve, and with a denominator of 1000 quotes what OutputForInput pays |
| `SpectrumPool.QuoteErrors` | dex/models.go:132-176 | each error names its own check, in the order of the checks |
| `SpectrumPool.QuoteIsExact` | dex/models.go:177-205 | for every fee denominator the quote is the exact floor of the share, and nothing for nothing |
| `SwapTx.ClassBalance` | internal/spectrum/tx.go:415-576 | for every asset the inputs equal the outputs and the fee, but for what the sum on the side paid in loses |
| `SwapTx.ValueConservedIff` | internal/spectrum/tx.go:415-576 | value is conserved if and only if the reserve can take the base amount |
| `SwapTx.SettleLovelace` | internal/spectrum/tx.go:481-576 | the lovelace of the reward and of the matcher's change, exactly when every lovelace guard passes; each refusal before the conversions names its own guard, and no subtraction wraps |
| `SwapTx.SwapAmounts` | internal/spectrum/tx.go:415-576 | exactly the orders that pass every guard are assembled; no subtraction wraps, the trader gets at least the minimum, and every asset balances if and only if the reserve can take the base amount |
| `SwapTx.WrappedReserveLosesValue` | internal/spectrum/tx.go:415-576 | an accepted order whose base amount wraps the reserve |
| `WeightedMedian.LiquidityWeightedMedian` | price/ada_usd.go:377-429 | a median is found exactly when every price is positive and the total liquidity is positive and fits a word; it is the average of the lower and the upper weighted median |
| `WeightedMedian.ScanMedian` | price/ada_usd.go:406-428 | the cumulative scan always finds it, ties included |
| `WeightedMedian.TotalWeight` | price/ada_usd.go:392-400 | the guarded sum is the total, or the total does not fit a word |
| `WeightedMedian.MedianIsUnique` | price/ada_usd.go:377-429 | there is only one median |
| `WeightedMedian.MedianOrderIndependent` | price/ada_usd.go:388-390 | the median depends on the observations, not on their order |
| `WeightedMedian.MedianWithinMajority` | price/ada_usd.go:377-429 | it lies in every interval that holds more than half of the weight |
| `WeightedMedian.MedianMirrors` | price/ada_usd.go:377-429 | mirroring the prices mirrors the median, so a tie favours neither side |
| `WeightedMedian.SortedIsSorted` | price/ada_usd.go:388-390 | the stable sort orders by price |
| `AdaUsd.Pow10Uint` | price/ada_usd.go:615-624 | the exact power when it fits a word, and 0 otherwise |
| `AdaUsd.NormalizeToMicros` | price/ada_usd.go:562-582 | the specified normalization |
| `AdaUsd.MicrosIsFloor` | price/ada_usd.go:562-582 | the normalized amount is the exact floor in millionths, and there is none exactly for 26 or more decimals or a value beyond a word |
| `AdaUsd.ObservationFromPool` | price/ada_usd.go:476-548 | an observation is made exactly when its conditions hold of the pool state: an ADA side and the first configured coin of the other side, both in reserve and enough of them; its price makes both reserves worth the same, and its weight is the floor of the coins in millionths |
| `AdaUsd.ObservedIff` | price/ada_usd.go:476-548 | the specified observation is the only one that fits the pool state |
| `AdaUsd.PriceIsExact` | price/ada_usd.go:505-514 | the price is positive, and at it the whole ADA reserve is worth the whole stablecoin reserve |
| `AdaUsd.LatestPools` | price/ada_usd.go:436-453 | the newest eligible state of each pool |
| `AdaUsd.ObservationsFromPools` | price/ada_usd.go:431-474 | the sorted observations of exactly the newest states that qualify |
| `AdaUsd.ListingIff` | price/ada_usd.go:431-464 | an observation is listed exactly when the eligible state of some pool at its greatest slot, index and hash makes it |
| `AdaUsd.ListingIsSorted` | price/ada_usd.go:465-472 | sorted by coin, then protocol, then pool |
| `AdaUsd.ObservationsOrderIndependent` | price/ada_usd.go:431-474 | they depend neither on the order of the pools nor on map iteration |
| `AdaUsd.Aggregate` | price/ada_usd.go:180-223 | succeeds exactly when the counts, the total, every share and every pair of prices are within the limits, with the median as the answer; each error is an if-and-only-if on its check failing after the earlier ones passed |
| `AdaUsd.AggregateADAUSDAt` | price/ada_usd.go:157-242 | it answers if and only if the observations of the newest eligible states pass every check, and then with their median |
| `AdaUsd.QualifiedPriceIsCloseToAll` | price/ada_usd.go:203-223 | the qualified price and every observed price differ by at most the allowed fraction of either |
| `DjedSpec.IntervalIsMembership` | price/djed/oracle.go:324-346 | a datum is usable exactly at the times in its interval, and each error tells which times are excluded |
| `Djed.ParsedIsProper` | price/djed/oracle.go:274-310 | what parsing accepts has a positive rate, a non-empty interval that holds the time, and the output's own reference |
| `Djed.ParsedIff` | price/djed/oracle.go:213-310 | an output is accepted exactly when address, token, signature length, policy, quote currency, rate and interval are right, and its price and position are what is recorded |
| `Djed.ParseRefusals` | price/djed/oracle.go:213-346 | each refusal names the first check that fails |
| `Djed.Tracker.Apply` | price/djed/tracker.go:57-79 | an authentic observation is recorded once, a conflicting one refused, a known one left as it is |
| `Djed.Tracker.ConsumeAt` | price/djed/tracker.go:82-94 | marks exactly that output spent |
| `Djed.Tracker.Prune` | price/djed/tracker.go:99-110 | removes exactly the outputs spent before the slot and counts them |
| `Djed.Tracker.Rollback` | price/djed/tracker.go:115-128 | removes what was produced after the slot and restores what was spent after it |
| `Djed.Tracker.Current` | price/djed/tracker.go:132-166 | for every iteration order the newest usable unspent observation, or the error of the newest unspent one, or that there is none; newest by slot, then place in the block, then output index, then hash |
| `DjedSpec.CurrentIsUnique` | price/djed/tracker.go:132-182 | there is only one such answer |
| `DjedSpec.CurrentIsLastProduced` | price/djed/tracker.go:57-182 | after any run whose outputs arrive in chain order, Current answers with an observation if and only if it was produced last among those unspent and usable |
| `DjedSpec.UnspentIff` | price/djed/tracker.go:57-94 | an observation counts as unspent exactly when it was produced and not spent afterwards |
| `DjedSpec.AfterTransitive` | price/djed/tracker.go:168-182 | chain order is transitive |
| `DjedSpec.AfterTotal` | price/djed/tracker.go:168-182 | and orders any two different outputs |
| `DjedSpec.RollbackIsReplay` | price/djed/tracker.go:115-128 | rolling back is replaying the events up to the point, for any events that produce each output in one way and spend it at one slot |
| `DjedSpec.RunHides` | price/djed/tracker.go:57-128 | over every run with rollbacks and pruning the book is the replay of the current chain without some entries spent before the pruned slot |
| `DjedSpec.UnprunedRunIsReplay` | price/djed/tracker.go:57-128 | without pruning it is exactly that replay |
| `DjedSpec.PruningIsInvisible` | price/djed/tracker.go:96-110 | with rollbacks no deeper than the pruned slot allows, Current answers as without pruning at any time |
| `DjedSpec.PruneThenRollbackIff` | price/djed/tracker.go:96-128 | pruning and then rolling back loses an observation exactly when one was produced up to the point and spent after it but before the pruned slot |
| `DjedSpec.PruneChangesCurrentIff` | price/djed/tracker.go:96-166 | the answer of Current differs at some time exactly when a lost observation is usable at some time and every kept one usable then is older |
| `DjedSpec.RedeliveredAfterPruneIff` | price/djed/tracker.go:57-110 | a consumed output delivered again after a pruning counts as unspent exactly when it was spent before the pruned slot |
| `DjedSpec.RedeliveryResurrects` | price/djed/tracker.go:57-110 | an example |
| `DjedSpec.DeliveryKeepsUnspentIff` | price/djed/tracker.go:57-79 | after any run one more delivery keeps the unspent observations those of the chain exactly when it is not the production of a pruned output |
| `DjedSpec.PruneBeyondTheHorizonLoses` | price/djed/tracker.go:96-128 | an example of that loss |
| `MempoolSpec.ReserveDeltaIsClamp` | internal/oracle/mempool.go:198-209 | the difference clamped to int64 |
| `MempoolSpec.AddDeltaIsClamp` | internal/oracle/mempool.go:213-223 | the sum, computed with wrap-around, is the true sum clamped to int64 |
| `MempoolSpec.RebaseIsExactIff` | internal/oracle/mempool.go:158-183 | a rebased delta is the one computed afresh if and only if both differences fit int64, or one is beyond it and the other does not lead back, or they lie beyond opposite ends and the losses cancel |
| `MempoolSpec.SaturationDrifts` | internal/oracle/mempool.go:158-183 | an example of drift beyond int64 |
| `MempoolSpec.RunLists` | internal/oracle/mempool.go:95-183 | over every run the order is a duplicate-free listing of the pending transactions in the order of arrival |
| `MempoolSpec.RunStaysFreshIff` | internal/oracle/mempool.go:95-183 | throughout a run every delta is the one computed afresh if and only if every confirmation is lossless for the transactions it leaves pending |
| `MempoolSpec.FreshLeadsIff` | internal/oracle/mempool.go:198-209 | a delta computed afresh leads from the confirmed to the recorded reserves if and only if both differences fit int64 |
| `MempoolSpec.RunIsExact` | internal/oracle/mempool.go:95-183 | over every run with reserves in int64 confirmed reserve plus delta is the reserve recorded at arrival |
| `MempoolSpec.PendingIff` | internal/oracle/mempool.go:95-183 | after any run a transaction is pending exactly when some addition of it was followed by neither its removal nor its confirmation |
| `MempoolSpec.RunLeadsToState` | internal/oracle/mempool.go:95-183 | over every run with reserves in int64 each delta leads from the reserves of the state confirmed last to those of the state first added |
| `Mempool.MempoolPoolState.AddPendingTx` | internal/oracle/mempool.go:95-123 | the step of the specified machine; a known hash keeps its effect |
| `Mempool.MempoolPoolState.RemovePendingTx` | internal/oracle/mempool.go:127-145 | the step of the specified machine |
| `Mempool.MempoolPoolState.SetConfirmedState` | internal/oracle/mempool.go:158-183 | the step of the specified machine; skipping a zero shift changes nothing |
| `Mempool.MempoolPoolState.GetPendingTxs` | internal/oracle/mempool.go:234-245 | all pending effects and no others, in the order of arrival |
| `WatchesSpec.PatternInjective` | internal/indexer/watches.go:76-78 | kind and pattern tell what a watch waits for |
| `WatchesSpec.IdInjective` | internal/indexer/watches.go:107-151 | generated ids are never shared |
| `WatchesSpec.LookupIsScan` | internal/indexer/watches.go:224-285 | looking a pattern up selects exactly what a scan of all live registrations would, in registration order |
| `WatchesSpec.CalledOnce` | internal/indexer/watches.go:263-285 | no watch is selected twice for one target |
| `WatchesSpec.KeepIndex` | internal/indexer/watches.go:184-219 | removing one id from the index of its kind leaves both indexes as if it had never been registered |
| `WatchRuns.LiveIsInForce` | internal/indexer/watches.go:95-345 | after any run the live registrations are exactly those made before any stop and neither unregistered nor expired since |
| `WatchRuns.SelectedExactlyWhenInForce` | internal/indexer/watches.go:224-285 | after any run a callback is selected for a target if and only if such a registration of it is in force, and once |
| `Watches.WatchManager.RegisterTxWatch` | internal/indexer/watches.go:95-130 | the step of the specified manager, with the id of the new watch, or nothing after a stop |
| `Watches.WatchManager.RegisterUTxOWatch` | internal/indexer/watches.go:135-173 | likewise for an output |
| `Watches.WatchManager.Unregister` | internal/indexer/watches.go:177-200 | exactly that watch goes, from the table and from its index |
| `Watches.RemoveFromIndex` | internal/indexer/watches.go:204-219 | takes out the first occurrence and leaves no empty list |
| `Watches.WatchManager.ExpireWatches` | internal/indexer/watches.go:289-305 | exactly the watches whose time has passed go, in whatever order they are collected |
| `Watches.WatchManager.Stop` | internal/indexer/watches.go:327-345 | everything goes and nothing can be registered again |
| `Watches.WatchManager.CheckEvent` | internal/indexer/watches.go:224-254 | a callback is selected exactly when it belongs to a live registration of the event's hash or of an output it consumes, in the order of a scan for each of them |
| `ChainSyncSpec.RunInStep` | internal/node/chainsync.go:29-92 | over every interleaving the recent blocks are at most twenty, in slot order, and a suffix of what each subscriber holds, which is a suffix of the chain |
| `ChainSyncSpec.AddBlockKeepsTwenty` | internal/node/chainsync.go:55-63 | a new block joins the recent ones, of which the newest twenty stay |
| `ChainSyncSpec.RecentAreNewestTwenty` | internal/node/chainsync.go:55-63 | without rollbacks the recent blocks are the newest twenty of the chain, or all of it |
| `ChainSyncSpec.RollbackForgetsNewer` | internal/node/chainsync.go:72-92 | a rollback removes exactly the newer blocks from what a subscriber holds |
| `ChainSyncSpec.CutSuffix` | internal/node/chainsync.go:72-82 | cutting at the first newer block commutes with taking suffixes of a slot-ordered chain |
| `ChainSync.ChainsyncClientState.Sub` | internal/node/chainsync.go:29-44 | the new channel carries exactly the recent blocks, which fit its buffer |
| `ChainSync.ChainsyncClientState.Unsub` | internal/node/chainsync.go:46-53 | that subscriber goes and no other changes |
| `ChainSync.ChainsyncClientState.AddBlock` | internal/node/chainsync.go:55-70 | the newest twenty blocks stay, and every subscriber is sent the block; blocks in slot order keep every subscriber in step |
| `ChainSync.ChainsyncClientState.Rollback` | internal/node/chainsync.go:72-92 | the blocks before the first newer one stay, and every subscriber is sent the rollback |

## Left out

- The SHA-256 digest of the pool identity in an activity key: it is modelled as the identity text
  itself, which takes collision freedom for granted. Keys, prefixes and separators are real strings.
- Badger, JSON and CBOR failures other than the errors named in `StorageError`. The size a deletion takes
  of its budget is that of its key plus the source's overhead; with the digest modelled as text that size
  is not the real one, so budgets are arbitrary numbers throughout.
- Goroutines, mutexes, wall-clock reads and logging: each locked method is one atomic step and times are
  parameters. For watches, which callbacks are selected is modelled, not when they run.
- Floating point: PriceXY, price impact, finiteFloat64 and the matcher fee. The matcher fee is an
  arbitrary word, and configuration ratios are reals.
- Decimal strings of rationals and saturating durations in TWAP: prices are reals, times are integer
  nanoseconds.
- Sorting library calls are replaced by an insertion sort with the same comparison.
- PoolVolume's asset fields, and the copying of returned records.
- OracleVolume.VolumeIsChainTurnover: assumes that no tracked state is rolled back, because a rollback
  makes the code miss the next move of the pool; VolumeIsRecordedTurnover is the statement for all runs.
- ActivityStorage.OracleStorage.PrunableKeys: its error case only says that some key does not parse.
- Oracle.PoolOracle.HandleTransaction: covers the pool part of the handler for one parsed output; price
  notifications, CDP states and mempool updates of the handler are not modelled.
- OracleRuns: a failed write is not an event of the runs, since a run that goes on from one has already lost
  the agreement of memory and disk; FailedWriteVolumeIff and RetryRecordsNothing say what it costs.
- A rollback to the largest 64-bit slot is modelled as the code has it: that one slot is rolled back too.
- SwapTx.SwapAmounts: covers the amounts of createSwapTx; collateral, signing and the transaction body are
  not modelled.
- ActivityHistory.VolumeReportsHistory, and the reports of OracleEvents: for networks and protocols that do not
  contain the colon of pool keys, because the code joins names that do into equal keys.
- AdaUsd.ObservationFromPool: the reserves, the chain position and the time that the code copies into an
  observation are left out.
- AdaUsd.AggregateADAUSDAt: leaves out the qualification by recent volume, timestamps, and the partial result
  that the code returns beside an error.
- Watches: the counter of ids is unbounded, so its wrap after 2^64 registrations is not modelled.
- ChainSync: a channel is the sequence of messages sent on it; a full buffer that blocks the sender, the
  replaced channel of a repeated subscription and the server side of the protocol are not modelled.
- Pool parsers, CDP and lending trackers, the HTTP and WebSocket interfaces, the wallet and configuration:
  thin layers over libraries.
- The manager of mempool states of all pools: a map from pool ids to the modelled pool states.
