/** The rolling activity tracker as functions on values: what each operation of
    dex/activity.go and dex/activity_state.go does to the tracker's fields. */
module ActivitySpec {
  import opened Words
  import opened Text
  import opened Dex

  type SwapMap = map<string, seq<SwapTransition>>

  datatype Tracker = Tracker(window: uint64, latest: uint64, swaps: SwapMap)

  datatype ActivityError =
    | ErrInvalidActivityWindow
    | ErrMismatchedPoolTransition
    | ErrOutOfOrderActivity
    | ErrVolumeOverflow
    | ErrInvalidActivityState
    | ErrActivityWindowChanged

  // ----- lists of one pool -----

  function At(m: SwapMap, key: string): seq<SwapTransition> { if key in m then m[key] else [] }

  function Cutoff(at: uint64, window: uint64): uint64 { if at > window then at - window else 0 }

  /** The list without its leading swaps below the cutoff. */
  function FromCutoff(s: seq<SwapTransition>, cutoff: int): seq<SwapTransition> {
    if s != [] && s[0].slot < cutoff then FromCutoff(s[1..], cutoff) else s
  }

  /** The list without its trailing swaps at or after the slot. */
  function BeforeSlot(s: seq<SwapTransition>, slot: int): seq<SwapTransition> {
    if s != [] && s[|s| - 1].slot >= slot then BeforeSlot(s[..|s| - 1], slot) else s
  }

  predicate SlotSorted(s: seq<SwapTransition>) {
    forall i, j :: 0 <= i < j < |s| ==> s[i].slot <= s[j].slot
  }

  // ----- maps of lists: a key is present only with a non-empty list -----

  function Pruned(m: SwapMap, cutoff: int): SwapMap {
    map k | k in m && FromCutoff(m[k], cutoff) != [] :: FromCutoff(m[k], cutoff)
  }

  function RolledBack(m: SwapMap, slot: int): SwapMap {
    map k | k in m && BeforeSlot(m[k], slot) != [] :: BeforeSlot(m[k], slot)
  }

  function Appended(m: SwapMap, swap: SwapTransition): SwapMap {
    m[swap.Key() := At(m, swap.Key()) + [swap]]
  }

  // ----- observing -----

  datatype Observed = Observed(tracker: Tracker, result: Result<Option<SwapTransition>, ActivityError>)

  /** Advance to a slot that has been accepted. */
  function Advanced(t: Tracker, slot: uint64): Tracker {
    t.(latest := slot, swaps := Pruned(t.swaps, Cutoff(slot, t.window)))
  }

  function Record(t: Tracker, swap: SwapTransition): Tracker {
    t.(swaps := Appended(t.swaps, swap))
  }

  /** dex/activity.go, Observe: no check for a swap that was seen before. */
  function Observe(t: Tracker, previous: Option<PoolState>, current: Option<PoolState>): Observed {
    if current.None? || current.value.fromMempool then Observed(t, Ok(None))
    else if current.value.slot < t.latest then Observed(t, Err(ErrOutOfOrderActivity))
    else match InferSwapTransition(previous, current)
         case Mismatch => Observed(t, Err(ErrMismatchedPoolTransition))
         case NotSwap => Observed(Advanced(t, current.value.slot), Ok(None))
         case Swap(swap) => Observed(Record(Advanced(t, current.value.slot), swap), Ok(Some(swap)))
  }

  /** The first retained swap with the identity of `swap`. */
  function FirstWithIdentity(s: seq<SwapTransition>, swap: SwapTransition): (r: Option<SwapTransition>)
    ensures r.None? ==> forall i :: 0 <= i < |s| ==> s[i].Identity() != swap.Identity()
    ensures r.Some? ==> r.value in s && r.value.Identity() == swap.Identity()
  {
    if s == [] then None
    else if s[0].Identity() == swap.Identity() then Some(s[0])
    else FirstWithIdentity(s[1..], swap)
  }

  /** dex/activity_state.go, ObserveTransition: a redelivered swap is accepted but not recorded
      again, and one that contradicts a retained swap is refused. The result is the newly
      recorded swap. */
  function ObserveTransition(t: Tracker, previous: Option<PoolState>, current: Option<PoolState>): Observed {
    if current.None? || current.value.fromMempool then Observed(t, Ok(None))
    else if current.value.slot < t.latest then Observed(t, Err(ErrOutOfOrderActivity))
    else match InferSwapTransition(previous, current)
         case Mismatch => Observed(t, Err(ErrMismatchedPoolTransition))
         case NotSwap => Observed(Advanced(t, current.value.slot), Ok(None))
         case Swap(swap) =>
           match FirstWithIdentity(At(t.swaps, swap.Key()), swap)
           case None => Observed(Record(Advanced(t, current.value.slot), swap), Ok(Some(swap)))
           case Some(existing) =>
             if existing == swap then Observed(Advanced(t, current.value.slot), Ok(None))
             else Observed(t, Err(ErrInvalidActivityState))
  }

  // ----- rolling back -----

  function RollbackTip(latest: uint64, slot: uint64): uint64 {
    var before := if slot > 0 then slot - 1 else 0;
    if before < latest then before else latest
  }

  function Rollback(t: Tracker, slot: uint64): Tracker {
    var latest := RollbackTip(t.latest, slot);
    t.(latest := latest, swaps := Pruned(RolledBack(t.swaps, slot), Cutoff(latest, t.window)))
  }

  // ----- volume -----

  function SumX(s: seq<SwapTransition>): nat { if s == [] then 0 else SumX(s[..|s| - 1]) + s[|s| - 1].amountX }

  function SumY(s: seq<SwapTransition>): nat { if s == [] then 0 else SumY(s[..|s| - 1]) + s[|s| - 1].amountY }

  /** The swaps of a list at or after a slot. */
  function Since(s: seq<SwapTransition>, cutoff: int): seq<SwapTransition> {
    if s == [] then []
    else if s[|s| - 1].slot >= cutoff then Since(s[..|s| - 1], cutoff) + [s[|s| - 1]]
    else Since(s[..|s| - 1], cutoff)
  }

  datatype Turnover = Turnover(
    volumeX: uint64, volumeY: uint64, swapCount: uint64, firstSwapSlot: uint64, lastSwapSlot: uint64)

  /** None when there was no swap in the window. */
  type VolumeResult = Result<Option<Turnover>, ActivityError>

  /** The exact turnover of a list of swaps: an error when a true sum does not fit a word. */
  function TurnoverOf(s: seq<SwapTransition>): VolumeResult {
    if SumX(s) > MAX_UINT64 || SumY(s) > MAX_UINT64 then Err(ErrVolumeOverflow)
    else if s == [] then Ok(None)
    else if |s| > MAX_UINT64 then Err(ErrVolumeOverflow)
    else Ok(Some(Turnover(SumX(s), SumY(s), |s|, s[0].slot, s[|s| - 1].slot)))
  }

  function VolumeAt(t: Tracker, key: string, atSlot: uint64): VolumeResult {
    if atSlot < t.latest then Err(ErrOutOfOrderActivity)
    else TurnoverOf(Since(At(t.swaps, key), Cutoff(atSlot, t.window)))
  }

  // ----- durable state -----

  datatype ActivityState = ActivityState(window: uint64, latest: uint64, swaps: seq<SwapTransition>)

  /** The order of sortSwapTransitions. */
  predicate SwapLess(a: SwapTransition, b: SwapTransition) { IdentityLess(a.Identity(), b.Identity()) }

  predicate IdentityLess(a: SwapIdentity, b: SwapIdentity) {
    if a.slot != b.slot then a.slot < b.slot
    else if a.txHash != b.txHash then LexLess(a.txHash, b.txHash)
    else if a.txIndex != b.txIndex then a.txIndex < b.txIndex
    else if a.network != b.network then LexLess(a.network, b.network)
    else if a.protocol != b.protocol then LexLess(a.protocol, b.protocol)
    else LexLess(a.poolId, b.poolId)
  }

  /** No element sorts before an earlier one. */
  predicate SwapSorted(s: seq<SwapTransition>) {
    forall i, j :: 0 <= i < j < |s| ==> !SwapLess(s[j], s[i])
  }

  predicate DistinctIdentities(s: seq<SwapTransition>) {
    forall i, j :: 0 <= i < j < |s| ==> s[i].Identity() != s[j].Identity()
  }

  predicate ValidSwap(swap: SwapTransition, latest: int) {
    && swap.poolId != "" && swap.network != "" && swap.protocol != ""
    && swap.amountX != 0 && swap.amountY != 0
    && swap.slot <= latest
    && swap.assetX != swap.assetY
  }
}
