/** The pruned tracker against an unpruned log. A run of observations and rollbacks is shadowed
    by the history of every recorded swap (rolled-back ones removed, nothing ever pruned) and by
    the highest slot ever observed. */
module ActivityHistory {
  import opened Words
  import opened Dex
  import opened ActivityLists
  import opened ActivityReports
  import opened ActivitySpec

  datatype Op =
    | Observing(previous: Option<PoolState>, current: Option<PoolState>)
    | ObservingOnce(previous: Option<PoolState>, current: Option<PoolState>)
    | RollingBack(slot: uint64)

  datatype Shadow = Shadow(tracker: Tracker, history: seq<SwapTransition>, high: uint64)

  function Start(window: uint64): Shadow { Shadow(Tracker(window, 0, map[]), [], 0) }

  function Note(s: Shadow, o: Observed, slot: uint64): Shadow {
    match o.result
    case Err(_) => s.(tracker := o.tracker)
    case Ok(None) => Shadow(o.tracker, s.history, Max(s.high, slot))
    case Ok(Some(swap)) => Shadow(o.tracker, s.history + [swap], Max(s.high, slot))
  }

  predicate Observable(current: Option<PoolState>) { current.Some? && !current.value.fromMempool }

  function Step(s: Shadow, op: Op): Shadow {
    match op
    case Observing(p, c) => if Observable(c) then Note(s, Observe(s.tracker, p, c), c.value.slot) else s
    case ObservingOnce(p, c) => if Observable(c) then Note(s, ObserveTransition(s.tracker, p, c), c.value.slot) else s
    case RollingBack(slot) => Shadow(Rollback(s.tracker, slot), BeforeSlot(s.history, slot), s.high)
  }

  function Run(window: uint64, ops: seq<Op>): Shadow {
    if ops == [] then Start(window) else Step(Run(window, ops[..|ops| - 1]), ops[|ops| - 1])
  }

  // ----- the refinement -----

  /** The tracker holds exactly the history from position `from` on; what lies before was pruned
      because it fell out of the window of the highest slot ever observed. */
  ghost predicate HoldsFrom(s: Shadow, from: nat) {
    && from <= |s.history|
    && SlotSorted(s.history)
    && s.tracker.latest <= s.high
    && (forall i :: 0 <= i < |s.history| ==>
          s.history[i].slot <= s.tracker.latest && s.history[i].amountX > 0 && s.history[i].amountY > 0)
    && (forall i :: 0 <= i < from ==> s.history[i].slot < Cutoff(s.high, s.tracker.window))
    && (forall k :: At(s.tracker.swaps, k) == OfPool(s.history[from..], k))
    && (forall k :: k in s.tracker.swaps ==> s.tracker.swaps[k] != [])
  }

  ghost predicate Refines(s: Shadow) { exists from: nat :: HoldsFrom(s, from) }

  lemma CutoffMonotone(a: uint64, b: uint64, window: uint64)
    requires a <= b
    ensures Cutoff(a, window) <= Cutoff(b, window)
  {
  }

  // ----- one step -----

  lemma PrunedAt(m: SwapMap, cutoff: int, key: string)
    ensures At(Pruned(m, cutoff), key) == FromCutoff(At(m, key), cutoff)
  {
  }

  lemma RolledBackAt(m: SwapMap, slot: int, key: string)
    ensures At(RolledBack(m, slot), key) == BeforeSlot(At(m, key), slot)
  {
  }

  lemma PruneOfPool(h: seq<SwapTransition>, from: nat, from': nat, cutoff: int, key: string)
    requires from <= from' <= |h|
    requires forall i :: from <= i < from' ==> h[i].slot < cutoff
    requires forall i :: from' <= i < |h| ==> h[i].slot >= cutoff
    ensures FromCutoff(OfPool(h[from..], key), cutoff) == OfPool(h[from'..], key)
  {
    var stale, kept := h[from..from'], h[from'..];
    assert h[from..] == stale + kept;
    OfPoolSplit(stale, kept, key);
    OfPoolMembers(stale, key);
    OfPoolMembers(kept, key);
    FromCutoffSplit(OfPool(stale, key), OfPool(kept, key), cutoff);
  }

  /** Pruning at any cutoff within the window of `high` only moves the start forward. */
  lemma PruneHolds(s: Shadow, from: nat, cutoff: uint64) returns (from': nat)
    requires HoldsFrom(s, from)
    requires cutoff <= Cutoff(s.high, s.tracker.window)
    ensures HoldsFrom(s.(tracker := s.tracker.(swaps := Pruned(s.tracker.swaps, cutoff))), from')
    ensures from <= from'
    ensures forall i :: from' <= i < |s.history| ==> s.history[i].slot >= cutoff
  {
    var h := s.history;
    var n := SplitAtSlot(h, cutoff);
    from' := Max(from, n);
    forall k ensures At(Pruned(s.tracker.swaps, cutoff), k) == OfPool(h[from'..], k) {
      PrunedAt(s.tracker.swaps, cutoff, k);
      PruneOfPool(h, from, from', cutoff, k);
    }
  }

  lemma AdvanceHolds(s: Shadow, from: nat, slot: uint64) returns (from': nat)
    requires HoldsFrom(s, from) && s.tracker.latest <= slot
    ensures HoldsFrom(Shadow(Advanced(s.tracker, slot), s.history, Max(s.high, slot)), from')
  {
    var raised := Shadow(s.tracker.(latest := slot), s.history, Max(s.high, slot));
    CutoffMonotone(s.high, raised.high, s.tracker.window);
    CutoffMonotone(slot, raised.high, s.tracker.window);
    assert HoldsFrom(raised, from);
    from' := PruneHolds(raised, from, Cutoff(slot, s.tracker.window));
  }

  lemma RecordHolds(s: Shadow, from: nat, swap: SwapTransition)
    requires HoldsFrom(s, from)
    requires swap.slot == s.tracker.latest && swap.amountX > 0 && swap.amountY > 0
    ensures HoldsFrom(Shadow(Record(s.tracker, swap), s.history + [swap], s.high), from)
  {
    forall k ensures At(Record(s.tracker, swap).swaps, k) == OfPool((s.history + [swap])[from..], k) {
      RecordOfPool(s, from, swap, k);
    }
  }

  lemma RecordOfPool(s: Shadow, from: nat, swap: SwapTransition, k: string)
    requires from <= |s.history| && At(s.tracker.swaps, k) == OfPool(s.history[from..], k)
    ensures At(Record(s.tracker, swap).swaps, k) == OfPool((s.history + [swap])[from..], k)
  {
    assert (s.history + [swap])[from..] == s.history[from..] + [swap];
    OfPoolSplit(s.history[from..], [swap], k);
    assert OfPool([swap], k) == if swap.Key() == k then [swap] else [];
  }

  /** Cutting a pool's retained list at a slot is retaining from the cut history. */
  lemma RollbackOfPool(h: seq<SwapTransition>, from: nat, n: nat, slot: int, key: string)
    requires from <= |h| && n <= |h|
    requires forall i :: 0 <= i < n ==> h[i].slot < slot
    requires forall i :: n <= i < |h| ==> h[i].slot >= slot
    ensures BeforeSlot(OfPool(h[from..], key), slot) == OfPool(h[..n][Min(from, n)..], key)
  {
    var kept, gone := h[..n][Min(from, n)..], h[Max(from, n)..];
    assert h[from..] == kept + gone;
    OfPoolSplit(kept, gone, key);
    OfPoolMembers(kept, key);
    OfPoolMembers(gone, key);
    BeforeSlotSplit(OfPool(kept, key), OfPool(gone, key), slot);
  }

  lemma CutHolds(s: Shadow, from: nat, slot: uint64)
    requires HoldsFrom(s, from)
    ensures var latest := RollbackTip(s.tracker.latest, slot);
            var cut := BeforeSlot(s.history, slot);
            HoldsFrom(Shadow(s.tracker.(latest := latest, swaps := RolledBack(s.tracker.swaps, slot)), cut, s.high),
                      Min(from, |cut|))
  {
    var h := s.history;
    var n := SplitAtSlot(h, slot);
    assert BeforeSlot(h, slot) == h[..n] by {
      assert h == h[..n] + h[n..];
      BeforeSlotSplit(h[..n], h[n..], slot);
    }
    CutLists(s, from, slot, n);
  }

  lemma CutLists(s: Shadow, from: nat, slot: uint64, n: nat)
    requires from <= |s.history| && n <= |s.history|
    requires forall k :: At(s.tracker.swaps, k) == OfPool(s.history[from..], k)
    requires (forall i :: 0 <= i < n ==> s.history[i].slot < slot) && forall i :: n <= i < |s.history| ==> s.history[i].slot >= slot
    ensures forall k :: At(RolledBack(s.tracker.swaps, slot), k) == OfPool(s.history[..n][Min(from, n)..], k)
  {
    forall k ensures At(RolledBack(s.tracker.swaps, slot), k) == OfPool(s.history[..n][Min(from, n)..], k) {
      RolledBackAt(s.tracker.swaps, slot, k);
      RollbackOfPool(s.history, from, n, slot, k);
    }
  }

  lemma RollbackHolds(s: Shadow, from: nat, slot: uint64) returns (from': nat)
    requires HoldsFrom(s, from)
    ensures HoldsFrom(Step(s, RollingBack(slot)), from')
  {
    var latest := RollbackTip(s.tracker.latest, slot);
    var cut := BeforeSlot(s.history, slot);
    var rewound := Shadow(s.tracker.(latest := latest, swaps := RolledBack(s.tracker.swaps, slot)), cut, s.high);
    CutHolds(s, from, slot);
    CutoffMonotone(latest, s.high, s.tracker.window);
    from' := PruneHolds(rewound, Min(from, |cut|), Cutoff(latest, s.tracker.window));
  }

  function AdvancedTo(s: Shadow, slot: uint64): Shadow {
    Shadow(Advanced(s.tracker, slot), s.history, Max(s.high, slot))
  }

  function RecordedIn(s: Shadow, swap: SwapTransition): Shadow {
    Shadow(Record(s.tracker, swap), s.history + [swap], s.high)
  }

  /** An observation is refused, or advances the tracker, or also records a swap at its slot. */
  lemma ObservationCases(s: Shadow, op: Op)
    requires !op.RollingBack? && Step(s, op) != s
    ensures op.current.Some? && s.tracker.latest <= op.current.value.slot
    ensures Step(s, op) != AdvancedTo(s, op.current.value.slot) ==>
      var swap := InferSwapTransition(op.previous, op.current).swap;
      && InferSwapTransition(op.previous, op.current).Swap?
      && swap.slot == op.current.value.slot && swap.amountX > 0 && swap.amountY > 0
      && Step(s, op) == RecordedIn(AdvancedTo(s, op.current.value.slot), swap)
  {
  }

  lemma StepRefines(s: Shadow, op: Op)
    requires Refines(s)
    ensures Refines(Step(s, op))
  {
    var from: nat :| HoldsFrom(s, from);
    if op.RollingBack? {
      var from' := RollbackHolds(s, from, op.slot);
    } else if Step(s, op) != s {
      ObservationCases(s, op);
      var advanced := AdvancedTo(s, op.current.value.slot);
      var from' := AdvanceHolds(s, from, op.current.value.slot);
      if Step(s, op) != advanced {
        RecordHolds(advanced, from', InferSwapTransition(op.previous, op.current).swap);
      }
    }
  }

  lemma StartRefines(window: uint64)
    ensures Refines(Start(window))
  {
    assert HoldsFrom(Start(window), 0);
  }

  lemma StepKeepsWindow(s: Shadow, op: Op)
    ensures Step(s, op).tracker.window == s.tracker.window
  {
  }

  /** Over every run the tracker refines the unpruned log. */
  lemma {:induction false} RunRefines(window: uint64, ops: seq<Op>)
    ensures Refines(Run(window, ops))
    ensures Run(window, ops).tracker.window == window
  {
    if ops == [] {
      StartRefines(window);
    } else {
      RunRefines(window, ops[..|ops| - 1]);
      StepRefines(Run(window, ops[..|ops| - 1]), ops[|ops| - 1]);
      StepKeepsWindow(Run(window, ops[..|ops| - 1]), ops[|ops| - 1]);
    }
  }

  // ----- what the refinement gives -----

  /** What lies below the cutoff does not matter to a scan from the cutoff. */
  lemma StaleDropped(h: seq<SwapTransition>, from: nat, key: string, cutoff: int)
    requires from <= |h|
    requires forall i :: 0 <= i < from ==> h[i].slot < cutoff
    ensures Since(OfPool(h, key), cutoff) == Since(OfPool(h[from..], key), cutoff)
  {
    assert h == h[..from] + h[from..];
    OfPoolSplit(h[..from], h[from..], key);
    SinceSplit(OfPool(h[..from], key), OfPool(h[from..], key), cutoff);
    OfPoolMembers(h[..from], key);
    SinceDropsAll(OfPool(h[..from], key), cutoff);
  }

  /** Above the high-water mark, Volume is a scan of the whole never-pruned history, and it fails
      exactly when a true sum does not fit in 64 bits. */
  lemma VolumeScansWholeHistory(window: uint64, ops: seq<Op>, key: string, atSlot: uint64)
    requires atSlot >= Run(window, ops).high
    ensures var s := Run(window, ops);
            var scan := Since(OfPool(s.history, key), Cutoff(atSlot, window));
            && VolumeAt(s.tracker, key, atSlot) == TurnoverOf(scan)
            && (VolumeAt(s.tracker, key, atSlot).Err? <==> SumX(scan) > MAX_UINT64 || SumY(scan) > MAX_UINT64)
  {
    RunRefines(window, ops);
    var s := Run(window, ops);
    var from: nat :| HoldsFrom(s, from);
    var c := Cutoff(atSlot, window);
    CutoffMonotone(s.high, atSlot, window);
    StaleDropped(s.history, from, key, c);
    var scan := Since(OfPool(s.history, key), c);
    assert |scan| <= SumX(scan) by {
      SinceMembers(OfPool(s.history, key), c);
      OfPoolMembers(s.history, key);
      CountWithinSums(scan);
    }
  }

  lemma HistorySorted(window: uint64, ops: seq<Op>)
    ensures SlotSorted(Run(window, ops).history)
  {
    RunRefines(window, ops);
    var from: nat :| HoldsFrom(Run(window, ops), from);
  }

  /** In terms of the history alone: Volume reports every swap of the pool in the window, and no
      other, with the sums of either amount, their number and their first and last slot. */
  lemma VolumeReportsHistory(window: uint64, ops: seq<Op>, network: string, protocol: string, poolId: string, atSlot: uint64)
    requires atSlot >= Run(window, ops).high
    requires ':' !in network && ':' !in protocol && forall e :: e in Run(window, ops).history ==> SeparatorFree(e)
    ensures var s := Run(window, ops);
      ReportsPool(VolumeAt(s.tracker, PoolKey(network, protocol, poolId), atSlot), s.history,
                  network, protocol, poolId, window, atSlot)
  {
    var h, key := Run(window, ops).history, PoolKey(network, protocol, poolId);
    VolumeScansWholeHistory(window, ops, key, atSlot);
    HistorySorted(window, ops);
    OfPoolSorted(h, key);
    WindowReports(OfPool(h, key), window, atSlot);
    var r := TurnoverOf(Since(OfPool(h, key), Cutoff(atSlot, window)));
    var moves :| InWindow(moves, OfPool(h, key), window, atSlot) && Reports(r, moves);
    OfPoolInWindow(h, network, protocol, poolId, window, atSlot, moves);
  }

  lemma {:induction false} NoRollbackHigh(window: uint64, ops: seq<Op>)
    requires forall i :: 0 <= i < |ops| ==> !ops[i].RollingBack?
    ensures Run(window, ops).high == Run(window, ops).tracker.latest
  {
    if ops != [] {
      NoRollbackHigh(window, ops[..|ops| - 1]);
    }
  }

  /** Without rollbacks every accepted query slot is answered from the whole history. */
  lemma VolumeExactWithoutRollback(window: uint64, ops: seq<Op>, key: string, atSlot: uint64)
    requires forall i :: 0 <= i < |ops| ==> !ops[i].RollingBack?
    ensures var s := Run(window, ops);
            VolumeAt(s.tracker, key, atSlot) ==
            if atSlot < s.tracker.latest then Err(ErrOutOfOrderActivity)
            else TurnoverOf(Since(OfPool(s.history, key), Cutoff(atSlot, window)))
  {
    NoRollbackHigh(window, ops);
    if atSlot >= Run(window, ops).tracker.latest {
      VolumeScansWholeHistory(window, ops, key, atSlot);
    }
  }

  /** Every retained list is slot-sorted. */
  lemma RetainedSorted(window: uint64, ops: seq<Op>, key: string)
    ensures SlotSorted(At(Run(window, ops).tracker.swaps, key))
  {
    RunRefines(window, ops);
    var s := Run(window, ops);
    var from: nat :| HoldsFrom(s, from);
    OfPoolSorted(s.history[from..], key);
  }

  /** Every pool's list is the history cut at the window of the high-water mark. */
  ghost predicate WindowOfHistory(s: Shadow) {
    forall k :: At(s.tracker.swaps, k) == Since(OfPool(s.history, k), Cutoff(s.high, s.tracker.window))
  }

  ghost predicate NothingBelowWindow(s: Shadow) {
    forall k, e :: e in At(s.tracker.swaps, k) ==> e.slot >= Cutoff(s.high, s.tracker.window)
  }

  lemma WindowIsNothingBelow(s: Shadow)
    requires Refines(s)
    ensures WindowOfHistory(s) <==> NothingBelowWindow(s)
  {
    var from: nat :| HoldsFrom(s, from);
    var c := Cutoff(s.high, s.tracker.window);
    if WindowOfHistory(s) {
      forall k, e | e in At(s.tracker.swaps, k) ensures e.slot >= c {
        SinceMembers(OfPool(s.history, k), c);
      }
    }
    if NothingBelowWindow(s) {
      forall k ensures At(s.tracker.swaps, k) == Since(OfPool(s.history, k), c) {
        StaleDropped(s.history, from, k, c);
        assert OfPool(s.history[from..], k) == At(s.tracker.swaps, k);
        SinceKeepsAll(OfPool(s.history[from..], k), c);
      }
    }
  }

  /** The operation is accepted and records a swap: a confirmed state in order, swap-shaped after the
      previous one, and for ObserveTransition not yet retained. */
  predicate Records(t: Tracker, op: Op) {
    && !op.RollingBack? && Observable(op.current) && op.current.value.slot >= t.latest
    && InferSwapTransition(op.previous, op.current).Swap?
    && var swap := InferSwapTransition(op.previous, op.current).swap;
       op.Observing? || FirstWithIdentity(At(t.swaps, swap.Key()), swap).None?
  }

  /** It records the swap of a state below the window of the highest slot ever observed. */
  predicate RecordsBelowWindow(s: Shadow, op: Op) {
    Records(s.tracker, op) && op.current.value.slot < Cutoff(s.high, s.tracker.window)
  }

  lemma {:induction false} FromCutoffAbove(own: seq<SwapTransition>, cutoff: int, e: SwapTransition)
    requires SlotSorted(own) && e in FromCutoff(own, cutoff)
    ensures e in own && e.slot >= cutoff
  {
    if own[0].slot < cutoff {
      FromCutoffAbove(own[1..], cutoff, e);
    } else {
      var i :| 0 <= i < |own| && own[i] == e;
      assert own[0].slot <= own[i].slot;
    }
  }

  lemma BeforeSlotSome(own: seq<SwapTransition>, slot: int, e: SwapTransition)
    requires e in BeforeSlot(own, slot)
    ensures e in own
  {
    if own != [] && own[|own| - 1].slot >= slot {
      BeforeSlotSome(own[..|own| - 1], slot, e);
    }
  }

  lemma RetainedListSorted(s: Shadow, k: string)
    requires Refines(s)
    ensures SlotSorted(At(s.tracker.swaps, k))
  {
    var from: nat :| HoldsFrom(s, from);
    OfPoolSorted(s.history[from..], k);
  }

  lemma AdvanceKeepsAbove(s: Shadow, slot: uint64)
    requires Refines(s) && NothingBelowWindow(s)
    ensures NothingBelowWindow(AdvancedTo(s, slot))
  {
    var c := Cutoff(slot, s.tracker.window);
    forall k, e | e in At(AdvancedTo(s, slot).tracker.swaps, k)
      ensures e.slot >= Cutoff(Max(s.high, slot), s.tracker.window)
    {
      PrunedAt(s.tracker.swaps, c, k);
      RetainedListSorted(s, k);
      FromCutoffAbove(At(s.tracker.swaps, k), c, e);
    }
  }

  lemma RollbackKeepsAbove(s: Shadow, slot: uint64)
    requires Refines(s) && NothingBelowWindow(s)
    ensures NothingBelowWindow(Step(s, RollingBack(slot)))
  {
    var latest := RollbackTip(s.tracker.latest, slot);
    var cut := RolledBack(s.tracker.swaps, slot);
    CutHoldsSome(s, slot);
    forall k, e | e in At(Step(s, RollingBack(slot)).tracker.swaps, k)
      ensures e.slot >= Cutoff(s.high, s.tracker.window)
    {
      PrunedAt(cut, Cutoff(latest, s.tracker.window), k);
      RolledBackAt(s.tracker.swaps, slot, k);
      RetainedListSorted(Shadow(s.tracker.(latest := latest, swaps := cut), BeforeSlot(s.history, slot), s.high), k);
      FromCutoffAbove(At(cut, k), Cutoff(latest, s.tracker.window), e);
      BeforeSlotSome(At(s.tracker.swaps, k), slot, e);
    }
  }

  lemma CutHoldsSome(s: Shadow, slot: uint64)
    requires Refines(s)
    ensures var latest := RollbackTip(s.tracker.latest, slot);
      Refines(Shadow(s.tracker.(latest := latest, swaps := RolledBack(s.tracker.swaps, slot)),
                     BeforeSlot(s.history, slot), s.high))
  {
    var from: nat :| HoldsFrom(s, from);
    CutHolds(s, from, slot);
  }

  lemma RecordKeepsAboveIff(s: Shadow, swap: SwapTransition)
    requires NothingBelowWindow(s)
    ensures NothingBelowWindow(RecordedIn(s, swap)) <==> swap.slot >= Cutoff(s.high, s.tracker.window)
  {
    var own := At(s.tracker.swaps, swap.Key());
    var after := RecordedIn(s, swap).tracker.swaps;
    assert At(after, swap.Key()) == own + [swap] && swap in own + [swap];
    assert forall k :: k != swap.Key() ==> At(after, k) == At(s.tracker.swaps, k);
  }

  /** What Step does, by the guard: a recording is the only way to add a swap. */
  lemma RecordsIff(s: Shadow, op: Op)
    requires !op.RollingBack? && Step(s, op) != s
    ensures Records(s.tracker, op) ==>
      Step(s, op) == RecordedIn(AdvancedTo(s, op.current.value.slot), InferSwapTransition(op.previous, op.current).swap)
    ensures !Records(s.tracker, op) ==> Step(s, op) == AdvancedTo(s, op.current.value.slot)
  {
  }

  lemma RecordingChanges(s: Shadow, op: Op)
    requires Records(s.tracker, op)
    ensures Step(s, op) != s
  {
    var c := op.current.value;
    assert |Step(s, op).history| == |s.history| + 1;
  }

  /** One step keeps the retained lists exact unless it records a swap below the window of the
      highest slot. Rollbacks and pruning never break it. */
  lemma StepStaysExactIff(s: Shadow, op: Op)
    requires Refines(s) && NothingBelowWindow(s)
    ensures NothingBelowWindow(Step(s, op)) <==> !RecordsBelowWindow(s, op)
  {
    if op.RollingBack? {
      RollbackKeepsAbove(s, op.slot);
    } else if Step(s, op) == s {
      if Records(s.tracker, op) {
        RecordingChanges(s, op);
      }
    } else {
      RecordsIff(s, op);
      ObservationCases(s, op);
      var slot := op.current.value.slot;
      AdvanceKeepsAbove(s, slot);
      if Records(s.tracker, op) {
        RecordKeepsAboveIff(AdvancedTo(s, slot), InferSwapTransition(op.previous, op.current).swap);
      }
    }
  }

  ghost predicate ExactAt(window: uint64, ops: seq<Op>, n: nat)
    requires n <= |ops|
  {
    WindowOfHistory(Run(window, ops[..n]))
  }

  predicate RecordsBelowAt(window: uint64, ops: seq<Op>, n: nat)
    requires n < |ops|
  {
    RecordsBelowWindow(Run(window, ops[..n]), ops[n])
  }

  lemma NextStaysExactIff(window: uint64, ops: seq<Op>, n: nat)
    requires n < |ops| && ExactAt(window, ops, n)
    ensures ExactAt(window, ops, n + 1) <==> !RecordsBelowAt(window, ops, n)
  {
    assert ops[..n + 1][..n] == ops[..n];
    RunRefines(window, ops[..n]);
    RunRefines(window, ops[..n + 1]);
    WindowIsNothingBelow(Run(window, ops[..n]));
    WindowIsNothingBelow(Run(window, ops[..n + 1]));
    StepStaysExactIff(Run(window, ops[..n]), ops[n]);
  }

  lemma {:induction false} ExactUpTo(window: uint64, ops: seq<Op>, n: nat)
    requires n <= |ops| && forall k: nat :: k < n ==> !RecordsBelowAt(window, ops, k)
    ensures ExactAt(window, ops, n)
  {
    if n == 0 {
      RunRefines(window, ops[..0]);
      WindowIsNothingBelow(Run(window, ops[..0]));
    } else {
      ExactUpTo(window, ops, n - 1);
      NextStaysExactIff(window, ops, n - 1);
    }
  }

  /** The retained lists are the history cut at the window of the highest slot throughout a run
      exactly when no operation of the run records a swap below that window. */
  lemma RunStaysExactIff(window: uint64, ops: seq<Op>)
    ensures (forall n: nat :: n <= |ops| ==> ExactAt(window, ops, n))
       <==> (forall n: nat :: n < |ops| ==> !RecordsBelowAt(window, ops, n))
  {
    if forall n: nat :: n < |ops| ==> !RecordsBelowAt(window, ops, n) {
      forall n: nat | n <= |ops| ensures ExactAt(window, ops, n) {
        ExactUpTo(window, ops, n);
      }
    }
    if forall n: nat :: n <= |ops| ==> ExactAt(window, ops, n) {
      forall n: nat | n < |ops| ensures !RecordsBelowAt(window, ops, n) {
        assert ExactAt(window, ops, n) && ExactAt(window, ops, n + 1);
        NextStaysExactIff(window, ops, n);
      }
    }
  }

  function SamplePool(slot: uint64, x: uint64, y: uint64): PoolState {
    PoolState("p", "n", "d",
              AssetAmount(AssetClass([], []), x), AssetAmount(AssetClass([1], []), y),
              997, 1000, slot, "", "", 0, false)
  }

  /** A swap accepted after a rollback deeper than the window stays below the high-water window:
      the retained list is then not the history cut at that window. */
  lemma DeepRollbackKeepsMore()
    ensures var ops := [Observing(None, Some(SamplePool(100, 5, 5))), RollingBack(20),
                        ObservingOnce(Some(SamplePool(10, 5, 5)), Some(SamplePool(20, 6, 4)))];
            !WindowOfHistory(Run(10, ops))
  {
    var o1 := Observing(None, Some(SamplePool(100, 5, 5)));
    var o2 := RollingBack(20);
    var o3 := ObservingOnce(Some(SamplePool(10, 5, 5)), Some(SamplePool(20, 6, 4)));
    assert [o1, o2, o3][..2] == [o1, o2] && [o1, o2][..1] == [o1] && [o1][..0] == [];
    var s1 := Step(Start(10), o1);
    var s2 := Step(s1, o2);
    var s3 := Step(s2, o3);
    assert Run(10, []) == Start(10);
    assert Run(10, [o1]) == s1;
    assert Run(10, [o1, o2]) == s2;
    assert Run(10, [o1, o2, o3]) == s3;
    assert s1.high == 100 && s1.tracker.swaps == map[] && s2.tracker.swaps == map[];
    var k := PoolKey("n", "d", "p");
    assert |At(s3.tracker.swaps, k)| == 1 && At(s3.tracker.swaps, k)[0].slot == 20;
    assert At(s3.tracker.swaps, k)[0] in At(s3.tracker.swaps, k) && !NothingBelowWindow(s3);
    RunRefines(10, [o1, o2, o3]);
    WindowIsNothingBelow(s3);
  }
}
